/** Optional values and error-carrying results, used wherever the source
    returns `None` or raises. */
module Wrappers {

  datatype Option<+T> = None | Some(value: T) {

    /** The carried value, or `default` when there is none. */
    function GetOr(default: T): T {
      match this
      case Some(v) => v
      case None => default
    }
  }

  /** `Err` stands for an exception escaping the modelled routine. */
  datatype Result<+T, +E> = Ok(value: T) | Err(error: E)
}
