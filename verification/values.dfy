/** The Python values that flow through the module: settings read from the
    parameter file or the widgets, the extraction call's result payload, and
    the defaults of the command-line entry points. */
module Values {
  import opened Wrappers
  import opened Text
  import opened Literals

  /** A Python value. Dicts keep insertion order as a list of entries with
      string keys; a table-like object (a data frame) is reduced to its
      column names, the first record its export yields (empty when the
      export yields nothing), and its `str()` rendering; any other object is
      reduced to its `str()` rendering. */
  datatype PyVal =
    | PNone
    | PBool(b: bool)
    | PInt(i: int)
    | PFloat(f: Float)
    | PStr(s: string)
    | PList(items: seq<PyVal>)
    | PTuple(items: seq<PyVal>)
    | PDict(entries: seq<(string, PyVal)>)
    | PTable(columns: seq<string>, firstRecord: seq<(string, PyVal)>, text: string)
    | PObject(text: string)

  /** `isinstance(v, (list, tuple))`. */
  predicate IsSequence(v: PyVal) {
    v.PList? || v.PTuple?
  }

  /** The keys of a dict, in insertion order. */
  function Keys(entries: seq<(string, PyVal)>): (ks: seq<string>)
    ensures |ks| == |entries|
    ensures forall i | 0 <= i < |entries| :: ks[i] == entries[i].0
  {
    if |entries| == 0 then [] else [entries[0].0] + Keys(entries[1..])
  }

  /** `d.get(key)`: the value stored under `key`, if any. */
  function Lookup(entries: seq<(string, PyVal)>, key: string): (r: Option<PyVal>)
    ensures r.Some? <==> key in Keys(entries)
    ensures r.Some? ==> exists i | 0 <= i < |entries| :: entries[i] == (key, r.value)
  {
    if |entries| == 0 then None
    else if entries[0].0 == key then Some(entries[0].1)
    else Lookup(entries[1..], key)
  }

  /** Keys of a well-formed dict are pairwise distinct. */
  predicate DistinctKeys(entries: seq<(string, PyVal)>) {
    forall i, j | 0 <= i < j < |entries| :: entries[i].0 != entries[j].0
  }

  /** `m.get(k, otherwise)` on a dict with string keys. */
  function Get(m: map<string, PyVal>, k: string, otherwise: PyVal): PyVal {
    if k in m then m[k] else otherwise
  }

  function FloatText(f: Float): string {
    match f
    case Native(r) => r
    case Parsed(l) => l
  }

  /** Python's `repr()` of a string, without the escaping of quotes and
      control characters. */
  function QuoteRepr(s: string): string {
    "'" + s + "'"
  }

  /** `str(v)`. */
  function Str(v: PyVal): string
    decreases v, 1
  {
    match v
    case PNone => "None"
    case PBool(b) => if b then "True" else "False"
    case PInt(i) => IntToString(i)
    case PFloat(f) => FloatText(f)
    case PStr(s) => s
    case PList(items) => "[" + Join(ReprAll(v, items), ", ") + "]"
    case PTuple(items) =>
      if |items| == 1 then "(" + Repr(items[0]) + ",)"
      else "(" + Join(ReprAll(v, items), ", ") + ")"
    case PDict(entries) => "{" + Join(ReprEntries(v, entries), ", ") + "}"
    case PTable(_, _, text) => text
    case PObject(text) => text
  }

  /** `repr(v)`: quoted for strings, `str(v)` otherwise. */
  function Repr(v: PyVal): string
    decreases v, 2
  {
    if v.PStr? then QuoteRepr(v.s) else Str(v)
  }

  function ReprAll(ghost parent: PyVal, items: seq<PyVal>): (rs: seq<string>)
    requires forall i | 0 <= i < |items| :: items[i] < parent
    ensures |rs| == |items|
    decreases parent, 0, |items|
  {
    if |items| == 0 then [] else [Repr(items[0])] + ReprAll(parent, items[1..])
  }

  function ReprEntries(ghost parent: PyVal, entries: seq<(string, PyVal)>): (rs: seq<string>)
    requires forall i | 0 <= i < |entries| :: entries[i].1 < parent
    ensures |rs| == |entries|
    decreases parent, 0, |entries|
  {
    if |entries| == 0 then []
    else [QuoteRepr(entries[0].0) + ": " + Repr(entries[0].1)] + ReprEntries(parent, entries[1..])
  }
}
