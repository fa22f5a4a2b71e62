/** The two command-line entry points. Each reads a table of parameter
    specifications (name, then a dict with a default `value` and a declared
    `type`), accepts an optional `--name` override for every entry, coerces
    an override by the declared type, and hands one value per parameter to
    the extraction call. The bundled entry point (`A`) uses `_coerce_value`;
    the stand-alone one (`B`) coerces inline and is stricter about lists
    and laxer about booleans. Overrides are the texts argparse collected,
    keyed by parameter name; a missing key means the option was not given. */
module CliCoerce {
  import opened Wrappers
  import opened Text
  import opened Literals
  import opened Values

  // ---------- float lists ----------

  /** `float(x.strip())` for one list part. */
  function FloatOfPart(p: string): Option<Float> {
    ParseFloat(Strip(p))
  }

  /** `[parse(x) for x in parts]` for a float parser that raises on bad
      text: every part must parse; the first that does not raises, and its
      text is the error. */
  function FloatsOf(parts: seq<string>, parse: string -> Option<Float>): (r: Result<seq<PyVal>, string>)
    ensures r.Ok? <==> forall i | 0 <= i < |parts| :: parse(parts[i]).Some?
    ensures r.Ok? ==> |r.value| == |parts|
                      && forall i | 0 <= i < |parts| :: r.value[i] == PFloat(parse(parts[i]).value)
    ensures r.Err? ==> exists i | 0 <= i < |parts| ::
                         parse(parts[i]).None? && r.error == parts[i]
                         && forall j | 0 <= j < i :: parse(parts[j]).Some?
  {
    if |parts| == 0 then Ok([])
    else
      match parse(parts[0])
      case None => Err(parts[0])
      case Some(f) =>
        var rest := FloatsOf(parts[1..], parse);
        assert forall i | 1 <= i < |parts| :: parts[i] == parts[1..][i - 1];
        match rest
        case Err(e) => Err(e)
        case Ok(fs) => Ok([PFloat(f)] + fs)
  }

  /** The parts that are not blank, in order. */
  function NonBlank(parts: seq<string>): (r: seq<string>)
    ensures |r| <= |parts|
    ensures forall x | x in r :: x in parts && Strip(x) != ""
    ensures forall x | x in parts && Strip(x) != "" :: x in r
  {
    if |parts| == 0 then []
    else (if Strip(parts[0]) != "" then [parts[0]] else []) + NonBlank(parts[1..])
  }

  /** Dropping blank parts keeps the order of the rest: it distributes
      over concatenation. */
  lemma {:induction false} NonBlankAppend(a: seq<string>, b: seq<string>)
    ensures NonBlank(a + b) == NonBlank(a) + NonBlank(b)
  {
    if |a| == 0 {
      assert a + b == b;
    } else {
      var ab := a + b;
      assert ab[0] == a[0];
      assert ab[1..] == a[1..] + b;
      NonBlankAppend(a[1..], b);
    }
  }

  /** One part is kept exactly when it is not blank. */
  lemma NonBlankOne(p: string)
    ensures NonBlank([p]) == if Strip(p) != "" then [p] else []
  {
    assert [p][1..] == [];
  }

  /** A blank part is never a float literal, which is why the strict list
      coercion raises on `1,,2`. */
  lemma BlankIsNoFloat(p: string)
    requires Strip(p) == ""
    ensures FloatOfPart(p).None?
  {
    assert Unsigned("") == "";
    assert Lower("") == "";
    assert IndexOf("", 'e') == 0 && IndexOf("", '.') == 0;
  }

  // ---------- coercion by declared type ----------

  /** What a declared type name selects. */
  datatype Tag = TBool | TInt | TFloat | TList | TRaw

  /** `int(val)`, raising on bad text: no fallback to the text. */
  function IntParam(val: string): (r: Result<PyVal, string>)
    ensures r.Ok? <==> ParseInt(val).Some?
    ensures r.Ok? ==> r.value == PInt(ParseInt(val).value)
    ensures r.Err? ==> r.error == val
  {
    match ParseInt(val)
    case None => Err(val)
    case Some(i) => Ok(PInt(i))
  }

  /** `float(val)`, raising on bad text: no fallback to the text. */
  function FloatParam(val: string): (r: Result<PyVal, string>)
    ensures r.Ok? <==> ParseFloat(val).Some?
    ensures r.Ok? ==> r.value == PFloat(Parsed(Strip(val)))
    ensures r.Err? ==> r.error == val
  {
    match ParseFloat(val)
    case None => Err(val)
    case Some(f) => Ok(PFloat(f))
  }

  /** A list of floats, one per part. */
  function ListParam(parts: seq<string>): (r: Result<PyVal, string>)
    ensures r.Ok? <==> forall i | 0 <= i < |parts| :: FloatOfPart(parts[i]).Some?
    ensures r.Ok? ==> r.value.PList? && |r.value.items| == |parts|
                      && forall i | 0 <= i < |parts| :: r.value.items[i] == PFloat(Parsed(Strip(parts[i])))
    ensures r.Err? ==> exists i | 0 <= i < |parts| ::
                         FloatOfPart(parts[i]).None? && r.error == parts[i]
                         && forall j | 0 <= j < i :: FloatOfPart(parts[j]).Some?
  {
    match FloatsOf(parts, FloatOfPart)
    case Err(e) => Err(e)
    case Ok(fs) =>
      assert forall i | 0 <= i < |parts| :: FloatOfPart(parts[i]).Some? ==> FloatOfPart(parts[i]).value == Parsed(Strip(Strip(parts[i])));
      assert forall i | 0 <= i < |parts| :: Strip(Strip(parts[i])) == Strip(parts[i]) by {
        forall i | 0 <= i < |parts| ensures Strip(Strip(parts[i])) == Strip(parts[i]) {
          StripOfStripped(parts[i]);
        }
      }
      Ok(PList(fs))
  }

  // ---------- entry point A: `_coerce_value` ----------

  const TrueWordsA: set<string> := {"true", "1", "yes", "y", "on"}

  /** Python truthiness for the values that can be falsy without being
      numbers with a fractional part. */
  predicate Falsy(v: PyVal) {
    match v
    case PNone => true
    case PBool(b) => !b
    case PInt(i) => i == 0
    case PStr(s) => s == ""
    case PList(items) => items == []
    case PTuple(items) => items == []
    case PDict(entries) => entries == []
    case _ => false
  }

  /** `(typ or "").lower()`: `None` when a non-string type name has no
      `lower` and Python raises. */
  function TypeName(typ: PyVal): (t: Option<string>)
    ensures Falsy(typ) ==> t == Some("")
    ensures !Falsy(typ) ==> (t.Some? <==> typ.PStr?)
    ensures typ.PStr? && !Falsy(typ) ==> t == Some(Lower(typ.s))
    ensures t.Some? ==> Lower(t.value) == t.value
  {
    if Falsy(typ) then Some("")
    else if typ.PStr? then (LowerIdempotent(typ.s); Some(Lower(typ.s)))
    else None
  }

  /** The tag entry point A selects: `bool` and `boolean`, `int`, `float`
      and `list`, in any case; anything else keeps the text. */
  function TagA(typ: PyVal): (g: Option<Tag>)
    ensures g.None? <==> TypeName(typ).None?
    ensures Falsy(typ) ==> g == Some(TRaw)
    ensures typ.PStr? && Lower(typ.s) in {"bool", "boolean"} ==> g == Some(TBool)
    ensures typ.PStr? && Lower(typ.s) == "int" ==> g == Some(TInt)
    ensures typ.PStr? && Lower(typ.s) == "float" ==> g == Some(TFloat)
    ensures typ.PStr? && Lower(typ.s) == "list" ==> g == Some(TList)
    ensures TypeName(typ).Some? && TypeName(typ).value !in {"bool", "boolean", "int", "float", "list"} ==> g == Some(TRaw)
  {
    match TypeName(typ)
    case None => None
    case Some(t) =>
      Some(if t == "bool" || t == "boolean" then TBool
           else if t == "int" then TInt
           else if t == "float" then TFloat
           else if t == "list" then TList
           else TRaw)
  }

  /** The coercion of entry point A once the tag is known. Booleans and
      unknown types never raise; ints, floats and lists raise on bad text;
      a list drops its blank parts. */
  function CoerceByTagA(val: string, tag: Tag): (r: Result<PyVal, string>)
    ensures tag == TBool ==> r.Ok? && r.value.PBool? && (r.value.b <==> Lower(Strip(val)) in TrueWordsA)
    ensures tag == TInt ==> r == IntParam(val)
    ensures tag == TFloat ==> r == FloatParam(val)
    ensures tag == TList ==> r == ListParam(NonBlank(Split(val, ',')))
    ensures tag == TRaw ==> r == Ok(PStr(val))
  {
    match tag
    case TBool => Ok(PBool(Lower(Strip(val)) in TrueWordsA))
    case TInt => IntParam(val)
    case TFloat => FloatParam(val)
    case TList => ListParam(NonBlank(Split(val, ',')))
    case TRaw => Ok(PStr(val))
  }

  /** `_coerce_value(val, typ)`. */
  function CoerceA(val: string, typ: PyVal): (r: Result<PyVal, string>)
    ensures TagA(typ).None? ==> r.Err?
    ensures TagA(typ).Some? ==> r == CoerceByTagA(val, TagA(typ).value)
    ensures typ.PStr? && Lower(typ.s) == "int" ==> r == IntParam(val)
    ensures typ.PStr? && Lower(typ.s) == "float" ==> r == FloatParam(val)
    ensures typ.PStr? && Lower(typ.s) == "list" ==> r == ListParam(NonBlank(Split(val, ',')))
    ensures Falsy(typ) ==> r == Ok(PStr(val))
  {
    match TagA(typ)
    case None => Err("type has no lower()")
    case Some(g) => CoerceByTagA(val, g)
  }

  /** The declared type is matched without regard to case. */
  lemma TagAIgnoresCase(typ: string)
    ensures TagA(PStr(Lower(typ))) == TagA(PStr(typ))
  {
    LowerIdempotent(typ);
    assert |Lower(typ)| == |typ|;
  }

  /** The type names entry point A recognises as booleans. */
  lemma TagABoolNames()
    ensures TagA(PStr("bool")) == Some(TBool) && TagA(PStr("boolean")) == Some(TBool)
  {
    LowerOfLower("bool");
    LowerOfLower("boolean");
  }

  /** The numeric type names entry point A recognises. */
  lemma TagANumberNames()
    ensures TagA(PStr("int")) == Some(TInt) && TagA(PStr("float")) == Some(TFloat)
  {
    LowerOfLower("int");
    LowerOfLower("float");
  }

  lemma TagAListName()
    ensures TagA(PStr("list")) == Some(TList)
  {
    LowerOfLower("list");
  }

  /** A boolean override is read after stripping and lower-casing. */
  lemma BoolAIgnoresCaseAndSpace(val: string)
    ensures CoerceByTagA(Lower(Strip(val)), TBool) == CoerceByTagA(val, TBool)
  {
    StripLower(Strip(val));
    StripOfStripped(val);
    LowerIdempotent(Strip(val));
  }

  /** An int override read back as an int is the int that was printed. */
  lemma CoerceAIntRoundTrip(i: int)
    ensures CoerceByTagA(IntToString(i), TInt) == Ok(PInt(i))
  {
    ParseIntOfIntToString(i);
  }

  /** The specification entries that are dicts, in order: the others are
      skipped. */
  function DictEntries(specs: seq<(string, PyVal)>): (r: seq<(string, PyVal)>)
    ensures |r| <= |specs|
    ensures forall i | 0 <= i < |r| :: r[i].1.PDict?
    ensures forall e | e in r :: e in specs && e.1.PDict?
    ensures forall e | e in specs && e.1.PDict? :: e in r
  {
    if |specs| == 0 then []
    else (if specs[0].1.PDict? then [specs[0]] else []) + DictEntries(specs[1..])
  }

  /** The value entry point A passes for one dict entry: the coerced
      override when one was given, otherwise `entry.get("value")`. */
  function ParamA(key: string, entry: seq<(string, PyVal)>, overrides: map<string, string>): Result<PyVal, string> {
    if key in overrides then CoerceA(overrides[key], Lookup(entry, "type").GetOr(PStr("")))
    else Ok(Lookup(entry, "value").GetOr(PNone))
  }

  /** Entry point A's merge loop: one parameter per dict entry, in order;
      the first override that fails to coerce raises. */
  function MergeA(specs: seq<(string, PyVal)>, overrides: map<string, string>): (r: Result<seq<(string, PyVal)>, string>)
    ensures r.Ok? <==> forall e | e in DictEntries(specs) :: ParamA(e.0, e.1.entries, overrides).Ok?
    ensures r.Ok? ==> Keys(r.value) == Keys(DictEntries(specs))
    ensures r.Ok? ==> forall i | 0 <= i < |r.value| ::
                        ParamA(DictEntries(specs)[i].0, DictEntries(specs)[i].1.entries, overrides) == Ok(r.value[i].1)
    ensures r.Err? ==> FirstFailureA(DictEntries(specs), overrides, r.error)
  {
    if |specs| == 0 then Ok([])
    else
      var rest := MergeA(specs[1..], overrides);
      var (key, entry) := specs[0];
      if !entry.PDict? then
        assert DictEntries(specs) == DictEntries(specs[1..]);
        rest
      else
        assert DictEntries(specs) == [specs[0]] + DictEntries(specs[1..]);
        match ParamA(key, entry.entries, overrides)
        case Err(e) => FirstFailureHeadA(DictEntries(specs), overrides); Err(e)
        case Ok(v) =>
          match rest
          case Err(e) => FirstFailureConsA(DictEntries(specs), overrides, e); Err(e)
          case Ok(ps) => Ok([(key, v)] + ps)
  }

  /** `e` is the error of the first dict entry whose parameter fails, every
      entry before it succeeding: the loop raises at that entry. */
  predicate FirstFailureA(ds: seq<(string, PyVal)>, overrides: map<string, string>, e: string)
    requires forall i | 0 <= i < |ds| :: ds[i].1.PDict?
  {
    exists i | 0 <= i < |ds| ::
      ParamA(ds[i].0, ds[i].1.entries, overrides) == Err(e)
      && forall j | 0 <= j < i :: ParamA(ds[j].0, ds[j].1.entries, overrides).Ok?
  }

  lemma FirstFailureHeadA(ds: seq<(string, PyVal)>, overrides: map<string, string>)
    requires forall i | 0 <= i < |ds| :: ds[i].1.PDict?
    requires |ds| > 0 && ParamA(ds[0].0, ds[0].1.entries, overrides).Err?
    ensures FirstFailureA(ds, overrides, ParamA(ds[0].0, ds[0].1.entries, overrides).error)
  {
  }

  lemma FirstFailureConsA(ds: seq<(string, PyVal)>, overrides: map<string, string>, e: string)
    requires forall i | 0 <= i < |ds| :: ds[i].1.PDict?
    requires |ds| > 0 && ParamA(ds[0].0, ds[0].1.entries, overrides).Ok?
    requires FirstFailureA(ds[1..], overrides, e)
    ensures FirstFailureA(ds, overrides, e)
  {
    var tail := ds[1..];
    var k :| 0 <= k < |tail| && ParamA(tail[k].0, tail[k].1.entries, overrides) == Err(e)
             && forall j | 0 <= j < k :: ParamA(tail[j].0, tail[j].1.entries, overrides).Ok?;
    assert forall j | 1 <= j <= k :: ds[j] == tail[j - 1];
  }

  // ---------- entry point B: inline coercion ----------

  const TrueWordsB: set<string> := {"true", "1", "yes"}

  /** The tag entry point B selects: the type is compared as is, so only
      the exact lower-case names count and `boolean` keeps the text. */
  function TagB(typ: PyVal): (g: Tag)
    ensures g == TBool <==> typ == PStr("bool")
    ensures g == TInt <==> typ == PStr("int")
    ensures g == TFloat <==> typ == PStr("float")
    ensures g == TList <==> typ == PStr("list")
    ensures g == TRaw <==> typ !in {PStr("bool"), PStr("int"), PStr("float"), PStr("list")}
  {
    if typ == PStr("bool") then TBool
    else if typ == PStr("int") then TInt
    else if typ == PStr("float") then TFloat
    else if typ == PStr("list") then TList
    else TRaw
  }

  /** The inline coercion of entry point B once the tag is known. A boolean
      is lower-cased but not stripped; a list keeps every part, blank or
      not. */
  function CoerceByTagB(val: string, tag: Tag): (r: Result<PyVal, string>)
    ensures tag == TBool ==> r.Ok? && r.value.PBool? && (r.value.b <==> Lower(val) in TrueWordsB)
    ensures tag == TInt ==> r == IntParam(val)
    ensures tag == TFloat ==> r == FloatParam(val)
    ensures tag == TList ==> r == ListParam(Split(val, ','))
    ensures tag == TRaw ==> r == Ok(PStr(val))
  {
    match tag
    case TBool => Ok(PBool(Lower(val) in TrueWordsB))
    case TInt => IntParam(val)
    case TFloat => FloatParam(val)
    case TList => ListParam(Split(val, ','))
    case TRaw => Ok(PStr(val))
  }

  /** The inline coercion of entry point B. */
  function CoerceB(val: string, typ: PyVal): (r: Result<PyVal, string>)
    ensures typ == PStr("bool") ==> r.Ok? && r.value.PBool? && (r.value.b <==> Lower(val) in TrueWordsB)
    ensures typ == PStr("int") ==> r == IntParam(val)
    ensures typ == PStr("float") ==> r == FloatParam(val)
    ensures typ == PStr("list") ==> r == ListParam(Split(val, ','))
    ensures typ !in {PStr("bool"), PStr("int"), PStr("float"), PStr("list")} ==> r == Ok(PStr(val))
  {
    CoerceByTagB(val, TagB(typ))
  }

  /** Entry point B subscripts every entry for its `value` while building
      the parser, so each entry must be a dict holding one. */
  predicate HasDefault(entry: PyVal) {
    entry.PDict? && Lookup(entry.entries, "value").Some?
  }

  /** The value entry point B passes for one entry: an override is coerced
      by `entry['type']`, which must then exist. Subscripting anything but
      a dict raises. */
  function ParamB(key: string, entry: PyVal, overrides: map<string, string>): Result<PyVal, string> {
    if !entry.PDict? then Err("not subscriptable")
    else if key in overrides then
      match Lookup(entry.entries, "type")
      case None => Err("type")
      case Some(typ) => CoerceB(overrides[key], typ)
    else Ok(Lookup(entry.entries, "value").GetOr(PNone))
  }

  /** `e` is the error of the first entry whose parameter fails, every
      entry before it succeeding: the loop raises at that entry. */
  predicate FirstFailureB(specs: seq<(string, PyVal)>, overrides: map<string, string>, e: string) {
    exists i | 0 <= i < |specs| ::
      ParamB(specs[i].0, specs[i].1, overrides) == Err(e)
      && forall j | 0 <= j < i :: ParamB(specs[j].0, specs[j].1, overrides).Ok?
  }

  lemma FirstFailureHeadB(specs: seq<(string, PyVal)>, overrides: map<string, string>)
    requires |specs| > 0 && ParamB(specs[0].0, specs[0].1, overrides).Err?
    ensures FirstFailureB(specs, overrides, ParamB(specs[0].0, specs[0].1, overrides).error)
  {
  }

  lemma FirstFailureConsB(specs: seq<(string, PyVal)>, overrides: map<string, string>, e: string)
    requires |specs| > 0 && ParamB(specs[0].0, specs[0].1, overrides).Ok?
    requires FirstFailureB(specs[1..], overrides, e)
    ensures FirstFailureB(specs, overrides, e)
  {
    var tail := specs[1..];
    var k :| 0 <= k < |tail| && ParamB(tail[k].0, tail[k].1, overrides) == Err(e)
             && forall j | 0 <= j < k :: ParamB(tail[j].0, tail[j].1, overrides).Ok?;
    assert forall j | 1 <= j <= k :: specs[j] == tail[j - 1];
  }

  function MergeBLoop(specs: seq<(string, PyVal)>, overrides: map<string, string>): (r: Result<seq<(string, PyVal)>, string>)
    ensures r.Ok? <==> forall e | e in specs :: ParamB(e.0, e.1, overrides).Ok?
    ensures r.Ok? ==> Keys(r.value) == Keys(specs)
    ensures r.Ok? ==> forall i | 0 <= i < |r.value| :: ParamB(specs[i].0, specs[i].1, overrides) == Ok(r.value[i].1)
    ensures r.Err? ==> FirstFailureB(specs, overrides, r.error)
  {
    if |specs| == 0 then Ok([])
    else
      match ParamB(specs[0].0, specs[0].1, overrides)
      case Err(e) => FirstFailureHeadB(specs, overrides); Err(e)
      case Ok(v) =>
        var rest := MergeBLoop(specs[1..], overrides);
        assert forall i | 1 <= i < |specs| :: specs[i] == specs[1..][i - 1];
        match rest
        case Err(e) => FirstFailureConsB(specs, overrides, e); Err(e)
        case Ok(ps) => Ok([(specs[0].0, v)] + ps)
  }

  /** Entry point B's parser set-up and merge loop: every entry yields
      exactly one parameter, in order. */
  function MergeB(specs: seq<(string, PyVal)>, overrides: map<string, string>): (r: Result<seq<(string, PyVal)>, string>)
    ensures (exists e | e in specs :: !HasDefault(e.1)) ==> r.Err?
    ensures (forall e | e in specs :: HasDefault(e.1)) ==>
              (r.Ok? <==> forall e | e in specs :: ParamB(e.0, e.1, overrides).Ok?)
    ensures r.Ok? ==> Keys(r.value) == Keys(specs)
    ensures r.Ok? ==> forall i | 0 <= i < |r.value| :: ParamB(specs[i].0, specs[i].1, overrides) == Ok(r.value[i].1)
    ensures (forall e | e in specs :: HasDefault(e.1)) && r.Err? ==> FirstFailureB(specs, overrides, r.error)
  {
    if exists e | e in specs :: !HasDefault(e.1) then Err("value")
    else MergeBLoop(specs, overrides)
  }

  // ---------- how the two entry points differ ----------

  /** Without overrides both entry points pass every default unchanged. */
  lemma MergeDefaultsAgree(specs: seq<(string, PyVal)>)
    requires forall e | e in specs :: HasDefault(e.1)
    ensures MergeA(specs, map[]) == MergeB(specs, map[])
  {
    MergeLoopsAgree(specs);
  }

  lemma {:induction false} MergeLoopsAgree(specs: seq<(string, PyVal)>)
    requires forall e | e in specs :: HasDefault(e.1)
    ensures MergeA(specs, map[]) == MergeBLoop(specs, map[])
  {
    if |specs| > 0 {
      assert specs[0] in specs;
      assert forall e | e in specs[1..] :: e in specs;
      MergeLoopsAgree(specs[1..]);
      var (key, entry) := specs[0];
      assert ParamA(key, entry.entries, map[]) == ParamB(key, entry, map[]);
    }
  }

  /** Entry point A strips a boolean override; entry point B does not. */
  lemma BoolVariantsDifferOnSpace()
    ensures CoerceByTagA(" yes", TBool) == Ok(PBool(true))
    ensures CoerceByTagB(" yes", TBool) == Ok(PBool(false))
  {
    PaddedYesA();
    PaddedYesB();
  }

  lemma PaddedYesA()
    ensures CoerceByTagA(" yes", TBool) == Ok(PBool(true))
  {
    StripPaddedYes();
    LowerOfLower("yes");
  }

  lemma PaddedYesB()
    ensures CoerceByTagB(" yes", TBool) == Ok(PBool(false))
  {
    LowerOfLower(" yes");
    assert |" yes"| == 4;
  }

  lemma StripPaddedYes()
    ensures Strip(" yes") == "yes"
  {
    StripSurrounded(" ", "yes", "");
    assert " " + "yes" + "" == " yes";
    NoSpaceIsStripped("yes");
  }

  /** Entry point A accepts `y` and `on`; entry point B does not. */
  lemma BoolVariantsDifferOnWords()
    ensures CoerceByTagA("on", TBool) == Ok(PBool(true))
    ensures CoerceByTagB("on", TBool) == Ok(PBool(false))
  {
    NoSpaceIsStripped("on");
    LowerOfLower("on");
  }

  lemma SplitAroundBlank(a: string, b: string)
    requires ',' !in a && ',' !in b
    ensures Split(a + ",," + b, ',') == [a, "", b]
  {
    assert a + ",," + b == a + [','] + ("" + [','] + b);
    SplitPrefix(a, "" + [','] + b, ',');
    SplitPrefix("", b, ',');
    SplitNoSep(b, ',');
  }

  /** A blank list part is dropped by entry point A. */
  lemma ListADropsBlank(a: string, b: string)
    requires ',' !in a && ',' !in b
    requires FloatOfPart(a).Some? && FloatOfPart(b).Some?
    ensures CoerceByTagA(a + ",," + b, TList) == Ok(PList([PFloat(Parsed(Strip(a))), PFloat(Parsed(Strip(b)))]))
  {
    SplitAroundBlank(a, b);
    assert Strip(a) != "" && Strip(b) != "" by {
      if Strip(a) == "" { BlankIsNoFloat(a); }
      if Strip(b) == "" { BlankIsNoFloat(b); }
    }
    NonBlankDropsMiddle(a, b);
    ListParamPair(a, b);
  }

  lemma ListParamPair(a: string, b: string)
    requires FloatOfPart(a).Some? && FloatOfPart(b).Some?
    ensures ListParam([a, b]) == Ok(PList([PFloat(Parsed(Strip(a))), PFloat(Parsed(Strip(b)))]))
  {
    var parts := [a, b];
    assert forall i | 0 <= i < |parts| :: FloatOfPart(parts[i]).Some?;
    var items := ListParam(parts).value.items;
    assert items[0] == PFloat(Parsed(Strip(parts[0])));
    assert items[1] == PFloat(Parsed(Strip(parts[1])));
    assert items == [items[0], items[1]];
  }

  lemma NonBlankDropsMiddle(a: string, b: string)
    requires Strip(a) != "" && Strip(b) != ""
    ensures NonBlank([a, "", b]) == [a, b]
  {
    assert [a, "", b][1..] == ["", b];
    assert ["", b][1..] == [b];
    assert [b][1..] == [];
  }

  /** The same blank part raises in entry point B. */
  lemma ListBRaisesOnBlank(a: string, b: string)
    requires ',' !in a && ',' !in b
    ensures CoerceByTagB(a + ",," + b, TList).Err?
  {
    SplitAroundBlank(a, b);
    BlankIsNoFloat("");
    assert [a, "", b][1] == "";
  }
}
