/** `PySERALogic._normalize` and `PySERALogic._compose_cfg`: coercion of one
    raw setting, and the three-layer overlay that produces the run
    configuration. Both module variants share this code. */
module Config {
  import opened Wrappers
  import opened Text
  import opened Literals
  import opened Values

  /** A coerced scalar: None, an int, a float, or a string. */
  datatype Scalar = SNone | SInt(i: int) | SFloat(f: Float) | SStr(s: string)

  /** What `_normalize` returns: a scalar, or a list of scalars for a
      comma-separated setting. */
  datatype Norm = One(v: Scalar) | Many(items: seq<Scalar>)

  /** One part of a comma-separated setting: "none" in any case is None, an
      all-digit part is an int, anything else a float if `float()` takes it
      and otherwise the stripped part itself. */
  function NormalizePart(raw: string): (x: Scalar)
    ensures x == SNone <==> Lower(Strip(raw)) == "none"
    ensures x.SInt? <==> IsDigitString(Strip(raw))
    ensures x.SInt? ==> IsDigitString(Strip(raw)) && x.i == DigitsValue(Strip(raw))
    ensures x.SFloat? ==> x.f == Parsed(Strip(raw))
    ensures x.SStr? <==> Lower(Strip(raw)) != "none" && !IsDigitString(Strip(raw)) && !IsFloatLiteral(Strip(raw))
    ensures x.SStr? ==> x.s == Strip(raw)
  {
    var part := Strip(raw);
    StripOfStripped(raw);
    if Lower(part) == "none" then SNone
    else if IsDigitString(part) then SInt(DigitsValue(part))
    else
      match ParseFloat(part)
      case Some(f) => SFloat(f)
      case None => SStr(part)
  }

  /** `_normalize` on the text `str(v)` of a value that is not None, a bool
      or a number. A setting is a list exactly when its stripped text holds
      a comma, and then it has one element per comma-separated part. */
  function NormalizeText(text: string): (r: Norm)
    ensures r.Many? <==> ',' in Strip(text)
    ensures r.Many? ==> |r.items| == Count(Strip(text), ',') + 1
    ensures r.Many? ==> |Split(Strip(text), ',')| == |r.items|
    ensures r.Many? ==> forall i | 0 <= i < |r.items| :: r.items[i] == NormalizePart(Split(Strip(text), ',')[i])
    ensures Strip(text) != "" && Lower(Strip(text)) != "none" && Lower(Strip(text)) != "auto" && ',' !in Strip(text) ==>
              r == One(NormalizeNumber(Strip(text)))
  {
    NormalizeStripped(Strip(text))
  }

  /** `_normalize` once the text has been stripped. */
  function NormalizeStripped(s: string): (r: Norm)
    ensures r.Many? <==> ',' in s
    ensures r.Many? ==> |r.items| == Count(s, ',') + 1
    ensures r == One(SNone) <==> Lower(s) == "none"
    ensures s == "" ==> r == One(SStr(""))
    ensures Lower(s) == "auto" ==> r == One(SStr("auto"))
    ensures ',' in s ==> r == NormalizeList(s)
    ensures s != "" && Lower(s) != "none" && Lower(s) != "auto" && ',' !in s ==> r == One(NormalizeNumber(s))
  {
    if s == "" then One(SStr(""))
    else if Lower(s) == "none" then (NoCommaInWord(s, "none"); One(SNone))
    else if Lower(s) == "auto" then (NoCommaInWord(s, "auto"); One(SStr("auto")))
    else if ',' in s then NormalizeList(s)
    else One(NormalizeNumber(s))
  }

  /** The comma case: one element per part, in order. */
  function NormalizeList(s: string): (r: Norm)
    requires ',' in s
    ensures r.Many? && |r.items| == Count(s, ',') + 1
    ensures |Split(s, ',')| == |r.items|
    ensures forall i | 0 <= i < |r.items| :: r.items[i] == NormalizePart(Split(s, ',')[i])
  {
    SplitCount(s, ',');
    CountZero(s, ',');
    Many(NormalizeParts(Split(s, ',')))
  }

  /** `NormalizePart` applied to each part, in order. */
  function NormalizeParts(parts: seq<string>): (xs: seq<Scalar>)
    ensures |xs| == |parts|
    ensures forall i | 0 <= i < |parts| :: xs[i] == NormalizePart(parts[i])
  {
    if |parts| == 0 then [] else [NormalizePart(parts[0])] + NormalizeParts(parts[1..])
  }

  /** The number case: `float()` when the text holds a point or an `e`,
      `int()` otherwise, and the text itself when that conversion raises. */
  function NormalizeNumber(s: string): (x: Scalar)
    ensures x != SNone
    ensures x.SFloat? <==> ('.' in s || 'e' in Lower(s)) && IsFloatLiteral(Strip(s))
    ensures x.SFloat? ==> x.f == Parsed(Strip(s))
    ensures x.SInt? <==> !('.' in s || 'e' in Lower(s)) && ParseInt(s).Some?
    ensures x.SInt? ==> ParseInt(s) == Some(x.i)
    ensures x.SStr? ==> x.s == s
  {
    if '.' in s || 'e' in Lower(s) then
      match ParseFloat(s)
      case Some(f) => SFloat(f)
      case None => SStr(s)
    else
      match ParseInt(s)
      case Some(n) => SInt(n)
      case None => SStr(s)
  }

  /** `_normalize(v)`: total, it never raises. None stays None, a bool
      becomes 0 or 1, numbers are returned unchanged, and every other value
      is coerced through its text. */
  function Normalize(v: PyVal): (r: Norm)
    ensures v.PBool? ==> r == One(SInt(if v.b then 1 else 0))
    ensures v.PInt? ==> r == One(SInt(v.i))
    ensures v.PFloat? ==> r == One(SFloat(v.f))
    ensures v.PNone? ==> r == One(SNone)
  {
    match v
    case PNone => One(SNone)
    case PBool(b) => One(SInt(if b then 1 else 0))
    case PInt(i) => One(SInt(i))
    case PFloat(f) => One(SFloat(f))
    case _ => NormalizeText(Str(v))
  }

  lemma NormalizeOfStr(s: string)
    ensures Normalize(PStr(s)) == NormalizeText(s)
  {
  }

  /** The Python value a coerced scalar is. */
  function Embed(x: Scalar): PyVal {
    match x
    case SNone => PNone
    case SInt(i) => PInt(i)
    case SFloat(f) => PFloat(f)
    case SStr(s) => PStr(s)
  }

  lemma NoCommaInWord(s: string, word: string)
    requires Lower(s) == word && ',' !in word
    ensures ',' !in s
  {
    assert forall i | 0 <= i < |s| :: LowerChar(s[i]) == word[i];
  }

  // ---------- properties of _normalize ----------

  /** A value that is not None, a bool or a number is coerced through the
      stripped text of its `str()`. */
  lemma NormalizeOfText(v: PyVal)
    requires !(v.PNone? || v.PBool? || v.PInt? || v.PFloat?)
    ensures Normalize(v) == NormalizeStripped(Strip(Str(v)))
  {
  }

  /** The strings stripped coercion gives back: the empty string, "auto",
      or the text itself. */
  lemma NormalizeStrippedStrings(s: string)
    requires NormalizeStripped(s).One? && NormalizeStripped(s).v.SStr?
    ensures var y := NormalizeStripped(s).v.s;
            y == "" || y == "auto" || y == s
  {
    if s != "" && Lower(s) != "none" && Lower(s) != "auto" && ',' !in s {
      assert NormalizeStripped(s) == One(NormalizeNumber(s));
    }
  }

  /** Blank text coerces to the empty string. */
  lemma NormalizeEmptyText(s: string)
    requires AllSpace(s)
    ensures Normalize(PStr(s)) == One(SStr(""))
  {
    NormalizeOfStr(s);
  }

  /** "none" in any case and with any surrounding whitespace is None. */
  lemma NormalizeNoneWord(y: string)
    requires Lower(Strip(y)) == "none"
    ensures Normalize(PStr(y)) == One(SNone)
  {
    NormalizeOfStr(y);
    assert Strip(y) != "";
  }

  /** Text `float()` accepts is never empty, "none" or "auto": it starts
      with a sign, a digit, a point, or the first letter of inf or nan. */
  lemma FloatLiteralIsNoWord(t: string)
    requires IsFloatLiteral(t)
    ensures |t| > 0 && Lower(t) != "none" && Lower(t) != "auto"
  {
    if t == "" {
      assert Unsigned(t) == t && Lower(t) == "";
      DecimalLiteralStart(t);
    }
    if Lower(t) == "none" {
      WordIsNoFloat(t, "none");
    }
    if Lower(t) == "auto" {
      WordIsNoFloat(t, "auto");
    }
  }

  /** A four-letter word that is not a float word is no float literal. */
  lemma WordIsNoFloat(t: string, word: string)
    requires word == "none" || word == "auto"
    requires Lower(t) == word
    ensures !IsFloatLiteral(t)
  {
    assert Lower(t)[0] == LowerChar(t[0]);
    assert t[0] != '+' && t[0] != '-' && t[0] != '.' && !IsDigit(t[0]);
    assert Unsigned(t) == t;
    if IsDecimalLiteral(t) {
      DecimalLiteralStart(t);
    }
  }

  /** A decimal literal starts with a digit or a point. */
  lemma DecimalLiteralStart(u: string)
    requires IsDecimalLiteral(u)
    ensures |u| > 0 && (IsDigit(u[0]) || u[0] == '.')
  {
    var k := IndexOf(Lower(u), 'e');
    var m := u[..k];
    var d := IndexOf(m, '.');
    if d == |m| {
      assert IsDigitString(m);
    } else if d == 0 {
      assert m[0] == '.';
    } else {
      assert m[..d][0] == m[0];
    }
  }

  /** Comma-free text with a point or an `e` that `float()` accepts becomes
      that float. */
  lemma NormalizeFloatText(s: string)
    requires ',' !in Strip(s)
    requires '.' in Strip(s) || 'e' in Lower(Strip(s))
    requires IsFloatLiteral(Strip(s))
    ensures Normalize(PStr(s)) == One(SFloat(Parsed(Strip(s))))
  {
    var t := Strip(s);
    NormalizeOfStr(s);
    StripOfStripped(s);
    FloatLiteralIsNoWord(t);
    assert NormalizeStripped(t) == One(NormalizeNumber(t));
  }

  /** Comma-free text without a point or an `e` that `int()` accepts
      becomes that integer. */
  lemma NormalizeIntWord(s: string)
    requires ',' !in Strip(s) && '.' !in Strip(s) && 'e' !in Lower(Strip(s))
    requires ParseInt(s).Some?
    ensures Normalize(PStr(s)) == One(SInt(ParseInt(s).value))
  {
    var t := Strip(s);
    IntTextStrips(s);
    FloatLiteralIsNoWord(t);
    IntWordIsNumber(t);
    NormalizeNumberText(s);
  }

  /** `int()` reads the stripped text, which is then a float literal too. */
  lemma IntTextStrips(s: string)
    requires ParseInt(s).Some?
    ensures ParseInt(Strip(s)) == ParseInt(s)
    ensures IsFloatLiteral(Strip(s))
  {
    StripOfStripped(s);
    IntLiteralIsFloatLiteral(Strip(s));
  }

  /** Comma-free text that is neither blank nor a keyword goes to the
      number case. */
  lemma NormalizeNumberText(s: string)
    requires Strip(s) != "" && Lower(Strip(s)) != "none" && Lower(Strip(s)) != "auto" && ',' !in Strip(s)
    ensures Normalize(PStr(s)) == One(NormalizeNumber(Strip(s)))
  {
    NormalizeOfStr(s);
  }

  /** Without a point or an `e`, text `int()` accepts is that int. */
  lemma IntWordIsNumber(t: string)
    requires '.' !in t && 'e' !in Lower(t) && ParseInt(t).Some?
    ensures NormalizeNumber(t) == SInt(ParseInt(t).value)
  {
  }

  /** Any stripped spelling of "auto" is kept as the word "auto". */
  lemma NormalizeAutoWord(y: string)
    requires Strip(y) == y && Lower(y) == "auto"
    ensures Normalize(PStr(y)) == One(SStr("auto"))
  {
    NormalizeOfStr(y);
    assert y != "";
    assert Lower(y) != "none";
    assert NormalizeStripped(y) == One(SStr("auto"));
    assert NormalizeText(y) == One(SStr("auto"));
  }

  lemma AutoWordFacts()
    ensures Strip("auto") == "auto" && Lower("auto") == "auto"
  {
    NoSpaceIsStripped("auto");
  }

  lemma NormalizeOfStripped(s: string)
    requires Strip(s) == s
    ensures Normalize(PStr(s)) == NormalizeStripped(s)
  {
    NormalizeOfStr(s);
  }

  /** A string that stripped coercion returns is a fixed point of coercion. */
  lemma NormalizeStrippedStrFixed(s: string)
    requires Strip(s) == s
    requires NormalizeStripped(s).One? && NormalizeStripped(s).v.SStr?
    ensures Normalize(PStr(NormalizeStripped(s).v.s)) == NormalizeStripped(s)
  {
    var y := NormalizeStripped(s).v.s;
    NormalizeStrippedStrings(s);
    if y == "" {
      NormalizeEmptyText(y);
    } else if y == "auto" {
      AutoWordFacts();
      NormalizeAutoWord(y);
    } else {
      NormalizeOfStripped(s);
    }
  }

  /** Coercion is idempotent on scalars: feeding a coerced scalar back in
      returns it unchanged (so `2` gives `2`, and `"2"` gives `2` both times). */
  lemma NormalizeScalarFixedPoint(v: PyVal)
    requires Normalize(v).One?
    ensures Normalize(Embed(Normalize(v).v)) == Normalize(v)
  {
    if !(v.PNone? || v.PBool? || v.PInt? || v.PFloat?) {
      NormalizeOfText(v);
      NormalizeTextScalarFixedPoint(Str(v));
    }
  }

  lemma NormalizeTextScalarFixedPoint(t: string)
    requires NormalizeText(t).One?
    ensures Normalize(Embed(NormalizeText(t).v)) == NormalizeText(t)
  {
    var s := Strip(t);
    assert NormalizeText(t) == NormalizeStripped(s);
    match NormalizeStripped(s).v
    case SStr(_) =>
      StripOfStripped(t);
      NormalizeStrippedStrFixed(s);
    case _ =>
  }

  /** Surrounding whitespace never changes how a textual setting is coerced. */
  lemma NormalizeIgnoresSurroundingSpace(a: string, t: string, b: string)
    requires AllSpace(a) && AllSpace(b)
    ensures Normalize(PStr(a + t + b)) == Normalize(PStr(t))
  {
    StripSurrounded(a, t, b);
  }

  /** The text of an int: an optional minus sign, then decimal digits. */
  lemma IntTextShape(i: int)
    ensures var s := IntToString(i);
            && Unsigned(s) == NatToString(if i < 0 then -i else i)
            && (i < 0 <==> s[0] == '-')
            && IsDigit(s[|s| - 1])
            && forall k | 0 <= k < |s| :: s[k] == '-' || IsDigit(s[k])
  {
    var s := IntToString(i);
    var digits := NatToString(if i < 0 then -i else i);
    assert IsDigit(digits[0]) && IsDigit(digits[|digits| - 1]);
    if i < 0 {
      assert s[1..] == digits;
    }
  }

  lemma IntTextStripped(i: int)
    ensures IntToString(i) != "" && Strip(IntToString(i)) == IntToString(i)
  {
    IntTextShape(i);
    NoSpaceIsStripped(IntToString(i));
  }

  lemma IntTextNotAWord(i: int)
    ensures Lower(IntToString(i)) != "none" && Lower(IntToString(i)) != "auto"
  {
    var s := IntToString(i);
    IntTextShape(i);
    assert Lower(s)[0] == LowerChar(s[0]);
  }

  lemma IntTextNoSeparator(i: int)
    ensures var s := IntToString(i);
            ',' !in s && '.' !in s && 'e' !in Lower(s) && IsFloatLiteral(s)
  {
    var s := IntToString(i);
    IntTextShape(i);
    IntLiteralHasNoPointOrExponent(s);
    IntLiteralIsFloatLiteral(s);
  }

  lemma IntTextDigits(i: int)
    ensures IsDigitString(IntToString(i)) <==> i >= 0
  {
    IntTextShape(i);
  }

  /** What the coercion branches need to know about the text of an int. */
  lemma IntTextFacts(i: int)
    ensures var s := IntToString(i);
            && s != "" && Strip(s) == s
            && Lower(s) != "none" && Lower(s) != "auto"
            && ',' !in s && '.' !in s && 'e' !in Lower(s)
            && IsFloatLiteral(s)
            && (IsDigitString(s) <==> i >= 0)
  {
    IntTextStripped(i);
    IntTextNotAWord(i);
    IntTextNoSeparator(i);
    IntTextDigits(i);
  }

  /** The text of any int is coerced back to that int. */
  lemma NormalizeIntText(i: int)
    ensures Normalize(PStr(IntToString(i))) == One(SInt(i))
  {
    var s := IntToString(i);
    IntTextFacts(i);
    ParseIntOfIntToString(i);
    assert Str(PStr(s)) == s;
    assert !('.' in s || 'e' in Lower(s));
    assert NormalizeNumber(s) == SInt(i);
    assert s != "" && Lower(s) != "none" && Lower(s) != "auto" && ',' !in s;
    assert NormalizeStripped(s) == One(SInt(i));
    assert NormalizeText(s) == One(SInt(i));
    NormalizeOfStr(s);
  }

  /** Every all-digit part of a list setting becomes the int it spells. */
  lemma NormalizePartNat(n: nat)
    ensures NormalizePart(NatToString(n)) == SInt(n)
  {
    var s := NatToString(n);
    assert IntToString(n) == s;
    IntTextFacts(n);
    DigitsValueOfNatToString(n);
    assert Strip(s) == s;
    assert Lower(s) != "none";
    assert IsDigitString(s);
  }

  /** A negative whole number inside a list setting is not all digits, so it
      is handed to `float()` and becomes a float, unlike the same text on its
      own, which becomes an int. */
  lemma NormalizePartNegative(i: int)
    requires i < 0
    ensures NormalizePart(IntToString(i)) == SFloat(Parsed(IntToString(i)))
  {
    IntTextFacts(i);
  }

  function NatTexts(ns: seq<nat>): (ts: seq<string>)
    ensures |ts| == |ns|
    ensures forall i | 0 <= i < |ns| :: ts[i] == NatToString(ns[i])
  {
    if |ns| == 0 then [] else [NatToString(ns[0])] + NatTexts(ns[1..])
  }

  function NatScalars(ns: seq<nat>): (xs: seq<Scalar>)
    ensures |xs| == |ns|
    ensures forall i | 0 <= i < |ns| :: xs[i] == SInt(ns[i])
  {
    if |ns| == 0 then [] else [SInt(ns[0])] + NatScalars(ns[1..])
  }

  lemma {:induction false} JoinedDigitsHaveNoSpace(ns: seq<nat>)
    requires |ns| >= 1
    ensures var s := Join(NatTexts(ns), ",");
            |s| > 0 && IsDigit(s[0]) && IsDigit(s[|s| - 1])
  {
    var ts := NatTexts(ns);
    if |ns| > 1 {
      JoinedDigitsHaveNoSpace(ns[1..]);
      assert NatTexts(ns[1..]) == ts[1..];
      assert Join(ts, ",") == ts[0] + "," + Join(ts[1..], ",");
    }
  }

  /** A comma-joined list of whole numbers is coerced back to exactly those
      ints, in order. */
  lemma NormalizeNatList(ns: seq<nat>)
    requires |ns| >= 2
    ensures Normalize(PStr(Join(NatTexts(ns), ","))) == Many(NatScalars(ns))
  {
    var ts := NatTexts(ns);
    var s := Join(ts, ",");
    JoinedDigitsHaveNoSpace(ns);
    NoSpaceIsStripped(s);
    NormalizeOfStripped(s);
    assert s == ts[0] + "," + Join(ts[1..], ",");
    assert s[|ts[0]|] == ',';
    DigitTextIsList(s);
    assert forall i | 0 <= i < |ts| :: ',' !in ts[i];
    SplitJoin(ts, ',');
    NormalizeNatParts(ns);
  }

  /** Text that starts with a digit and holds a comma takes the list case. */
  lemma DigitTextIsList(s: string)
    requires |s| > 0 && IsDigit(s[0]) && ',' in s
    ensures NormalizeStripped(s) == NormalizeList(s)
  {
    assert Lower(s)[0] == s[0];
  }

  lemma NormalizeNatParts(ns: seq<nat>)
    ensures NormalizeParts(NatTexts(ns)) == NatScalars(ns)
  {
    var ts := NatTexts(ns);
    forall i | 0 <= i < |ns|
      ensures NormalizePart(ts[i]) == SInt(ns[i])
    {
      NormalizePartNat(ns[i]);
    }
  }

  /** When coercion gives back a string that is neither empty nor "auto",
      that string is the stripped text of the setting, it holds no comma,
      and Python's `int()` would have rejected it: the fallback only ever
      keeps text that is not a number in the position it was read. */
  lemma NormalizeFallbackKeepsText(v: PyVal)
    requires Normalize(v).One? && Normalize(v).v.SStr?
    requires Normalize(v).v.s != "" && Normalize(v).v.s != "auto"
    ensures !(v.PNone? || v.PBool? || v.PInt? || v.PFloat?)
    ensures Normalize(v).v.s == Strip(Str(v))
    ensures ',' !in Normalize(v).v.s
    ensures ParseInt(Normalize(v).v.s).None?
  {
    NormalizeOfText(v);
    StripOfStripped(Str(v));
    StrippedFallback(Strip(Str(v)));
  }

  lemma StrippedFallback(s: string)
    requires Strip(s) == s
    requires NormalizeStripped(s).One? && NormalizeStripped(s).v.SStr?
    requires NormalizeStripped(s).v.s != "" && NormalizeStripped(s).v.s != "auto"
    ensures NormalizeStripped(s).v.s == s
    ensures ',' !in s
    ensures ParseInt(s).None?
  {
    FallbackIsNumberCase(s);
    if '.' in s || 'e' in Lower(s) {
      if IsDigitString(Unsigned(s)) {
        IntLiteralHasNoPointOrExponent(s);
        assert false;
      }
      assert !IsDigitString(Unsigned(Strip(s)));
    } else {
      assert NormalizeNumber(s) == SStr(s);
    }
  }

  /** A string result other than "" and "auto" comes from the number case. */
  lemma FallbackIsNumberCase(s: string)
    requires NormalizeStripped(s).One? && NormalizeStripped(s).v.SStr?
    requires NormalizeStripped(s).v.s != "" && NormalizeStripped(s).v.s != "auto"
    ensures ',' !in s
    ensures NormalizeStripped(s) == One(NormalizeNumber(s)) == One(SStr(s))
  {
    NormalizeStrippedStrings(s);
    var r := NormalizeStripped(s);
    assert s != "";
    assert Lower(s) != "none";
    assert Lower(s) != "auto";
    assert ',' !in s;
    assert r == One(NormalizeNumber(s));
  }

  // ---------- _compose_cfg ----------

  /** The prefix that marks a setting as a radiomics setting. */
  const Prefix: string := "radiomics_"

  predicate HasPrefix(k: string) {
    |k| >= |Prefix| && k[..|Prefix|] == Prefix
  }

  /** The parameter file's `radiomics` block with each key prefixed. */
  function Namespaced(rdef: map<string, PyVal>): (m: map<string, PyVal>)
    ensures forall k | k in rdef :: Prefix + k in m && m[Prefix + k] == rdef[k]
    ensures forall k | k in m :: HasPrefix(k) && k[|Prefix|..] in rdef
  {
    PrefixInjective();
    map k | k in rdef :: Prefix + k := rdef[k]
  }

  lemma PrefixInjective()
    ensures forall a: string, b: string {:trigger Prefix + a, Prefix + b} :: Prefix + a == Prefix + b ==> a == b
  {
    forall a: string, b: string | Prefix + a == Prefix + b
      ensures a == b
    {
      assert a == (Prefix + a)[|Prefix|..];
      assert b == (Prefix + b)[|Prefix|..];
    }
  }

  /** The parameter file's top-level keys that already carry the prefix. */
  function FileOverrides(file: map<string, PyVal>): (m: map<string, PyVal>)
    ensures forall k | k in m :: HasPrefix(k)
  {
    map k | k in file && HasPrefix(k) :: file[k]
  }

  /** `_compose_cfg`: the prefixed defaults, overlaid by the file's own
      prefixed keys, overlaid by the values read from the widgets. No key of
      any layer is dropped, and later layers win. */
  function Compose(rdef: map<string, PyVal>, file: map<string, PyVal>, ui: map<string, PyVal>): (cfg: map<string, PyVal>)
    ensures forall k | k in rdef :: Prefix + k in cfg
    ensures forall k | k in file && HasPrefix(k) :: k in cfg
    ensures forall k | k in ui :: k in cfg && cfg[k] == ui[k]
    ensures forall k | k in file && HasPrefix(k) && k !in ui :: cfg[k] == file[k]
    ensures forall k | k in rdef && Prefix + k !in file && Prefix + k !in ui :: cfg[Prefix + k] == rdef[k]
    ensures forall k | k in cfg :: k in ui || (k in file && HasPrefix(k)) || (HasPrefix(k) && k[|Prefix|..] in rdef)
  {
    Namespaced(rdef) + FileOverrides(file) + ui
  }

  /** The extension module's `_compose_cfg`, which after the prefix loop
      sets the destination and temporary folders once more. */
  function ComposeExt(rdef: map<string, PyVal>, file: map<string, PyVal>, ui: map<string, PyVal>): (cfg: map<string, PyVal>)
    ensures cfg == Compose(rdef, file, ui)
  {
    var base := Namespaced(rdef);
    var withDest :=
      if "destination_folder" in rdef then base[Prefix + "destination_folder" := rdef["destination_folder"]] else base;
    var withTmp :=
      if "temporary_files_path" in rdef then withDest[Prefix + "temporary_files_path" := rdef["temporary_files_path"]] else withDest;
    assert withTmp == base;
    withTmp + FileOverrides(file) + ui
  }
}
