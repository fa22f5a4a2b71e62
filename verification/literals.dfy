/** Python's numeric conversions on text: `int(s)`, `float(s)`, `str(n)` and
    `s.isdigit()`. Floats are never computed with: a float is carried by the
    text it came from. */
module Literals {
  import opened Wrappers
  import opened Text

  /** A Python float. `Native` is a float that already existed as a value
      (from a parameter file or a spin box), carried by its `str()`;
      `Parsed` is `float(literal)` for a literal the parser accepted. */
  datatype Float = Native(repr: string) | Parsed(literal: string)

  predicate IsDigit(c: char) {
    '0' <= c <= '9'
  }

  predicate AllDigits(s: string) {
    forall i | 0 <= i < |s| :: IsDigit(s[i])
  }

  /** `s.isdigit()` (ASCII digits). */
  predicate IsDigitString(s: string) {
    |s| > 0 && AllDigits(s)
  }

  /** The value of a decimal digit string, most significant digit first. */
  function DigitsValue(s: string): nat
    requires AllDigits(s)
  {
    if |s| == 0 then 0 else DigitsValue(s[..|s| - 1]) * 10 + (s[|s| - 1] as int - '0' as int)
  }

  /** `s` without one leading `+` or `-`. */
  function Unsigned(s: string): string {
    if |s| > 0 && (s[0] == '+' || s[0] == '-') then s[1..] else s
  }

  /** `int(s)` for a `str` argument: `None` when Python raises ValueError. */
  function ParseInt(s: string): Option<int>
  {
    var t := Strip(s);
    var body := Unsigned(t);
    if !IsDigitString(body) then None
    else if t[0] == '-' then Some(-(DigitsValue(body) as int))
    else Some(DigitsValue(body))
  }

  /** Index of the first `c` in `s`, or `|s|` when there is none. */
  function IndexOf(s: string, c: char): (k: nat)
    ensures k <= |s|
    ensures k < |s| ==> s[k] == c
    ensures c !in s[..k]
  {
    if |s| == 0 then 0
    else if s[0] == c then 0
    else
      var k := IndexOf(s[1..], c);
      assert s[..k + 1] == [s[0]] + s[1..][..k];
      k + 1
  }

  /** Digits with at most one decimal point, and at least one digit. */
  predicate IsMantissa(m: string) {
    var d := IndexOf(m, '.');
    if d == |m| then IsDigitString(m)
    else AllDigits(m[..d]) && AllDigits(m[d + 1..]) && |m| >= 2
  }

  /** The digits after an exponent marker, with an optional sign. */
  predicate IsExponentDigits(e: string) {
    IsDigitString(Unsigned(e))
  }

  /** An unsigned decimal literal: mantissa, then optionally `e`/`E` and an
      exponent. */
  predicate IsDecimalLiteral(u: string) {
    var k := IndexOf(Lower(u), 'e');
    IsMantissa(u[..k]) && (k == |u| || IsExponentDigits(u[k + 1..]))
  }

  /** The text `float()` accepts once stripped: an optional sign, then a
      decimal literal or one of the words inf, infinity, nan in any case. */
  predicate IsFloatLiteral(t: string) {
    var u := Unsigned(t);
    Lower(u) == "inf" || Lower(u) == "infinity" || Lower(u) == "nan" || IsDecimalLiteral(u)
  }

  /** `float(s)` for a `str` argument: `None` when Python raises ValueError. */
  function ParseFloat(s: string): (r: Option<Float>)
    ensures r.Some? <==> IsFloatLiteral(Strip(s))
    ensures r.Some? ==> r.value == Parsed(Strip(s))
  {
    var t := Strip(s);
    if IsFloatLiteral(t) then Some(Parsed(t)) else None
  }

  function DigitChar(d: nat): char
    requires d < 10
  {
    ('0' as int + d) as char
  }

  /** `str(n)` for a non-negative int. */
  function NatToString(n: nat): (s: string)
    ensures IsDigitString(s)
  {
    if n < 10 then [DigitChar(n)] else NatToString(n / 10) + [DigitChar(n % 10)]
  }

  /** `str(i)` for an int. */
  function IntToString(i: int): (s: string)
    ensures |s| > 0
  {
    if i < 0 then "-" + NatToString(-i) else NatToString(i)
  }

  // ---------- lemmas ----------

  lemma {:induction false} DigitsValueOfNatToString(n: nat)
    ensures DigitsValue(NatToString(n)) == n
  {
    if n >= 10 {
      DigitsValueOfNatToString(n / 10);
      var s := NatToString(n);
      assert s[..|s| - 1] == NatToString(n / 10);
    }
  }

  lemma NoSpaceIsStripped(s: string)
    requires |s| > 0 && !IsSpace(s[0]) && !IsSpace(s[|s| - 1])
    ensures Strip(s) == s
  {
    assert TrimLeft(s) == s;
    assert TrimRight(s) == s;
  }

  /** `int(str(i)) == i` for every int: printing an int and reading it back
      loses nothing. */
  lemma {:induction false} ParseIntOfIntToString(i: int)
    ensures ParseInt(IntToString(i)) == Some(i)
  {
    var s := IntToString(i);
    var digits := NatToString(if i < 0 then -i else i);
    DigitsValueOfNatToString(if i < 0 then -i else i);
    assert IsDigit(digits[0]) && IsDigit(digits[|digits| - 1]);
    NoSpaceIsStripped(s);
    if i < 0 {
      assert s[1..] == digits;
    }
    assert Unsigned(s) == digits;
  }

  /** A text Python's `int()` accepts has neither a decimal point nor an
      exponent marker, so the normaliser never tries `int()` on text that it
      would first hand to `float()`, and vice versa. */
  lemma IntLiteralHasNoPointOrExponent(t: string)
    requires IsDigitString(Unsigned(t))
    ensures '.' !in t && 'e' !in Lower(t)
  {
    var u := Unsigned(t);
    assert forall i | 0 <= i < |u| :: IsDigit(u[i]);
    if |t| > 0 && (t[0] == '+' || t[0] == '-') {
      assert forall i | 1 <= i < |t| :: t[i] == u[i - 1];
    }
    assert forall i | 0 <= i < |t| :: t[i] != '.' && LowerChar(t[i]) != 'e';
  }

  /** Every literal `int()` accepts is also accepted by `float()`. */
  lemma IntLiteralIsFloatLiteral(t: string)
    requires IsDigitString(Unsigned(t))
    ensures IsFloatLiteral(t)
  {
    var u := Unsigned(t);
    assert forall i | 0 <= i < |u| :: LowerChar(u[i]) == u[i];
    assert Lower(u) == u;
    assert IndexOf(u, 'e') == |u|;
    assert IndexOf(u, '.') == |u|;
    assert u[..|u|] == u;
  }
}
