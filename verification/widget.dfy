/** The widget-side helpers that hold logic of their own: the cell text of
    the result tables, the selection strings and extraction mode that
    `onCompute` reads off the panel, the dimension-to-category check-box
    synchronisation, and the case-insensitive combo-box selection. Widgets
    are reduced to their text and checked state. */
module Widgets {
  import opened Wrappers
  import opened Text
  import opened Literals
  import opened Values

  // ---------- table cells ----------

  const Ellipsis: char := '\U{2026}'

  /** `s.replace("\n", " ")`. */
  function ReplaceNewlines(s: string): (r: string)
    ensures |r| == |s|
    ensures '\n' !in r
    ensures forall i | 0 <= i < |s| && s[i] != '\n' :: r[i] == s[i]
    ensures forall i | 0 <= i < |s| && s[i] == '\n' :: r[i] == ' '
  {
    seq(|s|, i requires 0 <= i < |s| => if s[i] == '\n' then ' ' else s[i])
  }

  /** The text a cell starts from: empty for None, otherwise `str(v)` on
      one line with the surrounding whitespace removed. */
  function Cleaned(v: PyVal): (s: string)
    ensures v.PNone? ==> s == ""
    ensures !v.PNone? ==> s == Strip(ReplaceNewlines(Str(v)))
    ensures '\n' !in s
    ensures |s| > 0 ==> !IsSpace(s[0]) && !IsSpace(s[|s| - 1])
  {
    var t := ReplaceNewlines(if v.PNone? then "" else Str(v));
    StripAvoids(t, '\n');
    Strip(t)
  }

  /** Python's `s[:n]`, where a negative `n` counts from the end. */
  function PyPrefix(s: string, n: int): (r: string)
    ensures |r| <= |s| && r == s[..|r|]
    ensures n >= 0 ==> |r| == if n <= |s| then n else |s|
    ensures n < 0 ==> |r| == if |s| + n >= 0 then |s| + n else 0
  {
    if n >= 0 then (if n <= |s| then s[..n] else s)
    else if |s| + n >= 0 then s[..|s| + n]
    else ""
  }

  /** `_shorten_for_cell` exactly as written: a text longer than the bound
      keeps `max_len - 1` characters and gains an ellipsis. */
  function ShortenForCellAsWritten(v: PyVal, maxLen: int): (r: string)
    ensures |Cleaned(v)| <= maxLen ==> r == Cleaned(v)
    ensures |Cleaned(v)| > maxLen ==>
              |r| > 0 && r[|r| - 1] == Ellipsis && r[..|r| - 1] == PyPrefix(Cleaned(v), maxLen - 1)
  {
    var s := Cleaned(v);
    if |s| <= maxLen then s else PyPrefix(s, maxLen - 1) + [Ellipsis]
  }

  /** `_shorten_for_cell` with the bound it evidently intends: the result
      never exceeds `max_len` characters (none at all for a bound below
      one). A text that fits is kept; a longer one is cut to a prefix
      followed by the ellipsis, using the whole bound. */
  function ShortenForCell(v: PyVal, maxLen: int): (r: string)
    ensures |r| <= if maxLen < 0 then 0 else maxLen
    ensures |Cleaned(v)| <= maxLen ==> r == Cleaned(v)
    ensures |Cleaned(v)| > maxLen >= 1 ==>
              |r| == maxLen && r[..maxLen - 1] == Cleaned(v)[..maxLen - 1] && r[maxLen - 1] == Ellipsis
  {
    Shorten(Cleaned(v), maxLen)
  }

  /** The cut itself, on the cleaned text. */
  function Shorten(s: string, maxLen: int): (r: string)
    ensures |r| <= if maxLen < 0 then 0 else maxLen
    ensures |s| <= maxLen ==> r == s
    ensures |s| > maxLen >= 1 ==> |r| == maxLen && r[..maxLen - 1] == s[..maxLen - 1] && r[maxLen - 1] == Ellipsis
  {
    if |s| <= maxLen then s
    else if maxLen <= 0 then ""
    else s[..maxLen - 1] + [Ellipsis]
  }

  /** With a bound below one the code as written overshoots it: a zero
      bound turns `"ab"` into two characters, `"a…"`. */
  lemma ShortenForCellAsWrittenOvershoots()
    ensures ShortenForCellAsWritten(PStr("ab"), 0) == ['a', Ellipsis]
    ensures |ShortenForCellAsWritten(PStr("ab"), 0)| > 0
  {
    OvershootsOnTwo('a', 'b');
  }

  lemma OvershootsOnTwo(x: char, y: char)
    requires !IsSpace(x) && !IsSpace(y)
    ensures ShortenForCellAsWritten(PStr([x, y]), 0) == [x, Ellipsis]
  {
    var s := [x, y];
    assert ReplaceNewlines(s) == s;
    NoSpaceIsStripped(s);
    assert Cleaned(PStr(s)) == s;
    assert PyPrefix(s, -1) == [x];
  }

  /** For every bound the code is meant for (one or more), the corrected
      helper and the code as written give the same cell text. */
  lemma ShortenForCellAgrees(v: PyVal, maxLen: int)
    requires maxLen >= 1
    ensures ShortenForCell(v, maxLen) == ShortenForCellAsWritten(v, maxLen)
  {
  }

  /** Shortening a cell text again changes nothing. */
  lemma ShortenForCellIdempotent(v: PyVal, maxLen: int)
    ensures ShortenForCell(PStr(ShortenForCell(v, maxLen)), maxLen) == ShortenForCell(v, maxLen)
  {
    var r := ShortenForCell(v, maxLen);
    ShortenedIsClean(v, maxLen);
    CleanTextIsCleaned(r);
  }

  /** What the helper returns is on one line and has no surrounding
      whitespace. */
  lemma ShortenedIsClean(v: PyVal, maxLen: int)
    ensures '\n' !in ShortenForCell(v, maxLen)
    ensures var r := ShortenForCell(v, maxLen); |r| > 0 ==> !IsSpace(r[0]) && !IsSpace(r[|r| - 1])
  {
    ShortenKeepsClean(Cleaned(v), maxLen);
  }

  /** A one-line text without surrounding whitespace stays one when it is
      cut. */
  lemma ShortenKeepsClean(s: string, maxLen: int)
    requires '\n' !in s
    requires |s| > 0 ==> !IsSpace(s[0]) && !IsSpace(s[|s| - 1])
    ensures var r := Shorten(s, maxLen);
            '\n' !in r && (|r| > 0 ==> !IsSpace(r[0]) && !IsSpace(r[|r| - 1]))
  {
    if |s| > maxLen >= 1 {
      CutIsClean(s, maxLen);
    }
  }

  /** A one-line text without surrounding whitespace, cut and given the
      ellipsis, is still such a text. */
  lemma CutIsClean(s: string, maxLen: int)
    requires '\n' !in s
    requires |s| > 0 ==> !IsSpace(s[0]) && !IsSpace(s[|s| - 1])
    requires |s| > maxLen >= 1
    ensures var r := s[..maxLen - 1] + [Ellipsis];
            '\n' !in r && !IsSpace(r[0]) && !IsSpace(r[|r| - 1])
  {
    var r := s[..maxLen - 1] + [Ellipsis];
    assert forall i | 0 <= i < |r| - 1 :: r[i] == s[i];
    assert r[|r| - 1] == Ellipsis;
    if maxLen > 1 {
      assert r[0] == s[0];
    }
  }

  lemma CleanTextIsCleaned(r: string)
    requires '\n' !in r
    requires |r| > 0 ==> !IsSpace(r[0]) && !IsSpace(r[|r| - 1])
    ensures Cleaned(PStr(r)) == r
  {
    assert ReplaceNewlines(r) == r;
    if |r| > 0 {
      NoSpaceIsStripped(r);
    }
  }

  // ---------- selection strings ----------

  /** A check box: its text and whether it is checked. */
  datatype Box = Box(text: string, checked: bool)

  predicate NoneChecked(boxes: seq<Box>) {
    forall i | 0 <= i < |boxes| :: !boxes[i].checked
  }

  predicate AllChecked(boxes: seq<Box>) {
    forall i | 0 <= i < |boxes| :: boxes[i].checked
  }

  /** The labels of the checked boxes, in display order. */
  function Selected(boxes: seq<Box>): (r: seq<string>)
    ensures |r| <= |boxes|
    ensures |r| == 0 <==> NoneChecked(boxes)
    ensures |r| == |boxes| <==> AllChecked(boxes)
    ensures forall x | x in r :: exists i | 0 <= i < |boxes| :: boxes[i].checked && boxes[i].text == x
    ensures forall i | 0 <= i < |boxes| && boxes[i].checked :: boxes[i].text in r
  {
    if |boxes| == 0 then []
    else
      var rest := Selected(boxes[1..]);
      assert forall i | 1 <= i < |boxes| :: boxes[i] == boxes[1..][i - 1];
      if boxes[0].checked then [boxes[0].text] + rest else rest
  }

  /** The selection keeps display order: it distributes over
      concatenation. */
  lemma {:induction false} SelectedAppend(a: seq<Box>, b: seq<Box>)
    ensures Selected(a + b) == Selected(a) + Selected(b)
  {
    if |a| == 0 {
      assert a + b == b;
    } else {
      var ab := a + b;
      assert ab[0] == a[0];
      assert ab[1..] == a[1..] + b;
      SelectedAppend(a[1..], b);
    }
  }

  /** One box contributes its label exactly when it is checked. */
  lemma SelectedOne(box: Box)
    ensures Selected([box]) == if box.checked then [box.text] else []
  {
    assert [box][1..] == [];
  }

  /** The categories or dimensions argument: `"all"` when nothing or
      everything is checked, otherwise the checked labels joined by commas. */
  function SelectionString(boxes: seq<Box>): (r: string)
    ensures NoneChecked(boxes) || AllChecked(boxes) ==> r == "all"
  {
    var sel := Selected(boxes);
    if |sel| == 0 || (|boxes| > 0 && |sel| == |boxes|) then "all" else Join(sel, ",")
  }

  predicate CommaFreeLabels(boxes: seq<Box>) {
    forall i | 0 <= i < |boxes| :: ',' !in boxes[i].text
  }

  /** A partial selection is recovered by splitting the string at commas. */
  lemma SelectionStringSplit(boxes: seq<Box>)
    requires CommaFreeLabels(boxes)
    requires !NoneChecked(boxes) && !AllChecked(boxes)
    ensures Split(SelectionString(boxes), ',') == Selected(boxes)
  {
    var sel := Selected(boxes);
    forall k | 0 <= k < |sel|
      ensures ',' !in sel[k]
    {
      assert sel[k] in sel;
    }
    SplitJoin(sel, ',');
  }

  /** `"all"` means nothing checked, everything checked, or a single checked
      box that is itself labelled `all`. */
  lemma SelectionStringAll(boxes: seq<Box>)
    requires CommaFreeLabels(boxes)
    requires SelectionString(boxes) == "all"
    ensures NoneChecked(boxes) || AllChecked(boxes) || Selected(boxes) == ["all"]
  {
    if !NoneChecked(boxes) && !AllChecked(boxes) {
      SelectionStringSplit(boxes);
      SplitNoSep("all", ',');
    }
  }

  // ---------- extraction mode ----------

  const ModeKey := "radiomics_extraction_mode"
  const HandcraftedMode := "handcrafted_feature"
  const DeepMode := "deep_feature"

  /** The combo-box labels of the main module, and the default text the
      extension assumes when the key is missing. */
  const ModeHandLabel := "Handcrafted Radiomics"
  const ModeDeepLabel := "Deep Features"
  const ExtModeDefault := "handcrafted feature"

  /** The word whose presence selects the handcrafted mode. */
  const HandWord := "handcrafted"

  /** The canonical extraction mode of a combo-box text: handcrafted
      exactly when the stripped, lower-cased text contains the word. */
  function CanonicalMode(text: string): (m: string)
    ensures m == HandcraftedMode || m == DeepMode
    ensures m == HandcraftedMode <==> exists i: nat :: OccursAt(Lower(Strip(text)), HandWord, i)
  {
    var l := Lower(Strip(text));
    ContainsAt(l, HandWord);
    assert |DeepMode| != |HandcraftedMode|;
    if Contains(l, HandWord) then
      var w: nat :| OccursAt(l, HandWord, w);
      assert OccursAt(Lower(Strip(text)), HandWord, w);
      HandcraftedMode
    else DeepMode
  }

  /** The main module reads the mode through `str()`, so any value works. */
  function ModeOf(params: map<string, PyVal>): (m: string)
    ensures ModeKey !in params ==> m == HandcraftedMode
    ensures ModeKey in params ==> m == CanonicalMode(Str(params[ModeKey]))
    ensures m == HandcraftedMode || m == DeepMode
  {
    if ModeKey !in params then PanelHandLabel(); CanonicalMode(ModeHandLabel)
    else CanonicalMode(Str(params[ModeKey]))
  }

  /** The extension strips the value directly, which raises for anything
      but a string. */
  function ExtModeOf(params: map<string, PyVal>): (m: Option<string>)
    ensures m.None? <==> ModeKey in params && !params[ModeKey].PStr?
    ensures ModeKey !in params ==> m == Some(HandcraftedMode)
    ensures ModeKey in params && params[ModeKey].PStr? ==> m == Some(CanonicalMode(params[ModeKey].s))
  {
    if ModeKey !in params then ExtHandLabel(); Some(CanonicalMode(ExtModeDefault))
    else if params[ModeKey].PStr? then Some(CanonicalMode(params[ModeKey].s))
    else None
  }

  lemma ContainsAtStart(s: string, sub: string)
    requires |sub| <= |s| && s[..|sub|] == sub
    ensures Contains(s, sub)
  {
  }

  lemma {:induction false} ContainsNeedsFirst(s: string, sub: string)
    requires |sub| > 0 && sub[0] !in s
    ensures !Contains(s, sub)
  {
    if |sub| <= |s| {
      assert s[..|sub|][0] == s[0];
      ContainsNeedsFirst(s[1..], sub);
    }
  }

  /** Both handcrafted labels, the panel's and the extension's default,
      canonicalise to the handcrafted mode. */
  lemma HandLabelModes()
    ensures CanonicalMode(ModeHandLabel) == HandcraftedMode
    ensures CanonicalMode(ExtModeDefault) == HandcraftedMode
  {
    PanelHandLabel();
    ExtHandLabel();
  }

  lemma PanelHandLabel()
    ensures CanonicalMode(ModeHandLabel) == HandcraftedMode
  {
    var t := ModeHandLabel;
    assert LowerChar(t[0]) == 'h';
    assert forall i | 1 <= i < 11 :: LowerChar(t[i]) == t[i] == "handcrafted"[i];
    HandcraftedPrefix(t);
  }

  lemma ExtHandLabel()
    ensures CanonicalMode(ExtModeDefault) == HandcraftedMode
  {
    var t := ExtModeDefault;
    assert forall i | 0 <= i < 11 :: LowerChar(t[i]) == t[i] == "handcrafted"[i];
    HandcraftedPrefix(t);
  }

  /** The panel's deep-feature label canonicalises to the deep mode. */
  lemma DeepLabelMode()
    ensures CanonicalMode(ModeDeepLabel) == DeepMode
  {
    NoH(ModeDeepLabel);
  }

  /** Canonicalising a canonical mode leaves it as it is. */
  lemma CanonicalModeIdempotent(text: string)
    ensures CanonicalMode(CanonicalMode(text)) == CanonicalMode(text)
  {
    HandModeIsCanonical();
    DeepModeIsCanonical();
  }

  lemma HandModeIsCanonical()
    ensures CanonicalMode(HandcraftedMode) == HandcraftedMode
  {
    HandcraftedPrefix(HandcraftedMode);
  }

  lemma DeepModeIsCanonical()
    ensures CanonicalMode(DeepMode) == DeepMode
  {
    NoH(DeepMode);
  }

  lemma HandcraftedPrefix(text: string)
    requires |text| >= 11 && !IsSpace(text[0]) && !IsSpace(text[|text| - 1])
    requires forall i | 0 <= i < 11 :: LowerChar(text[i]) == "handcrafted"[i]
    ensures CanonicalMode(text) == HandcraftedMode
  {
    NoSpaceIsStripped(text);
    var l := Lower(text);
    assert l[..11] == "handcrafted";
    ContainsAtStart(l, "handcrafted");
  }

  lemma NoH(text: string)
    requires |text| > 0 && !IsSpace(text[0]) && !IsSpace(text[|text| - 1])
    requires forall i | 0 <= i < |text| :: text[i] != 'h' && text[i] != 'H'
    ensures CanonicalMode(text) == DeepMode
  {
    NoSpaceIsStripped(text);
    var l := Lower(text);
    assert forall i | 0 <= i < |l| :: l[i] != 'h';
    ContainsNeedsFirst(l, "handcrafted");
  }

  /** Case does not matter to the mode. */
  lemma CanonicalModeIgnoresCase(text: string)
    ensures CanonicalMode(Lower(text)) == CanonicalMode(text)
  {
    StripLower(text);
    LowerIdempotent(Strip(text));
  }

  /** Wherever the extension does not raise, both modules choose the same
      mode. */
  lemma ModeVariantsAgree(params: map<string, PyVal>)
    requires ExtModeOf(params).Some?
    ensures ExtModeOf(params) == Some(ModeOf(params))
  {
  }

  // ---------- dimension / category synchronisation ----------

  /** The name a box is known by: its text stripped and lower-cased. */
  function Name(b: Box): string {
    Lower(Strip(b.text))
  }

  /** The names of the checked boxes, in display order. */
  function CheckedNames(boxes: seq<Box>): (r: seq<string>)
    ensures |r| == 0 <==> NoneChecked(boxes)
    ensures forall x | x in r :: exists i | 0 <= i < |boxes| :: boxes[i].checked && Name(boxes[i]) == x
    ensures forall i | 0 <= i < |boxes| && boxes[i].checked :: Name(boxes[i]) in r
  {
    if |boxes| == 0 then []
    else
      var rest := CheckedNames(boxes[1..]);
      assert forall i | 1 <= i < |boxes| :: boxes[i] == boxes[1..][i - 1];
      if boxes[0].checked then [Name(boxes[0])] + rest else rest
  }

  /** `2.5d` is an alias of the `2_5d` key. */
  function DimKey(d: string): string {
    if d == "2_5d" || d == "2.5d" then "2_5d" else d
  }

  function CatsOf(dimToCats: map<string, seq<string>>, d: string): seq<string> {
    var k := DimKey(d);
    if k in dimToCats then dimToCats[k] else []
  }

  /** Whether dimension `d` offers the lower-cased category `x`. */
  predicate Offers(dimToCats: map<string, seq<string>>, d: string, x: string) {
    exists c | c in CatsOf(dimToCats, d) :: Lower(c) == x
  }

  /** The lower-cased categories of the checked dimensions, accumulated one
      dimension at a time. */
  function Wanted(dims: seq<string>, dimToCats: map<string, seq<string>>): set<string> {
    if |dims| == 0 then {}
    else
      Wanted(dims[..|dims| - 1], dimToCats)
      + (set c | c in CatsOf(dimToCats, dims[|dims| - 1]) :: Lower(c))
  }

  /** A category is wanted exactly when some checked dimension offers it,
      whatever the order the dimensions are checked in. */
  lemma {:induction false} WantedSpec(dims: seq<string>, dimToCats: map<string, seq<string>>, x: string)
    ensures x in Wanted(dims, dimToCats) <==> exists i | 0 <= i < |dims| :: Offers(dimToCats, dims[i], x)
  {
    if |dims| > 0 {
      var init := dims[..|dims| - 1];
      WantedSpec(init, dimToCats, x);
      assert forall i | 0 <= i < |init| :: init[i] == dims[i];
      var last := CatsOf(dimToCats, dims[|dims| - 1]);
      var added := set c | c in last :: Lower(c);
      if Offers(dimToCats, dims[|dims| - 1], x) {
        var c :| c in last && Lower(c) == x;
        assert Lower(c) in added;
      }
    }
  }

  /** Checking `2.5d` or `2_5d` wants the same categories. */
  lemma AliasWantsAlike(dimToCats: map<string, seq<string>>)
    ensures Wanted(["2.5d"], dimToCats) == Wanted(["2_5d"], dimToCats)
  {
    assert ["2.5d"][..0] == [] && ["2_5d"][..0] == [];
  }

  /** Whether box `i` is the one the name-to-box dictionary keeps for its
      name: the dictionary is built in display order, so the last box with
      a name wins. */
  predicate Owns(cats: seq<Box>, i: int)
    requires 0 <= i < |cats|
  {
    forall j | i < j < |cats| :: Name(cats[j]) != Name(cats[i])
  }

  predicate SameLabels(a: seq<Box>, b: seq<Box>) {
    |a| == |b| && forall i | 0 <= i < |a| :: a[i].text == b[i].text
  }

  function SetAll(boxes: seq<Box>, on: bool): (r: seq<Box>)
    ensures SameLabels(boxes, r)
    ensures forall i | 0 <= i < |r| :: r[i].checked == on
  {
    seq(|boxes|, i requires 0 <= i < |boxes| => boxes[i].(checked := on))
  }

  function Retick(cats: seq<Box>, wanted: set<string>): (r: seq<Box>)
    ensures SameLabels(cats, r)
    ensures forall i | 0 <= i < |r| && !Owns(cats, i) :: r[i] == cats[i]
  {
    seq(|cats|, i requires 0 <= i < |cats| =>
      if Owns(cats, i) then cats[i].(checked := Name(cats[i]) in wanted) else cats[i])
  }

  /** The dimension and category check boxes of the panel. */
  datatype Panel = Panel(dims: seq<Box>, cats: seq<Box>)

  /** `_on_dimension_changed`. `ignoring` is the main module's re-entrancy
      flag, raised while the panel's own select-all and clear-all buttons
      work; the extension has no such flag and always passes false. */
  function DimensionSync(p: Panel, dimToCats: map<string, seq<string>>, ignoring: bool): (q: Panel)
    ensures SameLabels(p.dims, q.dims) && SameLabels(p.cats, q.cats)
    ensures ignoring ==> q == p
    ensures !ignoring && "all" in CheckedNames(p.dims) ==> AllChecked(q.dims) && AllChecked(q.cats)
    ensures !ignoring && NoneChecked(p.dims) ==> q.dims == p.dims && NoneChecked(q.cats)
    ensures !ignoring && "all" !in CheckedNames(p.dims) ==> q.dims == p.dims
    ensures !ignoring && "all" !in CheckedNames(p.dims) && !NoneChecked(p.dims) ==>
              (forall i | 0 <= i < |p.cats| && Owns(p.cats, i) ::
                 q.cats[i].checked <==> exists d | d in CheckedNames(p.dims) :: Offers(dimToCats, d, Name(p.cats[i])))
              && forall i | 0 <= i < |p.cats| && !Owns(p.cats, i) :: q.cats[i] == p.cats[i]
  {
    if ignoring then p
    else
      var checked := CheckedNames(p.dims);
      if "all" in checked then Panel(SetAll(p.dims, true), SetAll(p.cats, true))
      else if |checked| == 0 then Panel(p.dims, SetAll(p.cats, false))
      else
        var wanted := Wanted(checked, dimToCats);
        assert forall i | 0 <= i < |p.cats| :: Name(p.cats[i]) in wanted <==>
                 exists d | d in checked :: Offers(dimToCats, d, Name(p.cats[i])) by {
          forall i | 0 <= i < |p.cats|
            ensures Name(p.cats[i]) in wanted <==> exists d | d in checked :: Offers(dimToCats, d, Name(p.cats[i]))
          {
            WantedSpec(checked, dimToCats, Name(p.cats[i]));
          }
        }
        Panel(p.dims, Retick(p.cats, wanted))
  }

  lemma SameLabelsNames(a: seq<Box>, b: seq<Box>)
    requires SameLabels(a, b)
    ensures forall i | 0 <= i < |a| :: Name(a[i]) == Name(b[i])
    ensures forall i | 0 <= i < |a| :: Owns(a, i) == Owns(b, i)
  {
  }

  lemma SetAllTwice(boxes: seq<Box>, on: bool)
    ensures SetAll(SetAll(boxes, on), on) == SetAll(boxes, on)
  {
  }

  lemma RetickTwice(cats: seq<Box>, wanted: set<string>)
    ensures Retick(Retick(cats, wanted), wanted) == Retick(cats, wanted)
  {
    var r := Retick(cats, wanted);
    SameLabelsNames(cats, r);
    assert forall i | 0 <= i < |r| :: Retick(r, wanted)[i] == r[i];
  }

  lemma AllStaysChecked(dims: seq<Box>)
    requires "all" in CheckedNames(dims)
    ensures "all" in CheckedNames(SetAll(dims, true))
  {
    var i :| 0 <= i < |dims| && dims[i].checked && Name(dims[i]) == "all";
    var d := SetAll(dims, true);
    assert Name(d[i]) == Name(dims[i]);
  }

  /** Running the synchronisation on its own outcome changes nothing, so
      the nested runs that its own check-box updates set off reach the
      state of a single run. */
  lemma DimensionSyncIdempotent(p: Panel, dimToCats: map<string, seq<string>>)
    ensures DimensionSync(DimensionSync(p, dimToCats, false), dimToCats, false) == DimensionSync(p, dimToCats, false)
  {
    var checked := CheckedNames(p.dims);
    if "all" in checked {
      AllStaysChecked(p.dims);
      SetAllTwice(p.dims, true);
      SetAllTwice(p.cats, true);
    } else if |checked| == 0 {
      SetAllTwice(p.cats, false);
    } else {
      RetickTwice(p.cats, Wanted(checked, dimToCats));
    }
  }

  /** Once "all" is checked, both selection strings read `"all"`. */
  lemma AllDimensionSelectsAll(p: Panel, dimToCats: map<string, seq<string>>)
    requires "all" in CheckedNames(p.dims)
    ensures SelectionString(DimensionSync(p, dimToCats, false).dims) == "all"
    ensures SelectionString(DimensionSync(p, dimToCats, false).cats) == "all"
  {
  }

  // ---------- combo boxes ----------

  /** `_set_combo_safe`: the index of the first item equal to `str(value)`
      ignoring case; the current index stays when the value is None or no
      item matches. */
  method SetComboSafe(items: seq<string>, value: PyVal, current: int) returns (index: int)
    ensures value.PNone? ==> index == current
    ensures !value.PNone? && (exists i | 0 <= i < |items| :: Lower(items[i]) == Lower(Str(value))) ==>
              0 <= index < |items| && Lower(items[index]) == Lower(Str(value))
              && forall j | 0 <= j < index :: Lower(items[j]) != Lower(Str(value))
    ensures (forall i | 0 <= i < |items| :: Lower(items[i]) != Lower(Str(value))) ==> index == current
  {
    index := current;
    if value.PNone? {
      return;
    }
    var key := Lower(Str(value));
    var i := 0;
    while i < |items|
      invariant 0 <= i <= |items|
      invariant forall j | 0 <= j < i :: Lower(items[j]) != key
    {
      if Lower(items[i]) == key {
        index := i;
        return;
      }
      i := i + 1;
    }
  }
}
