/** `PySERALogic._wait_for_readable_file` and
    `load_features_as_feature_value_rows`: the bounded wait for the output
    file, and the interpretation of its already-split rows as (feature,
    value) pairs in one of three layouts. The file system is an oracle: the
    outcome of each attempt is a parameter, and so are the rows the CSV
    reader yields. */
module CsvRows {
  import opened Wrappers
  import opened Text
  import opened Literals

  // ---------- waiting for the file ----------

  /** What one attempt observed: the file exists, is not empty and opens;
      it is missing or empty; or checking it raised `error`. */
  datatype Attempt = Ready | Pending | Failed(error: string)

  /** How the wait ended: the file is readable; it never was and nothing
      raised; or the last error observed is raised again. */
  datatype Wait = Readable | NotReady | Raised(error: string)

  /** The bounded retry loop. `probe(i)` is the outcome of attempt `i`.
      At most `retries` attempts are made; the wait succeeds at the first
      ready attempt; otherwise it raises the last error it ever observed,
      and reports not-ready only when no attempt raised. */
  method WaitForReadableFile(probe: nat -> Attempt, retries: int) returns (w: Wait, attempts: nat)
    ensures attempts <= if retries < 0 then 0 else retries
    ensures forall i | 0 <= i < attempts - 1 :: probe(i) != Ready
    ensures w.Readable? <==> attempts > 0 && probe(attempts - 1) == Ready
    ensures !w.Readable? ==> attempts == (if retries < 0 then 0 else retries) && forall i | 0 <= i < attempts :: probe(i) != Ready
    ensures w.NotReady? ==> forall i | 0 <= i < attempts :: probe(i) == Pending
    ensures w.Raised? ==> exists k | 0 <= k < attempts ::
                            (probe(k) == Failed(w.error) && forall i | k < i < attempts :: probe(i) == Pending)
  {
    var lastError: Option<string> := None;
    var lastAt: nat := 0;
    attempts := 0;
    while attempts < retries
      invariant attempts <= if retries < 0 then 0 else retries
      invariant forall i | 0 <= i < attempts :: probe(i) != Ready
      invariant lastError.None? ==> forall i | 0 <= i < attempts :: probe(i) == Pending
      invariant lastError.Some? ==> lastAt < attempts && probe(lastAt) == Failed(lastError.value)
                                    && forall i | lastAt < i < attempts :: probe(i) == Pending
    {
      match probe(attempts) {
        case Ready =>
          w := Readable;
          attempts := attempts + 1;
          return;
        case Failed(e) =>
          lastError := Some(e);
          lastAt := attempts;
        case Pending =>
      }
      attempts := attempts + 1;
    }
    match lastError
    case Some(e) => w := Raised(e);
    case None => w := NotReady;
  }

  // ---------- interpreting the rows ----------

  /** The three layouts, and a file with no rows at all. */
  datatype Layout = NoRows | Long | Wide | Loose

  predicate IsNameLabel(cell: string) {
    var c := Lower(Strip(cell));
    c == "feature" || c == "name"
  }

  predicate IsValueLabel(cell: string) {
    var c := Lower(Strip(cell));
    c == "value" || c == "val"
  }

  /** A header whose first two cells label names and values. */
  predicate IsLongHeader(header: seq<string>) {
    |header| >= 2 && IsNameLabel(header[0]) && IsValueLabel(header[1])
  }

  /** Long layout: a feature/value header. Wide layout: otherwise, a second
      row as long as a header of at least two cells. Anything else is read
      loosely. */
  function Classify(rows: seq<seq<string>>): (l: Layout)
    ensures l == NoRows <==> |rows| == 0
    ensures l == Long <==> |rows| > 0 && IsLongHeader(rows[0])
    ensures l == Wide <==> |rows| >= 2 && !IsLongHeader(rows[0]) && |rows[1]| == |rows[0]| >= 2
  {
    if |rows| == 0 then NoRows
    else
      var header := rows[0];
      if IsLongHeader(header) then Long
      else if |rows| >= 2 && |rows[1]| == |header| && |header| >= 2 then Wide
      else Loose
  }

  /** Long layout: the first two cells of each later row that has two, and
      of no other row. */
  function LongPairs(body: seq<seq<string>>): (out: seq<(string, string)>)
    ensures |out| <= |body|
    ensures |body| > 0 && |body[0]| >= 2 ==> |out| > 0 && out[0] == (body[0][0], body[0][1])
  {
    if |body| == 0 then []
    else (if |body[0]| >= 2 then [(body[0][0], body[0][1])] else []) + LongPairs(body[1..])
  }

  /** Wide layout: each header cell with the cell below it. */
  function WidePairs(header: seq<string>, values: seq<string>): (out: seq<(string, string)>)
    requires |values| == |header|
    ensures |out| == |header|
    ensures forall i | 0 <= i < |out| :: out[i] == (header[i], values[i])
  {
    if |header| == 0 then [] else [(header[0], values[0])] + WidePairs(header[1..], values[1..])
  }

  /** Loose reading: each non-empty later row, re-joined with commas, as a
      name with an empty value; empty rows give nothing. */
  function LoosePairs(body: seq<seq<string>>): (out: seq<(string, string)>)
    ensures |out| <= |body|
    ensures |body| > 0 && |body[0]| > 0 ==> |out| > 0 && out[0] == (Join(body[0], ","), "")
  {
    if |body| == 0 then []
    else (if |body[0]| > 0 then [(Join(body[0], ","), "")] else []) + LoosePairs(body[1..])
  }

  /** The (feature, value) pairs the rows of the file give: in the long
      layout, the first two cells of exactly the later rows that have two;
      in the wide layout, each header cell with the cell below it; loosely,
      exactly the non-empty later rows re-joined with an empty value. */
  function CsvFeaturePairs(rows: seq<seq<string>>): (out: seq<(string, string)>)
    ensures |rows| == 0 ==> out == []
    ensures Classify(rows) == Long ==>
              (forall p | p in out :: exists i | 1 <= i < |rows| :: |rows[i]| >= 2 && p == (rows[i][0], rows[i][1]))
              && forall i | 1 <= i < |rows| && |rows[i]| >= 2 :: (rows[i][0], rows[i][1]) in out
    ensures Classify(rows) == Wide ==>
              |out| == |rows[0]| && forall i | 0 <= i < |out| :: out[i] == (rows[0][i], rows[1][i])
    ensures Classify(rows) == Loose ==>
              (forall p | p in out :: exists i | 1 <= i < |rows| :: |rows[i]| > 0 && p == (Join(rows[i], ","), ""))
              && forall i | 1 <= i < |rows| && |rows[i]| > 0 :: (Join(rows[i], ","), "") in out
    ensures Classify(rows) != Wide ==> |out| < |rows| || |rows| == 0
    ensures Classify(rows) == Long ==> out == LongPairs(rows[1..])
    ensures Classify(rows) == Loose ==> out == LoosePairs(rows[1..])
  {
    match Classify(rows)
    case NoRows => []
    case Long =>
      assert forall i | 1 <= i < |rows| :: rows[i] == rows[1..][i - 1];
      LongPairsContent(rows[1..]);
      LongPairs(rows[1..])
    case Wide => WidePairs(rows[0], rows[1])
    case Loose =>
      assert forall i | 1 <= i < |rows| :: rows[i] == rows[1..][i - 1];
      LoosePairsContent(rows[1..]);
      LoosePairs(rows[1..])
  }

  /** `load_features_as_feature_value_rows`: wait, then read. The wait's
      raised error propagates, and a file that never became ready gives no
      rows. */
  method LoadFeaturePairs(probe: nat -> Attempt, retries: int, rows: seq<seq<string>>)
    returns (r: Result<seq<(string, string)>, string>)
    ensures r.Ok? && r.value != [] ==> exists i | 0 <= i < retries :: probe(i) == Ready
    ensures (forall i | 0 <= i < retries :: probe(i) == Pending) ==> r == Ok([])
    ensures (exists i | 0 <= i < retries :: probe(i) == Ready) ==> r == Ok(CsvFeaturePairs(rows))
    ensures r.Err? <==> (forall i | 0 <= i < retries :: probe(i) != Ready)
                        && exists i | 0 <= i < retries :: probe(i).Failed?
    ensures r.Err? ==> exists k | 0 <= k < retries ::
                         probe(k) == Failed(r.error) && forall i | k < i < retries :: probe(i) == Pending
  {
    var w, attempts := WaitForReadableFile(probe, retries);
    match w
    case Raised(e) => r := Err(e);
    case NotReady => r := Ok([]);
    case Readable => r := Ok(CsvFeaturePairs(rows));
  }

  // ---------- properties ----------

  /** Reading loosely takes the first row, then the rest. */
  lemma LoosePairsCons(body: seq<seq<string>>)
    requires |body| > 0
    ensures LoosePairs(body) == (if |body[0]| > 0 then [(Join(body[0], ","), "")] else []) + LoosePairs(body[1..])
  {
  }

  /** Reading loosely keeps the order of the rows: it distributes over
      concatenation. */
  lemma {:induction false} LoosePairsAppend(a: seq<seq<string>>, b: seq<seq<string>>)
    ensures LoosePairs(a + b) == LoosePairs(a) + LoosePairs(b)
  {
    if |a| == 0 {
      assert a + b == b;
    } else {
      var h := if |a[0]| > 0 then [(Join(a[0], ","), "")] else [];
      var ab := a + b;
      assert ab[0] == a[0];
      assert ab[1..] == a[1..] + b;
      LoosePairsCons(ab);
      LoosePairsCons(a);
      LoosePairsAppend(a[1..], b);
      calc {
        LoosePairs(ab);
        h + LoosePairs(a[1..] + b);
        h + (LoosePairs(a[1..]) + LoosePairs(b));
        (h + LoosePairs(a[1..])) + LoosePairs(b);
        LoosePairs(a) + LoosePairs(b);
      }
    }
  }


  /** One loosely read row: its joined cells with an empty value, or nothing
      when it is empty. */
  lemma LoosePairsOne(row: seq<string>)
    ensures LoosePairs([row]) == if |row| > 0 then [(Join(row, ","), "")] else []
  {
    LoosePairsCons([row]);
    assert [row][1..] == [];
  }

  /** The long layout takes the first row, then the rest. */
  lemma LongPairsCons(body: seq<seq<string>>)
    requires |body| > 0
    ensures LongPairs(body) == (if |body[0]| >= 2 then [(body[0][0], body[0][1])] else []) + LongPairs(body[1..])
  {
  }

  /** The long layout keeps the order of the rows: it distributes over
      concatenation. */
  lemma {:induction false} LongPairsAppend(a: seq<seq<string>>, b: seq<seq<string>>)
    ensures LongPairs(a + b) == LongPairs(a) + LongPairs(b)
  {
    if |a| == 0 {
      assert a + b == b;
    } else {
      var h := if |a[0]| >= 2 then [(a[0][0], a[0][1])] else [];
      var ab := a + b;
      assert ab[0] == a[0];
      assert ab[1..] == a[1..] + b;
      LongPairsCons(ab);
      LongPairsCons(a);
      LongPairsAppend(a[1..], b);
      calc {
        LongPairs(ab);
        h + LongPairs(a[1..] + b);
        h + (LongPairs(a[1..]) + LongPairs(b));
        (h + LongPairs(a[1..])) + LongPairs(b);
        LongPairs(a) + LongPairs(b);
      }
    }
  }


  /** One row in the long layout: its first two cells, or nothing when it
      has fewer. */
  lemma LongPairsOne(row: seq<string>)
    ensures LongPairs([row]) == if |row| >= 2 then [(row[0], row[1])] else []
  {
    LongPairsCons([row]);
    assert [row][1..] == [];
  }

  /** The long layout gives the first two cells of exactly the rows that
      have two. */
  lemma {:induction false} LongPairsContent(body: seq<seq<string>>)
    ensures forall p | p in LongPairs(body) :: exists r | r in body :: |r| >= 2 && p == (r[0], r[1])
    ensures forall r | r in body && |r| >= 2 :: (r[0], r[1]) in LongPairs(body)
  {
    if |body| > 0 {
      LongPairsCons(body);
      LongPairsContent(body[1..]);
      assert forall r | r in body[1..] :: r in body;
      assert forall r | r in body && r != body[0] :: r in body[1..];
    }
  }

  /** Reading loosely gives the joined cells of exactly the non-empty rows. */
  lemma {:induction false} LoosePairsContent(body: seq<seq<string>>)
    ensures forall p | p in LoosePairs(body) :: exists r | r in body :: |r| > 0 && p == (Join(r, ","), "")
    ensures forall r | r in body && |r| > 0 :: (Join(r, ","), "") in LoosePairs(body)
  {
    if |body| > 0 {
      LoosePairsCons(body);
      LoosePairsContent(body[1..]);
      assert forall r | r in body[1..] :: r in body;
      assert forall r | r in body && r != body[0] :: r in body[1..];
    }
  }

  /** A loosely read row whose cells hold no comma is recovered by
      splitting its name at the commas. */
  lemma {:induction false} LoosePairsSplit(body: seq<seq<string>>, i: nat)
    requires forall r, c | r in body && c in r :: ',' !in c
    requires i < |LoosePairs(body)|
    ensures exists r | r in body :: |r| > 0 && Split(LoosePairs(body)[i].0, ',') == r
  {
    LoosePairsCons(body);
    var rest := LoosePairs(body[1..]);
    assert forall r | r in body[1..] :: r in body;
    if |body[0]| > 0 {
      if i == 0 {
        assert body[0] in body;
        forall k | 0 <= k < |body[0]|
          ensures ',' !in body[0][k]
        {
          assert body[0][k] in body[0];
        }
        SplitJoin(body[0], ',');
      } else {
        assert LoosePairs(body)[i] == rest[i - 1];
        LoosePairsSplit(body[1..], i - 1);
      }
    } else {
      assert LoosePairs(body) == rest;
      LoosePairsSplit(body[1..], i);
    }
  }

  /** The long layout keeps every later row with two cells, in order. */
  lemma {:induction false} LongPairsKeepAll(body: seq<seq<string>>)
    requires forall i | 0 <= i < |body| :: |body[i]| >= 2
    ensures |LongPairs(body)| == |body|
    ensures forall i | 0 <= i < |body| :: LongPairs(body)[i] == (body[i][0], body[i][1])
  {
    if |body| > 0 {
      LongPairsCons(body);
      LongPairsKeepAll(body[1..]);
    }
  }

  /** `Feature,Value` over `Energy,123.4` gives `[("Energy", "123.4")]`. */
  lemma LongExample(name: string, value: string, h0: string, h1: string)
    requires IsNameLabel(h0) && IsValueLabel(h1)
    ensures CsvFeaturePairs([[h0, h1], [name, value]]) == [(name, value)]
  {
    var rows := [[h0, h1], [name, value]];
    assert Classify(rows) == Long;
    assert rows[1..] == [[name, value]];
    LongPairsOne([name, value]);
  }

  /** A file whose header starts `Feature,Value`, as the extractor writes
      it, is read in the long layout. */
  lemma FeatureValueHeader(rows: seq<seq<string>>)
    requires |rows| > 0 && |rows[0]| >= 2 && rows[0][0] == "Feature" && rows[0][1] == "Value"
    ensures Classify(rows) == Long
  {
    FeatureIsNameLabel();
    ValueIsValueLabel();
    assert IsLongHeader(rows[0]);
  }

  lemma FeatureIsNameLabel()
    ensures IsNameLabel("Feature")
  {
    NoSpaceIsStripped("Feature");
    assert LowerChar("Feature"[0]) == 'f';
    LowerMatches("Feature", "feature");
  }

  lemma ValueIsValueLabel()
    ensures IsValueLabel("Value")
  {
    NoSpaceIsStripped("Value");
    assert LowerChar("Value"[0]) == 'v';
    LowerMatches("Value", "value");
  }

  /** Header `f1,f2` over `1,2` gives `[("f1", "1"), ("f2", "2")]`. */
  lemma WideExample()
    ensures CsvFeaturePairs([["f1", "f2"], ["1", "2"]]) == [("f1", "1"), ("f2", "2")]
  {
    var rows := [["f1", "f2"], ["1", "2"]];
    assert !IsNameLabel("f1") by {
      assert |Lower(Strip("f1"))| <= 2;
    }
    assert Classify(rows) == Wide;
  }
}
