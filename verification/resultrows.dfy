/** `PySERALogic.feature_rows_from_result` of the main module: the
    extraction call's result payload turned into (feature, value) rows,
    with identifier-like rows filtered out. The payload's shape is sniffed
    in a fixed order and the first shape that matches decides. */
module ResultRows {
  import opened Wrappers
  import opened Text
  import opened Literals
  import opened Values

  /** One (feature, value) row. */
  datatype Row = Row(name: string, value: PyVal)

  /** The names of the rows, in order. */
  function Names(rows: seq<Row>): (ns: seq<string>)
    ensures |ns| == |rows|
    ensures forall i | 0 <= i < |rows| :: ns[i] == rows[i].name
  {
    if |rows| == 0 then [] else [rows[0].name] + Names(rows[1..])
  }

  // ---------- the metadata filter ----------

  /** Identifier-like field names that are never shown as features. */
  const MetaNames: set<string> := {"patientid", "roi", "case", "subject", "image", "mask"}

  predicate IsMeta(name: string) {
    Lower(Strip(name)) in MetaNames
  }

  /** `_filter_meta`: the rows whose stripped, lower-cased name is not an
      identifier, in their original order. */
  function FilterMeta(rows: seq<Row>): (r: seq<Row>)
    ensures |r| <= |rows|
    ensures forall i | 0 <= i < |r| :: !IsMeta(r[i].name)
    ensures forall x :: x in r <==> x in rows && !IsMeta(x.name)
  {
    if |rows| == 0 then []
    else if IsMeta(rows[0].name) then FilterMeta(rows[1..])
    else [rows[0]] + FilterMeta(rows[1..])
  }

  lemma {:induction false} FilterMetaAppend(a: seq<Row>, b: seq<Row>)
    ensures FilterMeta(a + b) == FilterMeta(a) + FilterMeta(b)
  {
    if |a| > 0 {
      var ab := a + b;
      assert ab[0] == a[0];
      assert ab[1..] == a[1..] + b;
      FilterMetaAppend(a[1..], b);
      if IsMeta(a[0].name) {
        assert FilterMeta(ab) == FilterMeta(ab[1..]);
        assert FilterMeta(a) == FilterMeta(a[1..]);
      } else {
        assert FilterMeta(ab) == [ab[0]] + FilterMeta(ab[1..]);
        assert FilterMeta(a) == [a[0]] + FilterMeta(a[1..]);
      }
    } else {
      assert a + b == b;
    }
  }

  /** Rows with no identifier among them pass unchanged, so the filter
      keeps the order of what it keeps. */
  lemma {:induction false} FilterMetaKeepsClean(rows: seq<Row>)
    requires forall i | 0 <= i < |rows| :: !IsMeta(rows[i].name)
    ensures FilterMeta(rows) == rows
  {
    if |rows| > 0 {
      FilterMetaKeepsClean(rows[1..]);
    }
  }

  lemma FilterMetaIdempotent(rows: seq<Row>)
    ensures FilterMeta(FilterMeta(rows)) == FilterMeta(rows)
  {
    FilterMetaKeepsClean(FilterMeta(rows));
  }

  /** A name without surrounding whitespace whose length no identifier
      has is never taken for one. */
  lemma NotMetaByLength(name: string)
    requires |name| > 0 && !IsSpace(name[0]) && !IsSpace(name[|name| - 1])
    requires |name| != 3 && |name| != 4 && |name| != 5 && |name| != 7 && |name| != 9
    ensures !IsMeta(name)
  {
    NoSpaceIsStripped(name);
  }

  // ---------- sorting the keys of a mapping ----------

  /** Python's `a <= b` on strings: code-point order, a prefix first. */
  predicate AtMost(a: string, b: string) {
    |a| == 0 || (|b| > 0 && (a[0] < b[0] || (a[0] == b[0] && AtMost(a[1..], b[1..]))))
  }

  lemma {:induction false} AtMostTotal(a: string, b: string)
    ensures AtMost(a, b) || AtMost(b, a)
  {
    if |a| > 0 && |b| > 0 && a[0] == b[0] {
      AtMostTotal(a[1..], b[1..]);
    }
  }

  lemma {:induction false} AtMostTransitive(a: string, b: string, c: string)
    requires AtMost(a, b) && AtMost(b, c)
    ensures AtMost(a, c)
  {
    if |a| > 0 && a[0] == b[0] && b[0] == c[0] {
      AtMostTransitive(a[1..], b[1..], c[1..]);
    }
  }

  lemma {:induction false} AtMostAntisymmetric(a: string, b: string)
    requires AtMost(a, b) && AtMost(b, a)
    ensures a == b
  {
    if |a| > 0 {
      AtMostAntisymmetric(a[1..], b[1..]);
      assert a == [a[0]] + a[1..] && b == [b[0]] + b[1..];
    }
  }

  lemma {:induction false} AtMostReflexive(a: string)
    ensures AtMost(a, a)
  {
    if |a| > 0 {
      AtMostReflexive(a[1..]);
    }
  }

  predicate Sorted(ks: seq<string>) {
    forall i, j | 0 <= i < j < |ks| :: AtMost(ks[i], ks[j])
  }

  /** `x` placed into sorted `ks` before the first element it does not
      exceed. */
  function Insert(x: string, ks: seq<string>): (r: seq<string>)
    requires Sorted(ks)
    ensures Sorted(r)
    ensures multiset(r) == multiset(ks) + multiset{x}
  {
    if |ks| == 0 then [x]
    else if AtMost(x, ks[0]) then
      assert forall j | 0 < j < |ks| :: AtMost(x, ks[j]) by {
        forall j | 0 < j < |ks| ensures AtMost(x, ks[j]) {
          AtMostTransitive(x, ks[0], ks[j]);
        }
      }
      [x] + ks
    else
      AtMostTotal(x, ks[0]);
      var rest := Insert(x, ks[1..]);
      assert ks == [ks[0]] + ks[1..];
      assert forall j | 0 <= j < |rest| :: AtMost(ks[0], rest[j]) by {
        forall j | 0 <= j < |rest| ensures AtMost(ks[0], rest[j]) {
          assert rest[j] in multiset(rest);
          if rest[j] != x {
            assert rest[j] in multiset(ks[1..]);
            var k :| 0 <= k < |ks[1..]| && ks[1..][k] == rest[j];
            assert ks[k + 1] == rest[j];
          }
        }
      }
      [ks[0]] + rest
  }

  /** `keys.sort()`: the keys in ascending order, none lost or added. */
  function SortKeys(ks: seq<string>): (r: seq<string>)
    ensures Sorted(r)
    ensures multiset(r) == multiset(ks)
  {
    if |ks| == 0 then []
    else
      assert ks == [ks[0]] + ks[1..];
      Insert(ks[0], SortKeys(ks[1..]))
  }

  // ---------- the shapes of the payload ----------

  /** The rows of a mapping: each key with its value. */
  function KeyRows(entries: seq<(string, PyVal)>, ks: seq<string>): (rows: seq<Row>)
    requires forall i | 0 <= i < |ks| :: ks[i] in Keys(entries)
    ensures Names(rows) == ks
    ensures forall i | 0 <= i < |rows| :: Lookup(entries, rows[i].name) == Some(rows[i].value)
  {
    if |ks| == 0 then [] else [Row(ks[0], Lookup(entries, ks[0]).value)] + KeyRows(entries, ks[1..])
  }

  /** A mapping: its entries in sorted key order, identifiers dropped. */
  function MappingRows(entries: seq<(string, PyVal)>): (rows: seq<Row>)
    ensures forall i | 0 <= i < |rows| :: !IsMeta(rows[i].name)
  {
    var ks := SortKeys(Keys(entries));
    assert forall i | 0 <= i < |ks| :: ks[i] in Keys(entries) by {
      forall i | 0 <= i < |ks| ensures ks[i] in Keys(entries) {
        assert ks[i] in multiset(ks);
      }
    }
    FilterMeta(KeyRows(entries, ks))
  }

  /** A table: the first record's value for each column, in column order,
      None for a column the record lacks. */
  function TableRows(columns: seq<string>, record: seq<(string, PyVal)>): (rows: seq<Row>)
    ensures Names(rows) == columns
    ensures forall i | 0 <= i < |rows| :: rows[i].value == Lookup(record, columns[i]).GetOr(PNone)
  {
    if |columns| == 0 then []
    else [Row(columns[0], Lookup(record, columns[0]).GetOr(PNone))] + TableRows(columns[1..], record)
  }

  /** Two equal-length, non-empty sequences: names and aligned values. */
  predicate IsTransposable(items: seq<PyVal>) {
    |items| == 2 && IsSequence(items[0]) && IsSequence(items[1])
    && |items[0].items| == |items[1].items| && |items[0].items| > 0
  }

  /** The 2xN case: the i-th name with the i-th value. */
  function Transpose(names: seq<PyVal>, values: seq<PyVal>): (rows: seq<Row>)
    requires |names| == |values|
    ensures |rows| == |names|
    ensures forall i | 0 <= i < |rows| :: rows[i] == Row(Str(names[i]), values[i])
  {
    if |names| == 0 then [] else [Row(Str(names[0]), values[0])] + Transpose(names[1..], values[1..])
  }

  /** Every entry of a dict as a row. */
  function EntryRows(entries: seq<(string, PyVal)>): (rows: seq<Row>)
    ensures |rows| == |entries|
    ensures forall i | 0 <= i < |rows| :: rows[i] == Row(entries[i].0, entries[i].1)
  {
    if |entries| == 0 then [] else [Row(entries[0].0, entries[0].1)] + EntryRows(entries[1..])
  }

  /** What one item of a general list contributes: a pair-like sequence its
      first two elements, a dict its `feature`/`value` pair or else all its
      entries, anything else nothing. */
  function ItemRows(item: PyVal): (rows: seq<Row>)
    ensures IsSequence(item) && |item.items| >= 2 ==> rows == [Row(Str(item.items[0]), item.items[1])]
    ensures IsSequence(item) && |item.items| < 2 ==> rows == []
    ensures item.PDict? && Lookup(item.entries, "feature").Some? && Lookup(item.entries, "value").Some? ==>
              rows == [Row(Str(Lookup(item.entries, "feature").value), Lookup(item.entries, "value").value)]
    ensures item.PDict? && (Lookup(item.entries, "feature").None? || Lookup(item.entries, "value").None?) ==>
              |rows| == |item.entries| && forall i | 0 <= i < |rows| :: rows[i] == Row(item.entries[i].0, item.entries[i].1)
    ensures !IsSequence(item) && !item.PDict? ==> rows == []
  {
    if IsSequence(item) && |item.items| >= 2 then [Row(Str(item.items[0]), item.items[1])]
    else if item.PDict? then
      match (Lookup(item.entries, "feature"), Lookup(item.entries, "value"))
      case (Some(f), Some(v)) => [Row(Str(f), v)]
      case _ => EntryRows(item.entries)
    else []
  }

  /** The general list case, item by item, in order. */
  function PairRows(items: seq<PyVal>): (rows: seq<Row>)
    ensures |items| == 0 ==> rows == []
  {
    if |items| == 0 then [] else ItemRows(items[0]) + PairRows(items[1..])
  }

  /** The general list case keeps the order of the items: it distributes
      over concatenation. */
  lemma {:induction false} PairRowsAppend(a: seq<PyVal>, b: seq<PyVal>)
    ensures PairRows(a + b) == PairRows(a) + PairRows(b)
  {
    if |a| == 0 {
      assert a + b == b;
    } else {
      var ab := a + b;
      assert ab[0] == a[0];
      assert ab[1..] == a[1..] + b;
      PairRowsAppend(a[1..], b);
    }
  }

  /** A list of one item gives that item's rows. */
  lemma PairRowsOne(item: PyVal)
    ensures PairRows([item]) == ItemRows(item)
  {
    assert [item][1..] == [];
  }

  /** The result entry holding the payload. */
  const PayloadKey: string := "features_extracted"

  /** The name of the row a payload of no recognised shape becomes. */
  const FallbackName: string := "features_extracted"

  lemma FallbackRowIsNotMeta()
    ensures !IsMeta(FallbackName)
  {
    NotMetaByLength(FallbackName);
  }

  /** A list: the 2xN case when it applies, else item by item. */
  function ListRows(items: seq<PyVal>): (rows: seq<Row>)
    ensures forall i | 0 <= i < |rows| :: !IsMeta(rows[i].name)
  {
    if IsTransposable(items) then FilterMeta(Transpose(items[0].items, items[1].items))
    else FilterMeta(PairRows(items))
  }

  /** Both list cases: a 2xN list gives exactly the non-identifier names
      paired with their aligned values; any other list gives exactly the
      non-identifier rows its items contribute. */
  lemma ListRowsSpec(items: seq<PyVal>)
    ensures IsTransposable(items) ==>
              forall x :: x in ListRows(items) <==>
                !IsMeta(x.name) && exists i | 0 <= i < |items[0].items| :: x == Row(Str(items[0].items[i]), items[1].items[i])
    ensures !IsTransposable(items) ==> forall x :: x in ListRows(items) <==> x in PairRows(items) && !IsMeta(x.name)
    ensures IsTransposable(items) ==> ListRows(items) == FilterMeta(Transpose(items[0].items, items[1].items))
    ensures !IsTransposable(items) ==> ListRows(items) == FilterMeta(PairRows(items))
  {
  }

  /** A string: the rows of the mapping it decodes to as JSON, else the
      string itself as the one fallback row. */
  function StringRows(s: string, json: string -> Option<PyVal>): (rows: seq<Row>)
    ensures forall i | 0 <= i < |rows| :: !IsMeta(rows[i].name) || rows[i].name == FallbackName
    ensures json(Strip(s)).Some? && json(Strip(s)).value.PDict? ==> rows == MappingRows(json(Strip(s)).value.entries)
    ensures !(json(Strip(s)).Some? && json(Strip(s)).value.PDict?) ==> rows == [Row(FallbackName, PStr(s))]
  {
    match json(Strip(s))
    case Some(PDict(entries)) => MappingRows(entries)
    case _ => [Row(FallbackName, PStr(s))]
  }

  /** The rows of the `features_extracted` payload, shape by shape: a table
      with a record, a mapping, a list, a string, and anything else as its
      text in one fallback row. A JSON decoder is a parameter: `json(s)` is
      the value `json.loads(s)` returns, `None` when it raises. */
  function PayloadRows(fx: PyVal, json: string -> Option<PyVal>): (rows: seq<Row>)
    ensures forall i | 0 <= i < |rows| :: !IsMeta(rows[i].name) || rows[i].name == FallbackName
    ensures fx.PTable? && |fx.firstRecord| > 0 ==> rows == FilterMeta(TableRows(fx.columns, fx.firstRecord))
    ensures fx.PTable? && |fx.firstRecord| == 0 ==> rows == [Row(FallbackName, PStr(fx.text))]
    ensures fx.PDict? ==> rows == MappingRows(fx.entries)
    ensures fx.PList? ==> rows == ListRows(fx.items)
    ensures fx.PStr? ==> rows == StringRows(fx.s, json)
    ensures !fx.PTable? && !fx.PDict? && !fx.PList? && !fx.PStr? ==> rows == [Row(FallbackName, PStr(Str(fx)))]
  {
    match fx
    case PTable(columns, record, text) =>
      if |record| > 0 then FilterMeta(TableRows(columns, record))
      else [Row(FallbackName, PStr(text))]
    case PDict(entries) => MappingRows(entries)
    case PList(items) => ListRows(items)
    case PStr(s) => StringRows(s, json)
    case _ => [Row(FallbackName, PStr(Str(fx)))]
  }

  /** `feature_rows_from_result`: no rows unless the result is a dict with
      a `features_extracted` entry that is not None; otherwise the rows of
      that entry, none of which names an identifier. */
  function FeatureRows(result: PyVal, json: string -> Option<PyVal>): (rows: seq<Row>)
    ensures !result.PDict? ==> rows == []
    ensures result.PDict? && Lookup(result.entries, PayloadKey).GetOr(PNone).PNone? ==> rows == []
    ensures forall i | 0 <= i < |rows| :: !IsMeta(rows[i].name) || rows[i].name == FallbackName
  {
    if !result.PDict? then []
    else
      var fx := Lookup(result.entries, PayloadKey).GetOr(PNone);
      if fx.PNone? then [] else PayloadRows(fx, json)
  }

  // ---------- properties ----------

  /** No row of the result names an identifier: the filter removes them
      from every filtered shape, and the fallback row's name is not one. */
  lemma FeatureRowsHaveNoMeta(result: PyVal, json: string -> Option<PyVal>)
    ensures forall i | 0 <= i < |FeatureRows(result, json)| :: !IsMeta(FeatureRows(result, json)[i].name)
  {
    FallbackRowIsNotMeta();
  }

  /** Every row is named at least `lo`. */
  predicate AllAtLeast(lo: string, rows: seq<Row>) {
    forall i | 0 <= i < |rows| :: AtMost(lo, rows[i].name)
  }

  /** The filter keeps a lower bound on the names. */
  lemma {:induction false} FilterMetaKeepsBound(rows: seq<Row>, lo: string)
    requires AllAtLeast(lo, rows)
    ensures AllAtLeast(lo, FilterMeta(rows))
  {
    if |rows| > 0 {
      FilterMetaKeepsBound(rows[1..], lo);
    }
  }

  /** A row named at most every name of a sorted list extends it sorted. */
  lemma SortedCons(row: Row, rows: seq<Row>)
    requires Sorted(Names(rows)) && AllAtLeast(row.name, rows)
    ensures Sorted(Names([row] + rows))
  {
    var ns := Names([row] + rows);
    assert forall j | 1 <= j < |ns| :: ns[j] == Names(rows)[j - 1];
  }

  /** The filter keeps sorted names sorted. */
  lemma {:induction false} FilterMetaKeepsSorted(rows: seq<Row>)
    requires Sorted(Names(rows))
    ensures Sorted(Names(FilterMeta(rows)))
  {
    if |rows| > 0 {
      var tail := rows[1..];
      assert Names(tail) == Names(rows)[1..];
      FilterMetaKeepsSorted(tail);
      if !IsMeta(rows[0].name) {
        var first := rows[0].name;
        assert AllAtLeast(first, tail) by {
          forall i | 0 <= i < |tail|
            ensures AtMost(first, tail[i].name)
          {
            assert Names(rows)[0] == first && Names(rows)[i + 1] == tail[i].name;
          }
        }
        FilterMetaKeepsBound(tail, first);
        SortedCons(rows[0], FilterMeta(tail));
      }
    }
  }

  /** No name occurs twice. */
  predicate Distinct(ns: seq<string>) {
    forall i, j | 0 <= i < j < |ns| :: ns[i] != ns[j]
  }

  lemma {:induction false} DistinctAtMostOnce(ks: seq<string>, x: string)
    requires Distinct(ks)
    ensures multiset(ks)[x] <= 1
  {
    if |ks| > 0 {
      var tail := ks[1..];
      assert ks == [ks[0]] + tail;
      assert Distinct(tail) by {
        forall i, j | 0 <= i < j < |tail| ensures tail[i] != tail[j] {
          assert tail[i] == ks[i + 1] && tail[j] == ks[j + 1];
        }
      }
      DistinctAtMostOnce(tail, x);
      assert ks[0] !in tail by {
        forall k | 0 <= k < |tail| ensures tail[k] != ks[0] {
          assert tail[k] == ks[k + 1];
        }
      }
      assert multiset(ks) == multiset{ks[0]} + multiset(tail);
    }
  }

  /** A value at two positions is counted at least twice. */
  lemma RepeatCountsTwice(ks: seq<string>, i: nat, j: nat)
    requires i < j < |ks|
    ensures ks[i] == ks[j] ==> multiset(ks)[ks[j]] >= 2
  {
    var front, back := ks[..j], ks[j..];
    assert ks == front + back;
    assert front[i] == ks[i] && back[0] == ks[j];
    assert multiset(ks) == multiset(front) + multiset(back);
    assert ks[i] in multiset(front) && ks[j] in multiset(back);
  }

  /** A permutation of distinct names is distinct. */
  lemma PermutationKeepsDistinct(a: seq<string>, b: seq<string>)
    requires multiset(a) == multiset(b) && Distinct(b)
    ensures Distinct(a)
  {
    forall i, j | 0 <= i < j < |a| ensures a[i] != a[j] {
      RepeatCountsTwice(a, i, j);
      DistinctAtMostOnce(b, a[j]);
    }
  }

  /** No two rows share a name. */
  predicate DistinctNames(rows: seq<Row>) {
    forall i, j | 0 <= i < j < |rows| :: rows[i].name != rows[j].name
  }

  lemma DistinctNamesOfNames(rows: seq<Row>)
    ensures DistinctNames(rows) <==> Distinct(Names(rows))
  {
    var ns := Names(rows);
    assert forall i | 0 <= i < |rows| :: ns[i] == rows[i].name;
  }

  /** No row is named `x`. */
  predicate NoneNamed(x: string, rows: seq<Row>) {
    forall i | 0 <= i < |rows| :: rows[i].name != x
  }

  /** The filter adds no name. */
  lemma {:induction false} FilterMetaKeepsAbsent(rows: seq<Row>, x: string)
    requires NoneNamed(x, rows)
    ensures NoneNamed(x, FilterMeta(rows))
  {
    if |rows| > 0 {
      FilterMetaKeepsAbsent(rows[1..], x);
    }
  }

  /** A row whose name is new extends distinct names distinctly. */
  lemma DistinctCons(row: Row, rows: seq<Row>)
    requires DistinctNames(rows) && NoneNamed(row.name, rows)
    ensures DistinctNames([row] + rows)
  {
    var r := [row] + rows;
    assert forall j | 1 <= j < |r| :: r[j] == rows[j - 1];
  }

  /** Distinct names: the first is not repeated, and the rest are distinct. */
  lemma DistinctSplit(rows: seq<Row>)
    requires |rows| > 0 && DistinctNames(rows)
    ensures NoneNamed(rows[0].name, rows[1..])
    ensures DistinctNames(rows[1..])
  {
    var tail := rows[1..];
    assert forall i | 0 <= i < |tail| :: tail[i] == rows[i + 1];
  }

  /** The filter keeps distinct names distinct. */
  lemma {:induction false} FilterMetaKeepsDistinct(rows: seq<Row>)
    requires DistinctNames(rows)
    ensures DistinctNames(FilterMeta(rows))
  {
    if |rows| > 0 {
      var tail := rows[1..];
      DistinctSplit(rows);
      FilterMetaKeepsDistinct(tail);
      if IsMeta(rows[0].name) {
        assert FilterMeta(rows) == FilterMeta(tail);
      } else {
        FilterMetaKeepsAbsent(tail, rows[0].name);
        DistinctCons(rows[0], FilterMeta(tail));
        assert FilterMeta(rows) == [rows[0]] + FilterMeta(tail);
      }
    }
  }

  /** The mapping case: the rows are sorted by name, and they are exactly
      the entries whose key is not an identifier, each once when the keys
      are distinct, as a dict's are. */
  lemma MappingRowsSpec(entries: seq<(string, PyVal)>)
    ensures Sorted(Names(MappingRows(entries)))
    ensures forall i | 0 <= i < |MappingRows(entries)| ::
              Lookup(entries, MappingRows(entries)[i].name) == Some(MappingRows(entries)[i].value)
    ensures forall k | k in Keys(entries) && !IsMeta(k) :: k in Names(MappingRows(entries))
    ensures DistinctKeys(entries) ==> Distinct(Names(MappingRows(entries)))
  {
    var ks := SortKeys(Keys(entries));
    assert forall i | 0 <= i < |ks| :: ks[i] in Keys(entries) by {
      forall i | 0 <= i < |ks| ensures ks[i] in Keys(entries) {
        assert ks[i] in multiset(ks);
      }
    }
    var all := KeyRows(entries, ks);
    FilterMetaKeepsSorted(all);
    if DistinctKeys(entries) {
      PermutationKeepsDistinct(ks, Keys(entries));
      DistinctNamesOfNames(all);
      FilterMetaKeepsDistinct(all);
      DistinctNamesOfNames(FilterMeta(all));
    }
    var rows := FilterMeta(all);
    forall i | 0 <= i < |rows|
      ensures Lookup(entries, rows[i].name) == Some(rows[i].value)
    {
      assert rows[i] in all;
    }
    forall k | k in Keys(entries) && !IsMeta(k)
      ensures k in Names(rows)
    {
      assert k in multiset(Keys(entries));
      assert k in Names(all);
      NameSurvivesFilter(all, k);
    }
  }

  lemma {:induction false} NameSurvivesFilter(rows: seq<Row>, k: string)
    requires k in Names(rows) && !IsMeta(k)
    ensures k in Names(FilterMeta(rows))
  {
    if rows[0].name != k {
      assert k in Names(rows[1..]) by {
        assert Names(rows) == [rows[0].name] + Names(rows[1..]);
      }
      NameSurvivesFilter(rows[1..], k);
      if !IsMeta(rows[0].name) {
        assert Names(FilterMeta(rows)) == [rows[0].name] + Names(FilterMeta(rows[1..]));
      }
    } else {
      assert Names(FilterMeta(rows))[0] == k;
    }
  }

  /** A sorted list of distinct keys is unique: sorting any order of the
      same distinct keys gives the same list. */
  lemma {:induction false} SortedUnique(a: seq<string>, b: seq<string>)
    requires Sorted(a) && Sorted(b) && multiset(a) == multiset(b)
    ensures a == b
  {
    if |a| > 0 {
      assert a[0] in multiset(b);
      assert b[0] in multiset(a);
      var i :| 0 <= i < |b| && b[i] == a[0];
      var j :| 0 <= j < |a| && a[j] == b[0];
      AtMostReflexive(a[0]);
      assert AtMost(b[0], a[0]);
      assert AtMost(a[0], b[0]);
      AtMostAntisymmetric(a[0], b[0]);
      assert a == [a[0]] + a[1..] && b == [b[0]] + b[1..];
      assert multiset(a[1..]) == multiset(b[1..]) by {
        assert multiset(a) == multiset{a[0]} + multiset(a[1..]);
        assert multiset(b) == multiset{a[0]} + multiset(b[1..]);
        forall x
          ensures multiset(a[1..])[x] == multiset(b[1..])[x]
        {
          assert multiset(a)[x] == multiset{a[0]}[x] + multiset(a[1..])[x];
          assert multiset(b)[x] == multiset{a[0]}[x] + multiset(b[1..])[x];
        }
      }
      SortedUnique(a[1..], b[1..]);
    }
  }

  /** The order the entries were inserted in does not matter. */
  lemma MappingRowsOrderFree(e1: seq<(string, PyVal)>, e2: seq<(string, PyVal)>)
    requires multiset(Keys(e1)) == multiset(Keys(e2))
    requires forall k | k in Keys(e1) :: Lookup(e1, k) == Lookup(e2, k)
    ensures MappingRows(e1) == MappingRows(e2)
  {
    var k1 := SortKeys(Keys(e1));
    var k2 := SortKeys(Keys(e2));
    SortedUnique(k1, k2);
    forall i | 0 <= i < |k1|
      ensures k1[i] in Keys(e1) && k1[i] in Keys(e2)
    {
      assert k1[i] in multiset(k1);
      assert k1[i] in multiset(Keys(e1));
      assert k1[i] in multiset(Keys(e2));
    }
    KeyRowsAgree(e1, e2, k1);
  }

  lemma {:induction false} KeyRowsAgree(e1: seq<(string, PyVal)>, e2: seq<(string, PyVal)>, ks: seq<string>)
    requires forall i | 0 <= i < |ks| :: ks[i] in Keys(e1) && ks[i] in Keys(e2)
    requires forall k | k in Keys(e1) :: Lookup(e1, k) == Lookup(e2, k)
    ensures KeyRows(e1, ks) == KeyRows(e2, ks)
  {
    if |ks| > 0 {
      KeyRowsAgree(e1, e2, ks[1..]);
    }
  }

  // ---------- examples ----------

  /** A mapping of two keys comes back in sorted key order, whatever its
      insertion order: `{"b": 1, "a": 2}` gives `[("a", 2), ("b", 1)]`. */
  lemma TwoKeyMapping(x: string, v: PyVal, y: string, w: PyVal, json: string -> Option<PyVal>)
    requires !AtMost(x, y) && !IsMeta(x) && !IsMeta(y)
    ensures FeatureRows(PDict([(PayloadKey, PDict([(x, v), (y, w)]))]), json) == [Row(y, w), Row(x, v)]
  {
    var entries := [(x, v), (y, w)];
    PayloadOnly(PDict(entries), json);
    PayloadOfMapping(entries, json);
    TwoKeyMappingRows(x, v, y, w);
  }

  lemma TwoKeyMappingRows(x: string, v: PyVal, y: string, w: PyVal)
    requires !AtMost(x, y) && !IsMeta(x) && !IsMeta(y)
    ensures MappingRows([(x, v), (y, w)]) == [Row(y, w), Row(x, v)]
  {
    TwoKeysSorted(x, y);
    AtMostReflexive(x);
    TwoKeyRows(x, v, y, w);
    FilterMetaKeepsClean([Row(y, w), Row(x, v)]);
  }

  lemma TwoKeyRows(x: string, v: PyVal, y: string, w: PyVal)
    requires x != y
    ensures Keys([(x, v), (y, w)]) == [x, y]
    ensures KeyRows([(x, v), (y, w)], [y, x]) == [Row(y, w), Row(x, v)]
  {
  }

  lemma TwoKeysSorted(x: string, y: string)
    requires !AtMost(x, y)
    ensures SortKeys([x, y]) == [y, x]
  {
    AtMostTotal(x, y);
    assert SortKeys([y]) == [y];
    assert [x, y][1..] == [y];
  }

  /** A dict result whose payload entry is present and not None gives
      the payload's rows, whatever else the result holds. */
  lemma FeatureRowsOfPayload(entries: seq<(string, PyVal)>, json: string -> Option<PyVal>)
    requires Lookup(entries, PayloadKey).Some? && !Lookup(entries, PayloadKey).value.PNone?
    ensures FeatureRows(PDict(entries), json) == PayloadRows(Lookup(entries, PayloadKey).value, json)
  {
  }

  /** The shape used in the examples: a result holding only the payload. */
  lemma PayloadOnly(fx: PyVal, json: string -> Option<PyVal>)
    requires !fx.PNone?
    ensures FeatureRows(PDict([(PayloadKey, fx)]), json) == PayloadRows(fx, json)
  {
    assert Lookup([(PayloadKey, fx)], PayloadKey) == Some(fx);
    FeatureRowsOfPayload([(PayloadKey, fx)], json);
  }

  /** In the 2xN list case with no identifier among the names, the rows
      are the names paired with the aligned values, in order. */
  lemma TransposedRows(items: seq<PyVal>)
    requires IsTransposable(items)
    requires forall i | 0 <= i < |items[0].items| :: !IsMeta(Str(items[0].items[i]))
    ensures |ListRows(items)| == |items[0].items|
    ensures forall i | 0 <= i < |items[0].items| :: ListRows(items)[i] == Row(Str(items[0].items[i]), items[1].items[i])
  {
    var t := Transpose(items[0].items, items[1].items);
    FilterMetaKeepsClean(t);
  }

  /** In the general list case the rows of the items come out in item
      order, identifiers dropped from each. */
  lemma ListRowsInOrder(a: seq<PyVal>, b: seq<PyVal>)
    requires !IsTransposable(a + b)
    ensures ListRows(a + b) == FilterMeta(PairRows(a)) + FilterMeta(PairRows(b))
  {
    PairRowsAppend(a, b);
    FilterMetaAppend(PairRows(a), PairRows(b));
  }

  lemma PayloadOfMapping(entries: seq<(string, PyVal)>, json: string -> Option<PyVal>)
    ensures PayloadRows(PDict(entries), json) == MappingRows(entries)
  {
    var fx := PDict(entries);
    var r := PayloadRows(fx, json);
    var m := MappingRows(entries);
    assert r == m;
  }

  /** `[["f1", "f2"], [10, 20]]` gives `[("f1", 10), ("f2", 20)]`. */
  lemma TransposeExample(json: string -> Option<PyVal>)
    ensures FeatureRows(PDict([(PayloadKey, PList([PList([PStr("f1"), PStr("f2")]), PList([PInt(10), PInt(20)])]))]), json)
            == [Row("f1", PInt(10)), Row("f2", PInt(20))]
  {
    var items := [PList([PStr("f1"), PStr("f2")]), PList([PInt(10), PInt(20)])];
    PayloadOnly(PList(items), json);
    NotMetaByLength("f1");
    NotMetaByLength("f2");
    TransposeTwo("f1", "f2", PInt(10), PInt(20));
  }

  /** A 2x2 list of two non-identifier names gives the two rows in order. */
  lemma TransposeTwo(a: string, b: string, v: PyVal, w: PyVal)
    requires !IsMeta(a) && !IsMeta(b)
    ensures ListRows([PList([PStr(a), PStr(b)]), PList([v, w])]) == [Row(a, v), Row(b, w)]
  {
    var names := [PStr(a), PStr(b)];
    var values := [v, w];
    var items := [PList(names), PList(values)];
    assert IsTransposable(items);
    var t := Transpose(names, values);
    assert t == [Row(a, v), Row(b, w)] by {
      assert t[0] == Row(Str(PStr(a)), v) && t[1] == Row(Str(PStr(b)), w);
    }
    FilterMetaKeepsClean(t);
  }

  /** `("PatientID", "X123")` is dropped and `("Energy", 5)` kept. */
  lemma FilterExample()
    ensures FilterMeta([Row("PatientID", PStr("X123")), Row("Energy", PInt(5))]) == [Row("Energy", PInt(5))]
  {
    PatientIdIsMeta();
    NotMetaByLength("Energy");
    assert [Row("PatientID", PStr("X123")), Row("Energy", PInt(5))][1..] == [Row("Energy", PInt(5))];
    FilterMetaKeepsClean([Row("Energy", PInt(5))]);
  }

  lemma PatientIdIsMeta()
    ensures IsMeta("PatientID")
  {
    NoSpaceIsStripped("PatientID");
    PatientIdLower();
    assert "patientid" in MetaNames;
  }

  lemma PatientIdLower()
    ensures Lower("PatientID") == "patientid"
  {
    var s := "PatientID";
    assert LowerChar(s[0]) == 'p' && LowerChar(s[7]) == 'i' && LowerChar(s[8]) == 'd';
    LowerMatches(s, "patientid");
  }
}
