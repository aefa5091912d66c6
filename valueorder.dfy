/**
 * The order pandas sorts cell values in, and the counting built on it: the mode (`mode()[0]`)
 * and the frequency table (`value_counts()`).
 */
module ValueOrder {
  import opened Seqs
  import opened Frames

  /** Python's string comparison: lexicographic by code point. */
  predicate StrLe(a: string, b: string)
    decreases |a|
  {
    |a| == 0 || (|b| > 0 && (a[0] < b[0] || (a[0] == b[0] && StrLe(a[1..], b[1..]))))
  }

  lemma {:induction false} StrLeTotal(a: string, b: string)
    ensures StrLe(a, b) || StrLe(b, a)
    decreases |a|
  {
    if |a| > 0 && |b| > 0 && a[0] == b[0] {
      StrLeTotal(a[1..], b[1..]);
    }
  }

  lemma {:induction false} StrLeTransitive(a: string, b: string, c: string)
    requires StrLe(a, b) && StrLe(b, c)
    ensures StrLe(a, c)
    decreases |a|
  {
    if |a| > 0 && a[0] == b[0] && b[0] == c[0] {
      StrLeTransitive(a[1..], b[1..], c[1..]);
    }
  }

  lemma {:induction false} StrLeAntisymmetric(a: string, b: string)
    requires StrLe(a, b) && StrLe(b, a)
    ensures a == b
    decreases |a|
  {
    if |a| > 0 {
      StrLeAntisymmetric(a[1..], b[1..]);
      assert a == [a[0]] + a[1..] && b == [b[0]] + b[1..];
    }
  }

  /** Rank of a value's kind when a column mixes kinds: booleans, then numbers, then strings. */
  function KindRank(v: Value): nat
  {
    match v
    case Flag(_) => 0
    case Num(_) => 1
    case Text(_) => 2
  }

  /** The sort order of cell values: False < True, numbers by magnitude, strings lexicographically. */
  predicate ValueLe(a: Value, b: Value)
  {
    if KindRank(a) != KindRank(b) then KindRank(a) < KindRank(b)
    else match a
      case Flag(x) => !x || b.b
      case Num(x) => x <= b.x
      case Text(s) => StrLe(s, b.s)
  }

  lemma ValueLeTotalOrder()
    ensures forall a, b :: ValueLe(a, b) || ValueLe(b, a)
    ensures forall a, b, c :: ValueLe(a, b) && ValueLe(b, c) ==> ValueLe(a, c)
    ensures forall a, b :: ValueLe(a, b) && ValueLe(b, a) ==> a == b
    ensures TotalPreorder(ValueLe)
  {
    forall a, b ensures ValueLe(a, b) || ValueLe(b, a) {
      if a.Text? && b.Text? { StrLeTotal(a.s, b.s); }
    }
    forall a, b, c | ValueLe(a, b) && ValueLe(b, c) ensures ValueLe(a, c) {
      if a.Text? && b.Text? && c.Text? { StrLeTransitive(a.s, b.s, c.s); }
    }
    forall a, b | ValueLe(a, b) && ValueLe(b, a) ensures a == b {
      if a.Text? && b.Text? { StrLeAntisymmetric(a.s, b.s); }
    }
  }

  /** The number of cells holding v. */
  function Occurrences(cells: seq<Cell>, v: Value): (r: nat)
    ensures r <= |cells|
    ensures r > 0 <==> Some(v) in cells
  {
    if cells == [] then 0
    else Occurrences(cells[..|cells| - 1], v) + (if cells[|cells| - 1] == Some(v) then 1 else 0)
  }

  /** The present values, in row order (`dropna()`). */
  function Present(cells: seq<Cell>): (r: seq<Value>)
    ensures forall v :: v in r <==> Some(v) in cells
  {
    if cells == [] then []
    else
      var rest := Present(cells[..|cells| - 1]);
      assert cells == cells[..|cells| - 1] + [cells[|cells| - 1]];
      match cells[|cells| - 1]
      case None => rest
      case Some(v) => rest + [v]
  }

  /** v is at least as frequent as w, and when equally frequent not larger. */
  predicate RanksBefore(cells: seq<Cell>, v: Value, w: Value)
  {
    Occurrences(cells, w) < Occurrences(cells, v) || (Occurrences(cells, w) == Occurrences(cells, v) && ValueLe(v, w))
  }

  function BestOf(cands: seq<Value>, cells: seq<Cell>): (r: Value)
    requires |cands| > 0
    ensures r in cands
    ensures forall c :: c in cands ==> RanksBefore(cells, r, c)
  {
    ValueLeTotalOrder();
    if |cands| == 1 then cands[0]
    else
      var b := BestOf(cands[1..], cells);
      assert forall c :: c in cands ==> c == cands[0] || c in cands[1..];
      if RanksBefore(cells, cands[0], b) then cands[0] else b
  }

  /** A mode as `mode()[0]` picks it: a most frequent present value, the smallest among equally frequent ones. */
  ghost predicate IsModeOf(cells: seq<Cell>, v: Value)
  {
    Some(v) in cells && forall w :: Some(w) in cells ==> RanksBefore(cells, v, w)
  }

  /** `mode()[0]`; None where pandas raises because the column has no values. */
  function MostFrequent(cells: seq<Cell>): (r: Option<Value>)
    ensures r.None? <==> !HasPresent(cells)
    ensures r.Some? ==> IsModeOf(cells, r.value)
  {
    var vals := Present(cells);
    if !HasPresent(cells) then None
    else
      assert |vals| > 0 by {
        var i :| 0 <= i < |cells| && cells[i].Some?;
        assert cells[i].value in vals;
      }
      assert Some(vals[0]) in cells;
      Some(BestOf(vals, cells))
  }

  /** There is exactly one mode, and MostFrequent finds it. */
  lemma MostFrequentIsTheMode(cells: seq<Cell>, v: Value)
    ensures MostFrequent(cells) == Some(v) <==> IsModeOf(cells, v)
  {
    if IsModeOf(cells, v) {
      var m := MostFrequent(cells);
      assert HasPresent(cells) by {
        var i :| 0 <= i < |cells| && cells[i] == Some(v);
      }
      assert RanksBefore(cells, m.value, v) && RanksBefore(cells, v, m.value);
      ValueLeTotalOrder();
    }
  }

  predicate CountDesc(a: (Value, nat), b: (Value, nat))
  {
    a.1 >= b.1
  }

  /** `value_counts()`: each present value once with its count, most frequent first; equally frequent
      values stay in order of first appearance. */
  function ValueCounts(cells: seq<Cell>): (r: seq<(Value, nat)>)
  {
    var d := Distinct(Present(cells));
    var pairs := seq(|d|, (k: int) requires 0 <= k < |d| => (d[k], Occurrences(cells, d[k])));
    assert TotalPreorder(CountDesc);
    InsertionSort(pairs, CountDesc)
  }

  /** `value_counts().head(k).index`. */
  function TopValues(cells: seq<Cell>, k: nat): (r: seq<Value>)
  {
    var vc := ValueCounts(cells);
    seq(if |vc| <= k then |vc| else k, (i: int) requires 0 <= i < |vc| && i < k => vc[i].0)
  }

  lemma ValueCountsFacts(cells: seq<Cell>)
    ensures var vc := ValueCounts(cells);
      && SortedBy(vc, CountDesc)
      && (forall m :: 0 <= m < |vc| ==> vc[m].1 == Occurrences(cells, vc[m].0) && Some(vc[m].0) in cells)
      && (forall v :: Some(v) in cells ==> exists p :: 0 <= p < |vc| && vc[p].0 == v)
  {
    var d := Distinct(Present(cells));
    var pairs := seq(|d|, (m: int) requires 0 <= m < |d| => (d[m], Occurrences(cells, d[m])));
    assert TotalPreorder(CountDesc);
    var vc := InsertionSort(pairs, CountDesc);
    SortedKeepsElements(pairs, CountDesc);
    assert forall m :: 0 <= m < |vc| ==> vc[m] in pairs;
    forall v | Some(v) in cells ensures exists p :: 0 <= p < |vc| && vc[p].0 == v {
      assert v in d;
      var m :| 0 <= m < |d| && d[m] == v;
      assert pairs[m] in vc;
      var p :| 0 <= p < |vc| && vc[p] == pairs[m];
    }
  }

  /** `value_counts()` lists each value once. */
  lemma ValueCountsListEachValueOnce(cells: seq<Cell>)
    ensures var vc := ValueCounts(cells);
      forall a, b :: 0 <= a < b < |vc| ==> vc[a].0 != vc[b].0
  {
    var d := Distinct(Present(cells));
    var pairs := seq(|d|, (m: int) requires 0 <= m < |d| => (d[m], Occurrences(cells, d[m])));
    assert TotalPreorder(CountDesc);
    var vc := InsertionSort(pairs, CountDesc);
    // Distinct values give distinct pairs, and the sort is a permutation of them.
    assert NoDuplicates(pairs) by {
      forall a, b | 0 <= a < b < |pairs| ensures pairs[a] != pairs[b] {
        assert pairs[a].0 == d[a] && pairs[b].0 == d[b];
      }
    }
    PermutationKeepsNoDuplicates(pairs, vc);
    // A count is determined by its value, so two entries with the same value would be the same pair.
    assert forall m :: 0 <= m < |vc| ==> vc[m] in multiset(pairs);
    forall a, b | 0 <= a < b < |vc| ensures vc[a].0 != vc[b].0 {
      assert vc[a] in pairs && vc[b] in pairs;
    }
  }

  /** The most frequent values: at most k, all present, the most frequent first. */
  lemma TopValuesAreMostFrequent(cells: seq<Cell>, k: nat)
    ensures var r := TopValues(cells, k);
      && |r| <= k
      && (forall i :: 0 <= i < |r| ==> Some(r[i]) in cells)
      && (forall i, j :: 0 <= i < j < |r| ==> Occurrences(cells, r[i]) >= Occurrences(cells, r[j]))
  {
    var r := TopValues(cells, k);
    var vc := ValueCounts(cells);
    ValueCountsFacts(cells);
    assert forall i :: 0 <= i < |r| ==> r[i] == vc[i].0;
    forall i, j | 0 <= i < j < |r| ensures Occurrences(cells, r[i]) >= Occurrences(cells, r[j]) {
      assert CountDesc(vc[i], vc[j]);
    }
  }

  /** No value left out of the most frequent is more frequent than one kept, and a value is left out
      only when k are kept: with k or fewer distinct values, all of them are kept. */
  lemma TopValuesOmitNoMoreFrequent(cells: seq<Cell>, k: nat)
    ensures var r := TopValues(cells, k);
      && (forall v, i :: Some(v) in cells && v !in r && 0 <= i < |r| ==> Occurrences(cells, v) <= Occurrences(cells, r[i]))
      && (forall v :: Some(v) in cells && v !in r ==> |r| == k)
  {
    var r := TopValues(cells, k);
    var vc := ValueCounts(cells);
    ValueCountsFacts(cells);
    assert forall i :: 0 <= i < |r| ==> r[i] == vc[i].0;
    forall v | Some(v) in cells && v !in r
      ensures |r| == k && forall i :: 0 <= i < |r| ==> Occurrences(cells, v) <= Occurrences(cells, r[i])
    {
      var p :| 0 <= p < |vc| && vc[p].0 == v;
      assert forall q :: 0 <= q < |r| ==> vc[q].0 != v;
      forall i | 0 <= i < |r| ensures Occurrences(cells, v) <= Occurrences(cells, r[i]) {
        assert CountDesc(vc[i], vc[p]);
      }
    }
  }
}
