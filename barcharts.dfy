/**
 * The aggregation behind the stacked bar chart (stacked_bar_chart, pages/7_bar_charts.py:13-25):
 * the rows holding one of the column's five most frequent values are grouped by (value, Target),
 * each group is counted, each value gets the total of its groups, and the groups are sorted by
 * that total, which also fixes the order of the values on the axis.
 */
module BarCharts {
  import opened Seqs
  import opened Frames
  import opened ValueOrder

  /** A row of `grouped` after the merge: value, Target class, count and the value's total. */
  datatype GroupRow = GroupRow(value: Value, target: Value, count: nat, total: nat)

  /** `df[coloana].isin(top_values)`: the positions of the rows whose value is among the top ones. */
  function KeptRows(x: seq<Cell>, top: seq<Value>): (r: seq<nat>)
    ensures AllBelow(r, |x|)
    ensures forall i :: 0 <= i < |x| ==> (i in r <==> x[i].Some? && x[i].value in top)
  {
    TrueIndices(seq(|x|, (i: int) requires 0 <= i < |x| => x[i].Some? && x[i].value in top))
  }

  /** The (value, Target) keys of the given rows; groupby drops a row whose key has a missing part. */
  function Pairs(x: seq<Cell>, y: seq<Cell>, rows: seq<nat>): (r: seq<(Value, Value)>)
    requires |y| == |x| && AllBelow(rows, |x|)
    ensures forall p :: p in r <==> exists k :: 0 <= k < |rows| && x[rows[k]] == Some(p.0) && y[rows[k]] == Some(p.1)
  {
    if rows == [] then []
    else
      var init := rows[..|rows| - 1];
      var i := rows[|rows| - 1];
      var rest := Pairs(x, y, init);
      assert forall k :: 0 <= k < |init| ==> init[k] == rows[k];
      if x[i].Some? && y[i].Some? then rest + [(x[i].value, y[i].value)] else rest
  }

  /** The number of keys equal to p (`size()` of one group). */
  function PairCount(ps: seq<(Value, Value)>, p: (Value, Value)): (r: nat)
    ensures r > 0 <==> p in ps
  {
    if ps == [] then 0 else PairCount(ps[..|ps| - 1], p) + (if ps[|ps| - 1] == p then 1 else 0)
  }

  /** The number of keys whose value is v. */
  function ValueCount(ps: seq<(Value, Value)>, v: Value): nat
  {
    if ps == [] then 0 else ValueCount(ps[..|ps| - 1], v) + (if ps[|ps| - 1].0 == v then 1 else 0)
  }

  /** `groupby([coloana, "Target"]).size().reset_index(name="count")` over the given keys. */
  function GroupsOver(ps: seq<(Value, Value)>, keys: seq<(Value, Value)>): (r: seq<GroupRow>)
    ensures |r| == |keys|
    ensures forall k :: 0 <= k < |keys| ==> r[k] == GroupRow(keys[k].0, keys[k].1, PairCount(ps, keys[k]), 0)
  {
    if keys == [] then [] else GroupsOver(ps, keys[..|keys| - 1]) + [GroupRow(keys[|keys| - 1].0, keys[|keys| - 1].1, PairCount(ps, keys[|keys| - 1]), 0)]
  }

  /** `grouped.groupby(coloana)["count"].sum()` for one value. */
  function TotalOf(groups: seq<GroupRow>, v: Value): nat
  {
    if groups == [] then 0 else TotalOf(groups[..|groups| - 1], v) + (if groups[|groups| - 1].value == v then groups[|groups| - 1].count else 0)
  }

  /** `grouped.merge(totals, on=coloana)`: each group gets its value's total. */
  function Merged(groups: seq<GroupRow>): (r: seq<GroupRow>)
    ensures |r| == |groups|
    ensures forall k :: 0 <= k < |groups| ==> r[k] == groups[k].(total := TotalOf(groups, groups[k].value))
  {
    seq(|groups|, (k: int) requires 0 <= k < |groups| => groups[k].(total := TotalOf(groups, groups[k].value)))
  }

  predicate TotalDesc(a: GroupRow, b: GroupRow)
  {
    a.total >= b.total
  }

  function Values(rows: seq<GroupRow>): (r: seq<Value>)
    ensures |r| == |rows| && forall k :: 0 <= k < |rows| ==> r[k] == rows[k].value
  {
    seq(|rows|, (k: int) requires 0 <= k < |rows| => rows[k].value)
  }


  /** The keys of the rows that survive the top-five filter. */
  function KeptPairs(x: seq<Cell>, y: seq<Cell>): seq<(Value, Value)>
    requires |y| == |x|
  {
    Pairs(x, y, KeptRows(x, TopValues(x, 5)))
  }

  /** The merged groups sorted by total, largest first (`sort_values("total", ascending=False)`). */
  function SortedGroups(ps: seq<(Value, Value)>): (r: seq<GroupRow>)
    ensures SortedBy(r, TotalDesc)
    ensures multiset(r) == multiset(Merged(GroupsOver(ps, Distinct(ps))))
  {
    assert TotalPreorder(TotalDesc);
    InsertionSort(Merged(GroupsOver(ps, Distinct(ps))), TotalDesc)
  }

  /** The chart's data: the sorted group rows and the category order of the axis. */
  datatype Chart = Chart(rows: seq<GroupRow>, order: seq<Value>)

  /** stacked_bar_chart on the chosen column x and the Target column y; the axis order is the
      values in the order they first appear in the sorted rows (`unique()`). */
  function Aggregate(x: seq<Cell>, y: seq<Cell>): Chart
    requires |y| == |x|
  {
    var rows := SortedGroups(KeptPairs(x, y));
    Chart(rows, Distinct(Values(rows)))
  }

  /** The chart for a column of the table; None where the column or Target is missing (KeyError),
      and where the column is Target itself: both levels of the grouped index are then named Target,
      and `reset_index` cannot insert Target twice (ValueError). */
  function StackedBarChart(df: Table, column: string): (r: Option<Chart>)
    requires WellFormed(df)
    ensures r.None? <==>
      column == TARGET || ColumnIndex(df.columns, column).None? || ColumnIndex(df.columns, TARGET).None?
    ensures r.Some? ==> r.value == Aggregate(df.columns[ColumnIndex(df.columns, column).value].cells,
                                             df.columns[ColumnIndex(df.columns, TARGET).value].cells)
  {
    if column == TARGET then None
    else match (ColumnIndex(df.columns, column), ColumnIndex(df.columns, TARGET))
      case (Some(jx), Some(jy)) => Some(Aggregate(df.columns[jx].cells, df.columns[jy].cells))
      case _ => None
  }

  // ---------------------------------------------------------------------------------------------
  // The column choice

  /** A column `select_dtypes(include=['object', 'category'])` selects. */
  predicate IsCategorical(c: Column)
  {
    c.dtype == Object || c.dtype == Category
  }

  /** The names the selectbox offers, in table order; the first is the default selection. */
  function OfferedColumns(cols: seq<Column>): (names: seq<string>)
    ensures forall n :: n in names <==> exists j :: 0 <= j < |cols| && cols[j].name == n && IsCategorical(cols[j])
  {
    if cols == [] then []
    else
      var rest := OfferedColumns(cols[1..]);
      assert forall j :: 1 <= j < |cols| ==> cols[j] == cols[1..][j - 1];
      if IsCategorical(cols[0]) then [cols[0].name] + rest else rest
  }

  /** As written, a categorical Target is offered and gives no chart. When it is the only categorical
      column it is also the default selection, so the page fails as soon as it opens. */
  lemma AsWrittenOffersTarget(df: Table, jt: nat)
    requires WellFormed(df) && jt < |df.columns| && df.columns[jt].name == TARGET && IsCategorical(df.columns[jt])
    ensures TARGET in OfferedColumns(df.columns) && StackedBarChart(df, TARGET).None?
    ensures (forall j :: 0 <= j < |df.columns| && IsCategorical(df.columns[j]) ==> df.columns[j].name == TARGET)
            ==> OfferedColumns(df.columns)[0] == TARGET
  {
    var offered := OfferedColumns(df.columns);
    if forall j :: 0 <= j < |df.columns| && IsCategorical(df.columns[j]) ==> df.columns[j].name == TARGET {
      assert offered[0] in offered;
    }
  }

  /** The choice the chart can draw: the offered columns without Target. */
  function ChartColumns(cols: seq<Column>): (names: seq<string>)
    ensures forall n :: n in names <==> n in OfferedColumns(cols) && n != TARGET
  {
    if cols == [] then []
    else
      var rest := ChartColumns(cols[1..]);
      assert forall j :: 1 <= j < |cols| ==> cols[j] == cols[1..][j - 1];
      if IsCategorical(cols[0]) && cols[0].name != TARGET then [cols[0].name] + rest else rest
  }

  /** Every column of the corrected choice gives a chart once the table has a Target column. */
  lemma EveryChartColumnCharts(df: Table)
    requires WellFormed(df) && ColumnIndex(df.columns, TARGET).Some?
    ensures forall n :: n in ChartColumns(df.columns) ==> StackedBarChart(df, n).Some?
  {
    forall n | n in ChartColumns(df.columns) ensures StackedBarChart(df, n).Some? {
      var j :| 0 <= j < |df.columns| && df.columns[j].name == n && IsCategorical(df.columns[j]);
    }
  }

  // ---------------------------------------------------------------------------------------------
  // Totals

  /** The sum of the counts of the keys with value v. */
  function KeyTotal(ps: seq<(Value, Value)>, keys: seq<(Value, Value)>, v: Value): nat
  {
    if keys == [] then 0
    else KeyTotal(ps, keys[..|keys| - 1], v) + (if keys[|keys| - 1].0 == v then PairCount(ps, keys[|keys| - 1]) else 0)
  }

  lemma PairCountOfOneMore(ps: seq<(Value, Value)>, p: (Value, Value), q: (Value, Value))
    ensures PairCount(ps + [p], q) == PairCount(ps, q) + (if p == q then 1 else 0)
  {
    assert (ps + [p])[..|ps|] == ps;
  }

  lemma {:induction false} TotalOfGroupsIsKeyTotal(ps: seq<(Value, Value)>, keys: seq<(Value, Value)>, v: Value)
    ensures TotalOf(GroupsOver(ps, keys), v) == KeyTotal(ps, keys, v)
    decreases |keys|
  {
    if keys != [] {
      var init := keys[..|keys| - 1];
      TotalOfGroupsIsKeyTotal(ps, init, v);
      assert GroupsOver(ps, keys)[..|keys| - 1] == GroupsOver(ps, init);
    }
  }

  /** One more key counted raises the total of its value by one, when the key has a group. */
  lemma {:induction false} KeyTotalAfterOneMoreKey(ps: seq<(Value, Value)>, p: (Value, Value), keys: seq<(Value, Value)>, v: Value)
    requires NoDuplicates(keys)
    ensures KeyTotal(ps + [p], keys, v) == KeyTotal(ps, keys, v) + (if p in keys && p.0 == v then 1 else 0)
    decreases |keys|
  {
    if keys != [] {
      var init := keys[..|keys| - 1];
      var last := keys[|keys| - 1];
      KeyTotalAfterOneMoreKey(ps, p, init, v);
      PairCountOfOneMore(ps, p, last);
      assert keys == init + [last];
      assert p == last ==> p !in init;
    }
  }

  /** Adding a row to the kept ones raises the total of its value by one. */
  lemma KeyTotalOfOneMoreRow(init: seq<(Value, Value)>, p: (Value, Value), v: Value)
    ensures KeyTotal(init + [p], Distinct(init + [p]), v) == KeyTotal(init, Distinct(init), v) + (if p.0 == v then 1 else 0)
  {
    var ps := init + [p];
    var d := Distinct(init);
    assert ps[..|ps| - 1] == init;
    KeyTotalAfterOneMoreKey(init, p, d, v);
    if p !in d {
      assert Distinct(ps) == d + [p];
      assert (d + [p])[..|d|] == d;
      PairCountOfOneMore(init, p, p);
    }
  }

  lemma {:induction false} KeyTotalCountsKeysWithValue(ps: seq<(Value, Value)>, v: Value)
    ensures KeyTotal(ps, Distinct(ps), v) == ValueCount(ps, v)
    decreases |ps|
  {
    if ps != [] {
      var init := ps[..|ps| - 1];
      assert ps == init + [ps[|ps| - 1]];
      KeyTotalCountsKeysWithValue(init, v);
      KeyTotalOfOneMoreRow(init, ps[|ps| - 1], v);
    }
  }

  /** Summing the group counts of a value gives the number of kept rows with that value. */
  lemma TotalCountsKeysWithValue(ps: seq<(Value, Value)>, v: Value)
    ensures TotalOf(GroupsOver(ps, Distinct(ps)), v) == ValueCount(ps, v)
  {
    TotalOfGroupsIsKeyTotal(ps, Distinct(ps), v);
    KeyTotalCountsKeysWithValue(ps, v);
  }

  // ---------------------------------------------------------------------------------------------
  // What the chart shows

  /** Each merged group counts the rows with its key, never zero, and carries the number of rows
      with its value as total. */
  lemma MergedGroupFacts(ps: seq<(Value, Value)>, m: nat)
    requires m < |Merged(GroupsOver(ps, Distinct(ps)))|
    ensures var g := Merged(GroupsOver(ps, Distinct(ps)))[m];
      && (g.value, g.target) in ps
      && g.count == PairCount(ps, (g.value, g.target)) > 0
      && g.total == ValueCount(ps, g.value)
  {
    var g := Merged(GroupsOver(ps, Distinct(ps)))[m];
    assert (g.value, g.target) == Distinct(ps)[m];
    TotalCountsKeysWithValue(ps, g.value);
  }

  /** Every row of the chart holds one of the five most frequent values, counts the kept rows with
      its (value, Target) pair, is never empty, and its total is the number of kept rows with its
      value. */
  lemma ChartRowsCountTheKeptRows(x: seq<Cell>, y: seq<Cell>)
    requires |y| == |x|
    ensures var ps := KeptPairs(x, y);
      var rows := Aggregate(x, y).rows;
      forall k :: 0 <= k < |rows| ==>
        && rows[k].value in TopValues(x, 5)
        && rows[k].count == PairCount(ps, (rows[k].value, rows[k].target)) > 0
        && rows[k].total == ValueCount(ps, rows[k].value)
  {
    var top := TopValues(x, 5);
    var kept := KeptRows(x, top);
    var ps := KeptPairs(x, y);
    var merged := Merged(GroupsOver(ps, Distinct(ps)));
    var rows := Aggregate(x, y).rows;
    forall k | 0 <= k < |rows|
      ensures rows[k].value in top
      ensures rows[k].count == PairCount(ps, (rows[k].value, rows[k].target)) > 0
      ensures rows[k].total == ValueCount(ps, rows[k].value)
    {
      assert rows[k] in multiset(merged);
      var m :| 0 <= m < |merged| && merged[m] == rows[k];
      MergedGroupFacts(ps, m);
      var q :| 0 <= q < |kept| && x[kept[q]] == Some(rows[k].value) && y[kept[q]] == Some(rows[k].target);
    }
  }

  /** Every row whose value is among the top five and whose Target is present is counted in the
      chart's row for its pair. */
  lemma ChartCoversEveryKeptRow(x: seq<Cell>, y: seq<Cell>, i: nat)
    requires |y| == |x| && i < |x|
    requires x[i].Some? && x[i].value in TopValues(x, 5) && y[i].Some?
    ensures exists k :: 0 <= k < |Aggregate(x, y).rows| && Aggregate(x, y).rows[k].value == x[i].value
                        && Aggregate(x, y).rows[k].target == y[i].value
  {
    var rows := SortedGroups(KeptPairs(x, y));
    assert Aggregate(x, y).rows == rows;
    KeptRowHasAPair(x, y, i);
    EveryPairHasARow(KeptPairs(x, y), (x[i].value, y[i].value));
    var k :| 0 <= k < |rows| && rows[k].value == x[i].value && rows[k].target == y[i].value;
  }

  lemma KeptRowHasAPair(x: seq<Cell>, y: seq<Cell>, i: nat)
    requires |y| == |x| && i < |x|
    requires x[i].Some? && x[i].value in TopValues(x, 5) && y[i].Some?
    ensures (x[i].value, y[i].value) in KeptPairs(x, y)
  {
    var kept := KeptRows(x, TopValues(x, 5));
    var q :| 0 <= q < |kept| && kept[q] == i;
    assert x[kept[q]] == Some(x[i].value) && y[kept[q]] == Some(y[i].value);
  }

  lemma EveryPairHasARow(ps: seq<(Value, Value)>, p: (Value, Value))
    requires p in ps
    ensures exists k :: 0 <= k < |SortedGroups(ps)| && SortedGroups(ps)[k].value == p.0 && SortedGroups(ps)[k].target == p.1
  {
    var keys := Distinct(ps);
    var merged := Merged(GroupsOver(ps, keys));
    var rows := SortedGroups(ps);
    var m :| 0 <= m < |keys| && keys[m] == p;
    assert merged[m] in multiset(rows);
    var k :| 0 <= k < |rows| && rows[k] == merged[m];
  }

  predicate DistinctKeys(rows: seq<GroupRow>)
  {
    forall a, b :: 0 <= a < b < |rows| ==> (rows[a].value, rows[a].target) != (rows[b].value, rows[b].target)
  }

  lemma MergedKeysAreDistinct(ps: seq<(Value, Value)>, keys: seq<(Value, Value)>)
    requires NoDuplicates(keys)
    ensures DistinctKeys(Merged(GroupsOver(ps, keys)))
  {
    var groups := GroupsOver(ps, keys);
    var merged := Merged(groups);
    forall a, b | 0 <= a < b < |merged| ensures (merged[a].value, merged[a].target) != (merged[b].value, merged[b].target) {
      assert merged[a].value == groups[a].value && merged[a].target == groups[a].target;
      assert merged[b].value == groups[b].value && merged[b].target == groups[b].target;
      assert (groups[a].value, groups[a].target) == keys[a] && (groups[b].value, groups[b].target) == keys[b];
      assert keys[a] != keys[b];
    }
  }

  lemma PermutationKeepsDistinctKeys(merged: seq<GroupRow>, rows: seq<GroupRow>)
    requires DistinctKeys(merged) && multiset(rows) == multiset(merged)
    ensures DistinctKeys(rows)
  {
    forall a, b | 0 <= a < b < |merged| ensures merged[a] != merged[b] {
      assert (merged[a].value, merged[a].target) != (merged[b].value, merged[b].target);
    }
    PermutationKeepsNoDuplicates(merged, rows);
    forall a, b | 0 <= a < b < |rows| ensures (rows[a].value, rows[a].target) != (rows[b].value, rows[b].target) {
      assert rows[a] in multiset(merged) && rows[b] in multiset(merged);
      var ma :| 0 <= ma < |merged| && merged[ma] == rows[a];
      var mb :| 0 <= mb < |merged| && merged[mb] == rows[b];
      assert ma != mb;
    }
  }

  /** No (value, Target) pair has two rows. */
  lemma ChartRowsHaveDistinctKeys(x: seq<Cell>, y: seq<Cell>)
    requires |y| == |x|
    ensures var rows := Aggregate(x, y).rows;
      forall a, b :: 0 <= a < b < |rows| ==> (rows[a].value, rows[a].target) != (rows[b].value, rows[b].target)
  {
    var ps := KeptPairs(x, y);
    MergedKeysAreDistinct(ps, Distinct(ps));
    PermutationKeepsDistinctKeys(Merged(GroupsOver(ps, Distinct(ps))), SortedGroups(ps));
    assert DistinctKeys(Aggregate(x, y).rows);
  }

  /** The rows run from the largest total down, and the axis lists each shown value once, at most
      five of them, more frequent values first. */
  lemma ChartOrderFollowsTotals(x: seq<Cell>, y: seq<Cell>)
    requires |y| == |x|
    ensures var c := Aggregate(x, y);
      var ps := KeptPairs(x, y);
      && (forall a, b :: 0 <= a < b < |c.rows| ==> c.rows[a].total >= c.rows[b].total)
      && (forall v :: v in c.order <==> exists k :: 0 <= k < |c.rows| && c.rows[k].value == v)
      && NoDuplicates(c.order)
      && |c.order| <= 5
      && (forall a, b :: 0 <= a < b < |c.order| ==> ValueCount(ps, c.order[a]) >= ValueCount(ps, c.order[b]))
  {
    ChartRowsCountTheKeptRows(x, y);
    var c := Aggregate(x, y);
    var top := TopValues(x, 5);
    assert |top| <= 5;
    AxisFollowsTotals(c.rows, KeptPairs(x, y), top);
  }

  lemma AxisFollowsTotals(rows: seq<GroupRow>, ps: seq<(Value, Value)>, top: seq<Value>)
    requires SortedBy(rows, TotalDesc)
    requires forall k :: 0 <= k < |rows| ==> rows[k].value in top && rows[k].total == ValueCount(ps, rows[k].value)
    ensures var order := Distinct(Values(rows));
      && (forall a, b :: 0 <= a < b < |rows| ==> rows[a].total >= rows[b].total)
      && (forall v :: v in order <==> exists k :: 0 <= k < |rows| && rows[k].value == v)
      && NoDuplicates(order)
      && |order| <= |top|
      && (forall a, b :: 0 <= a < b < |order| ==> ValueCount(ps, order[a]) >= ValueCount(ps, order[b]))
  {
    var vs := Values(rows);
    var order := Distinct(vs);
    forall a, b | 0 <= a < b < |rows| ensures rows[a].total >= rows[b].total {
      assert TotalDesc(rows[a], rows[b]);
    }
    forall v ensures v in order <==> exists k :: 0 <= k < |rows| && rows[k].value == v {
      assert v in order <==> v in vs;
    }
    NoDuplicatesWithinIsShorter(order, top);
    forall a, b | 0 <= a < b < |order| ensures ValueCount(ps, order[a]) >= ValueCount(ps, order[b]) {
      DistinctKeepsOrder(vs, a, b);
      var i, j :| 0 <= i < j < |vs| && vs[i] == order[a] && vs[j] == order[b];
      assert TotalDesc(rows[i], rows[j]);
    }
  }
}
