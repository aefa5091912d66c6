/**
 * The data-quality page (pages/10_duplicate_nan.py): injecting missing values at random, the
 * report of the columns with the most missing values, the total count of missing values, and the
 * keep-first duplicate count.
 */
module DataQuality {
  import opened Seqs
  import opened Frames

  // ---------------------------------------------------------------------------------------------
  // introducere_valori_lipsa

  /** The default bounds of the fraction of each column made missing. */
  const PERCENT_MIN: real := 0.01
  const PERCENT_MAX: real := 0.1

  /** One column's random draws: the fraction from random.uniform and the rows df.sample(n) returns. */
  datatype Draw = Draw(fraction: real, rows: seq<nat>)

  /** `int(len(df) * procent)` for a non-negative fraction. */
  function SampleSize(n: nat, fraction: real): (r: nat)
    requires fraction >= 0.0
    ensures r as real <= n as real * fraction < r as real + 1.0
  {
    (n as real * fraction).Floor
  }

  /** A draw random.uniform and df.sample could make for a table of n rows: a fraction between the
      bounds and that many distinct rows. */
  predicate ValidDraw(d: Draw, n: nat, low: real, high: real)
  {
    && low <= d.fraction <= high && d.fraction >= 0.0
    && |d.rows| == SampleSize(n, d.fraction)
    && AllBelow(d.rows, n) && NoDuplicates(d.rows)
  }

  /** The dtype after NaN is written into some of a column's cells: int64 becomes float64 and bool
      becomes object; the other dtypes hold NaN as they are. */
  function WithNaN(d: Dtype): Dtype
  {
    match d
    case Int64 => Float64
    case Bool => Object
    case _ => d
  }

  /** `df_copy.loc[rows, col] = np.nan`. */
  function BlankRows(c: Column, rows: seq<nat>): (r: Column)
    ensures r.name == c.name && |r.cells| == |c.cells|
    ensures forall i :: 0 <= i < |c.cells| ==> r.cells[i] == if i in rows then None else c.cells[i]
  {
    Column(c.name, if rows == [] then c.dtype else WithNaN(c.dtype),
           seq(|c.cells|, (i: int) requires 0 <= i < |c.cells| => if i in rows then None else c.cells[i]))
  }

  /** The copy introducere_valori_lipsa returns, given each column's draw (the Target column's entry
      is never used). */
  function Injected(df: Table, draws: seq<Draw>): (r: Table)
    requires |draws| == |df.columns|
    ensures r.index == df.index && |r.columns| == |df.columns|
    ensures WellFormed(df) ==> WellFormed(r)
  {
    Table(seq(|df.columns|, (j: int) requires 0 <= j < |df.columns| =>
            if df.columns[j].name == TARGET then df.columns[j] else BlankRows(df.columns[j], draws[j].rows)),
          df.index)
  }

  /** The loop over the columns of the copy. */
  method InjectMissingValues(df: Table, low: real, high: real, draws: seq<Draw>) returns (r: Table)
    requires WellFormed(df) && 0.0 <= low <= high
    requires |draws| == |df.columns|
    requires forall j :: 0 <= j < |df.columns| && df.columns[j].name != TARGET ==> ValidDraw(draws[j], NumRows(df), low, high)
    ensures r == Injected(df, draws)
  {
    r := df;
    var j := 0;
    while j < |df.columns|
      invariant 0 <= j <= |df.columns|
      invariant r.index == df.index && |r.columns| == |df.columns|
      invariant forall m :: 0 <= m < |df.columns| ==> r.columns[m] == if m < j then Injected(df, draws).columns[m] else df.columns[m]
    {
      var col := df.columns[j];
      if col.name != TARGET {
        r := r.(columns := r.columns[j := BlankRows(col, draws[j].rows)]);
      }
      j := j + 1;
    }
  }

  /** The positions where two columns of cells differ. */
  function ChangedRows(a: seq<Cell>, b: seq<Cell>): set<nat>
    requires |a| == |b|
  {
    set i: nat | i < |a| && a[i] != b[i]
  }

  lemma {:induction false} DistinctElementsBound(s: seq<nat>)
    ensures |set k | 0 <= k < |s| :: s[k]| <= |s|
    decreases |s|
  {
    if s != [] {
      var init := s[..|s| - 1];
      DistinctElementsBound(init);
      assert (set k | 0 <= k < |s| :: s[k]) == (set k | 0 <= k < |init| :: init[k]) + {s[|s| - 1]};
    }
  }

  lemma SampleSizeIsMonotone(n: nat, a: real, b: real)
    requires 0.0 <= a <= b
    ensures SampleSize(n, a) <= SampleSize(n, b)
  {
    assert n as real * a <= n as real * b by {
      assert n as real * (b - a) >= 0.0;
    }
  }

  /** Blanking rows changes no cell outside them. */
  lemma BlankRowsChangesAtMostTheRows(c: Column, rows: seq<nat>)
    ensures |ChangedRows(c.cells, BlankRows(c, rows).cells)| <= |rows|
  {
    var drawn := set k | 0 <= k < |rows| :: rows[k];
    var changed := ChangedRows(c.cells, BlankRows(c, rows).cells);
    assert changed <= drawn by {
      forall i | i in changed ensures i in drawn {
        var k :| 0 <= k < |rows| && rows[k] == i;
      }
    }
    DistinctElementsBound(rows);
    assert drawn == changed + (drawn - changed);
    assert |drawn| == |changed| + |drawn - changed|;
  }

  /** The copy keeps the index, the column names and the Target column; in every other column the
      drawn rows become missing, floor(n * p) of them with p between the bounds, and nothing else
      changes, so at most floor(n * procent_max) cells of a column change. */
  lemma InjectionTouchesOnlyDrawnCells(df: Table, low: real, high: real, draws: seq<Draw>)
    requires WellFormed(df) && 0.0 <= low <= high
    requires |draws| == |df.columns|
    requires forall j :: 0 <= j < |df.columns| && df.columns[j].name != TARGET ==> ValidDraw(draws[j], NumRows(df), low, high)
    ensures var r := Injected(df, draws);
      && WellFormed(r) && r.index == df.index && |r.columns| == |df.columns|
      && (forall j :: 0 <= j < |df.columns| ==> r.columns[j].name == df.columns[j].name)
      && (forall j :: 0 <= j < |df.columns| && df.columns[j].name == TARGET ==> r.columns[j] == df.columns[j])
      && (forall j, i :: 0 <= j < |df.columns| && df.columns[j].name != TARGET && 0 <= i < NumRows(df) ==>
            r.columns[j].cells[i] == if i in draws[j].rows then None else df.columns[j].cells[i])
      && (forall j :: 0 <= j < |df.columns| && df.columns[j].name != TARGET ==>
            && SampleSize(NumRows(df), low) <= |draws[j].rows| <= SampleSize(NumRows(df), high)
            && |ChangedRows(df.columns[j].cells, r.columns[j].cells)| <= SampleSize(NumRows(df), high))
  {
    var r := Injected(df, draws);
    forall j | 0 <= j < |df.columns| && df.columns[j].name != TARGET
      ensures SampleSize(NumRows(df), low) <= |draws[j].rows| <= SampleSize(NumRows(df), high)
      ensures |ChangedRows(df.columns[j].cells, r.columns[j].cells)| <= SampleSize(NumRows(df), high)
    {
      assert ValidDraw(draws[j], NumRows(df), low, high);
      SampleSizeIsMonotone(NumRows(df), low, draws[j].fraction);
      SampleSizeIsMonotone(NumRows(df), draws[j].fraction, high);
      assert r.columns[j] == BlankRows(df.columns[j], draws[j].rows);
      BlankRowsChangesAtMostTheRows(df.columns[j], draws[j].rows);
    }
  }

  // ---------------------------------------------------------------------------------------------
  // plot_valori_lipsa: the report

  /** np.round's rounding of z to an integer: to the nearest, ties to the even neighbour. */
  function RoundHalfEven(z: real): (r: int)
    ensures z - 0.5 <= r as real <= z + 0.5
  {
    var f := z.Floor;
    var frac := z - f as real;
    if frac < 0.5 then f
    else if frac > 0.5 then f + 1
    else if f % 2 == 0 then f else f + 1
  }

  lemma RoundHalfEvenIsMonotone(a: real, b: real)
    requires a <= b
    ensures RoundHalfEven(a) <= RoundHalfEven(b)
  {
  }

  /** `np.round(x, 3)`. */
  function Round3(x: real): (r: real)
    ensures x - 0.0005 <= r <= x + 0.0005
  {
    RoundHalfEven(x * 1000.0) as real / 1000.0
  }

  /** The share of missing cells in percent, rounded to three decimals; a table without rows has
      no missing cells, whose rows the report drops before the share is used. */
  function Percent(count: nat, n: nat): real
  {
    if n == 0 then 0.0 else Round3(count as real / n as real * 100.0)
  }

  /** More missing cells never give a smaller share; below 100000 rows, strictly more give a strictly
      larger share. */
  lemma PercentIsMonotone(c1: nat, c2: nat, n: nat)
    ensures c1 <= c2 ==> Percent(c1, n) <= Percent(c2, n)
    ensures 0 < n < 100000 && c1 < c2 ==> Percent(c1, n) < Percent(c2, n)
  {
    if n > 0 && c1 <= c2 {
      var x1 := c1 as real / n as real * 100.0;
      var x2 := c2 as real / n as real * 100.0;
      ShareIsMonotone(c1, c2, n);
      RoundHalfEvenIsMonotone(x1 * 1000.0, x2 * 1000.0);
      if n < 100000 && c1 < c2 {
        ShareGap(c1, c2, n);
      }
    }
  }

  lemma ShareIsMonotone(c1: nat, c2: nat, n: nat)
    requires 0 < n && c1 <= c2
    ensures c1 as real / n as real * 100.0 <= c2 as real / n as real * 100.0
  {
    assert c1 as real / n as real <= c2 as real / n as real;
  }

  /** Below 100000 rows, one more missing cell moves the share by more than 0.001. */
  lemma ShareGap(c1: nat, c2: nat, n: nat)
    requires 0 < n < 100000 && c1 < c2
    ensures c2 as real / n as real * 100.0 - c1 as real / n as real * 100.0 > 0.001
  {
    var x1 := c1 as real / n as real * 100.0;
    var x2 := c2 as real / n as real * 100.0;
    assert x2 - x1 >= 100.0 / n as real by {
      assert x2 - x1 == (c2 - c1) as real * 100.0 / n as real;
    }
    assert 100.0 / n as real > 0.001;
  }

  /** One bar of the chart: column, missing count, rounded percentage. */
  datatype ReportRow = ReportRow(column: string, missing: nat, percent: real)

  /** `missing_df` before filtering: one row per column, in column order. */
  function MissingTable(t: Table): (r: seq<ReportRow>)
    ensures |r| == |t.columns|
    ensures forall j :: 0 <= j < |t.columns| ==>
      r[j] == ReportRow(t.columns[j].name, MissingCount(t.columns[j].cells), Percent(MissingCount(t.columns[j].cells), NumRows(t)))
  {
    seq(|t.columns|, (j: int) requires 0 <= j < |t.columns| =>
      ReportRow(t.columns[j].name, MissingCount(t.columns[j].cells), Percent(MissingCount(t.columns[j].cells), NumRows(t))))
  }

  /** `missing_df[missing_df['Valori lipsă'] > 0]`. */
  function WithMissing(rows: seq<ReportRow>): (r: seq<ReportRow>)
    ensures forall x :: x in r <==> x in rows && x.missing > 0
  {
    if rows == [] then []
    else
      var rest := WithMissing(rows[..|rows| - 1]);
      var x := rows[|rows| - 1];
      assert rows == rows[..|rows| - 1] + [x];
      if x.missing > 0 then rest + [x] else rest
  }

  predicate PercentDesc(a: ReportRow, b: ReportRow)
  {
    a.percent >= b.percent
  }

  /** The rows of the chart: columns with missing values, by percentage descending, at most five. */
  function MissingReport(t: Table): (r: seq<ReportRow>)
  {
    assert TotalPreorder(PercentDesc);
    Take(InsertionSort(WithMissing(MissingTable(t)), PercentDesc), 5)
  }

  /** The report lists at most five columns, each with its own missing count and percentage and at
      least one missing cell, the largest percentage first. */
  lemma MissingReportRowsAreSortedColumns(t: Table)
    ensures var r := MissingReport(t);
      && |r| <= 5
      && (forall k :: 0 <= k < |r| ==> r[k].missing > 0 && r[k] in MissingTable(t))
      && (forall a, b :: 0 <= a < b < |r| ==> r[a].percent >= r[b].percent)
  {
    var kept := WithMissing(MissingTable(t));
    assert TotalPreorder(PercentDesc);
    var sorted := InsertionSort(kept, PercentDesc);
    SortedKeepsElements(kept, PercentDesc);
    var r := Take(sorted, 5);
    assert forall k :: 0 <= k < |r| ==> r[k] == sorted[k] && sorted[k] in sorted;
    forall a, b | 0 <= a < b < |r| ensures r[a].percent >= r[b].percent {
      assert PercentDesc(sorted[a], sorted[b]);
    }
  }

  /** A column with missing values that the report leaves out has no larger percentage than any
      column shown, and is left out only when five are shown. */
  lemma MissingReportOmitsNoWorseColumn(t: Table, j: nat)
    requires j < |t.columns| && HasMissing(t.columns[j].cells)
    ensures var r := MissingReport(t); var row := MissingTable(t)[j];
      row !in r ==> |r| == 5 && forall k :: 0 <= k < |r| ==> row.percent <= r[k].percent
  {
    var row := MissingTable(t)[j];
    var kept := WithMissing(MissingTable(t));
    assert TotalPreorder(PercentDesc);
    var sorted := InsertionSort(kept, PercentDesc);
    SortedKeepsElements(kept, PercentDesc);
    assert row in kept;
    LeftOutRanksLast(sorted, row, 5);
  }

  /** A row of a sorted chart that the first n leave out ranks no higher than any of them. */
  lemma LeftOutRanksLast(sorted: seq<ReportRow>, row: ReportRow, n: nat)
    requires SortedBy(sorted, PercentDesc) && row in sorted
    ensures var r := Take(sorted, n);
      row !in r ==> |r| == n && forall k :: 0 <= k < |r| ==> row.percent <= r[k].percent
  {
    var r := Take(sorted, n);
    if row !in r {
      var p :| 0 <= p < |sorted| && sorted[p] == row;
      assert p >= |r|;
      forall k | 0 <= k < |r| ensures row.percent <= r[k].percent {
        assert PercentDesc(sorted[k], sorted[p]);
      }
    }
  }

  /** The report is empty, and the chart not drawn, exactly when no column has missing values. */
  lemma MissingReportEmptyExactlyWithoutMissing(t: Table)
    ensures MissingReport(t) == [] <==> forall j :: 0 <= j < |t.columns| ==> !HasMissing(t.columns[j].cells)
  {
    var all := MissingTable(t);
    var kept := WithMissing(all);
    assert TotalPreorder(PercentDesc);
    var sorted := InsertionSort(kept, PercentDesc);
    SortedKeepsElements(kept, PercentDesc);
    if MissingReport(t) == [] {
      assert sorted == [];
      forall j | 0 <= j < |t.columns| ensures !HasMissing(t.columns[j].cells) {
        assert all[j] in all && all[j] !in kept;
      }
    } else {
      assert sorted[0] in kept;
    }
  }

  lemma ReportRowPercent(t: Table, row: ReportRow)
    requires WellFormed(t) && row in MissingTable(t)
    ensures row.percent == Percent(row.missing, NumRows(t)) && row.missing <= NumRows(t)
  {
    var j :| 0 <= j < |t.columns| && MissingTable(t)[j] == row;
  }

  /** With fewer than 100000 rows the percentages separate different counts, so the report is also
      ordered by missing count. */
  lemma MissingReportFollowsCounts(t: Table)
    requires WellFormed(t) && NumRows(t) < 100000
    ensures var r := MissingReport(t);
      forall a, b :: 0 <= a < b < |r| ==> r[a].missing >= r[b].missing
  {
    var r := MissingReport(t);
    MissingReportRowsAreSortedColumns(t);
    forall a, b | 0 <= a < b < |r| ensures r[a].missing >= r[b].missing {
      ReportRowPercent(t, r[a]);
      ReportRowPercent(t, r[b]);
      PercentIsMonotone(r[a].missing, r[b].missing, NumRows(t));
    }
  }

  // ---------------------------------------------------------------------------------------------
  // The total and the duplicates

  /** `df.isnull().sum().sum()`. */
  function TotalMissing(cols: seq<Column>): (r: nat)
  {
    if cols == [] then 0 else TotalMissing(cols[..|cols| - 1]) + MissingCount(cols[|cols| - 1].cells)
  }

  /** The total is zero exactly when no cell is missing, which is when the page reports success. */
  lemma {:induction false} NoMissingExactlyWhenTotalIsZero(cols: seq<Column>)
    ensures TotalMissing(cols) == 0 <==> forall j, i :: 0 <= j < |cols| && 0 <= i < |cols[j].cells| ==> cols[j].cells[i].Some?
    decreases |cols|
  {
    if cols != [] {
      NoMissingExactlyWhenTotalIsZero(cols[..|cols| - 1]);
      assert forall j :: 0 <= j < |cols| - 1 ==> cols[..|cols| - 1][j] == cols[j];
    }
  }

  /** `duplicated()` with keep="first": an element is marked when an equal one comes before it. */
  function DuplicateMask<T(==)>(s: seq<T>): (r: seq<bool>)
    ensures |r| == |s|
    ensures forall i :: 0 <= i < |s| ==> r[i] == (s[i] in s[..i])
  {
    if s == [] then []
    else
      var init := s[..|s| - 1];
      var r := DuplicateMask(init);
      assert forall i :: 0 <= i < |init| ==> init[..i] == s[..i];
      r + [s[|s| - 1] in init]
  }

  /** The rows of a table, as sequences of cells. */
  function Rows(t: Table): (r: seq<seq<Cell>>)
    requires WellFormed(t)
    ensures |r| == NumRows(t) && forall i :: 0 <= i < NumRows(t) ==> r[i] == RowAt(t, i)
  {
    seq(NumRows(t), (i: int) requires 0 <= i < NumRows(t) => RowAt(t, i))
  }

  /** `df.duplicated().sum()`. */
  function DuplicateCount(t: Table): nat
    requires WellFormed(t)
  {
    |TrueIndices(DuplicateMask(Rows(t)))|
  }

  /** `df[df.duplicated()]`: the marked rows with their index labels. */
  function DuplicateRows(t: Table): (r: Table)
    requires WellFormed(t)
  {
    GatherRows(t, TrueIndices(DuplicateMask(Rows(t))))
  }

  lemma {:induction false} MarkedPlusDistinct<T(!new)>(s: seq<T>)
    ensures |TrueIndices(DuplicateMask(s))| + |Distinct(s)| == |s|
    decreases |s|
  {
    if s != [] {
      var init := s[..|s| - 1];
      MarkedPlusDistinct(init);
      var m := DuplicateMask(s);
      assert m[..|m| - 1] == DuplicateMask(init);
    }
  }

  /** The duplicate count is the number of rows less the number of distinct rows. */
  lemma DuplicateCountIsRowsLessDistinct(t: Table)
    requires WellFormed(t)
    ensures DuplicateCount(t) == NumRows(t) - |Distinct(Rows(t))|
  {
    MarkedPlusDistinct(Rows(t));
  }

  /** The rows shown are exactly the rows equal to an earlier row, in table order, and there are as
      many as the count says. */
  lemma DuplicateRowsAreTheRepeats(t: Table)
    requires WellFormed(t)
    ensures var d := TrueIndices(DuplicateMask(Rows(t)));
      && NumRows(DuplicateRows(t)) == DuplicateCount(t)
      && Increasing(d)
      && forall i :: 0 <= i < NumRows(t) ==> (i in d <==> exists k :: 0 <= k < i && RowAt(t, k) == RowAt(t, i))
  {
    var rows := Rows(t);
    var m := DuplicateMask(rows);
    forall i | 0 <= i < NumRows(t) ensures m[i] <==> exists k :: 0 <= k < i && RowAt(t, k) == RowAt(t, i) {
      if m[i] {
        var k :| 0 <= k < i && rows[..i][k] == rows[i];
        assert RowAt(t, k) == RowAt(t, i);
      }
      if exists k :: 0 <= k < i && RowAt(t, k) == RowAt(t, i) {
        var k :| 0 <= k < i && RowAt(t, k) == RowAt(t, i);
        assert rows[..i][k] == rows[i];
      }
    }
  }
}
