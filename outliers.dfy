/**
 * Outlier handling, the first preprocessing stage (tratare_outlieri_df, pages/11_procesare.py:29-72).
 * The stage visits the int64/float64 columns other than Target in order and applies one policy to
 * each, recomputing Tukey's fences on the table as the previous columns left it.
 */
module Outliers {
  import opened Seqs
  import opened Frames

  datatype OutlierPolicy = RemoveRows | MaskAsMissing | LogTransform | Capping | Keep | Unrecognised

  /** The policy a select-box string names; a string none of the branches compares equal to changes nothing. */
  function ParseOutlierPolicy(name: string): OutlierPolicy
  {
    if name == "Eliminare rânduri cu outlieri" then RemoveRows
    else if name == "Înlocuire cu NaN" then MaskAsMissing
    else if name == "Transformare logaritmică" then LogTransform
    else if name == "Capping (1%-99%)" then Capping
    else if name == "Păstrare" then Keep
    else Unrecognised
  }

  /** The select-box string of each recognised policy. */
  function OutlierPolicyName(p: OutlierPolicy): (name: string)
    requires !p.Unrecognised?
    ensures ParseOutlierPolicy(name) == p
  {
    match p
    case RemoveRows => "Eliminare rânduri cu outlieri"
    case MaskAsMissing => "Înlocuire cu NaN"
    case LogTransform => "Transformare logaritmică"
    case Capping => "Capping (1%-99%)"
    case Keep => "Păstrare"
  }

  /** The columns the loop visits: select_dtypes(["float64", "int64"]) without Target. */
  predicate Eligible(c: Column)
  {
    IsFloatOrInt(c.dtype) && c.name != TARGET
  }

  /** Tukey's fences [Q1 - 1.5 IQR, Q3 + 1.5 IQR]; they enclose [Q1, Q3] whenever Q1 <= Q3. */
  function Fences(quantile: (seq<Cell>, real) -> real, cells: seq<Cell>): (f: (real, real))
    ensures quantile(cells, 0.25) <= quantile(cells, 0.75) ==>
      f.0 <= quantile(cells, 0.25) && quantile(cells, 0.75) <= f.1
  {
    var q1 := quantile(cells, 0.25);
    var q3 := quantile(cells, 0.75);
    var iqr := q3 - q1;
    (q1 - 1.5 * iqr, q3 + 1.5 * iqr)
  }

  /** (x >= lower) & (x <= upper): false for a missing cell. */
  predicate WithinFences(c: Cell, f: (real, real))
  {
    c.Some? && c.value.Num? && f.0 <= c.value.x <= f.1
  }

  /** (x < lower) | (x > upper): false for a missing cell. */
  predicate OutsideFences(c: Cell, f: (real, real))
  {
    c.Some? && c.value.Num? && (c.value.x < f.0 || c.value.x > f.1)
  }

  /** np.clip(x, lo, hi), that is minimum(maximum(x, lo), hi); a missing cell stays missing. */
  function Clip(c: Cell, lo: real, hi: real): (r: Cell)
    ensures c.None? ==> r.None?
    ensures lo <= hi && c.Some? && c.value.Num? ==> r.Some? && r.value.Num? && lo <= r.value.x <= hi
    ensures c.Some? && c.value.Num? && lo <= c.value.x <= hi ==> r == c
  {
    match c
    case Some(Num(x)) =>
      var m := if x < lo then lo else x;
      Some(Num(if m > hi then hi else m))
    case _ => c
  }

  /** np.log1p of one cell; NaN results are missing. */
  function Log1pCell(log1p: real -> Option<real>, c: Cell): (r: Cell)
  {
    match c
    case Some(Num(x)) => (match log1p(x) case None => None case Some(y) => Some(Num(y)))
    case _ => c
  }

  /** The new cells of an eligible column under a policy that keeps every row. */
  function RewrittenCells(cells: seq<Cell>, p: OutlierPolicy, num: Numerics): (r: seq<Cell>)
    requires p.MaskAsMissing? || p.LogTransform? || p.Capping?
    ensures |r| == |cells|
  {
    match p
    case MaskAsMissing =>
      var f := Fences(num.quantile, cells);
      seq(|cells|, (i: int) requires 0 <= i < |cells| => if OutsideFences(cells[i], f) then None else cells[i])
    case LogTransform =>
      seq(|cells|, (i: int) requires 0 <= i < |cells| => Log1pCell(num.log1p, cells[i]))
    case Capping =>
      var lo := num.quantile(cells, 0.01);
      var hi := num.quantile(cells, 0.99);
      seq(|cells|, (i: int) requires 0 <= i < |cells| => Clip(cells[i], lo, hi))
  }

  /** Some present value lies strictly outside the fences, so `.mask` writes at least one NaN. */
  predicate HasOutliers(cells: seq<Cell>, f: (real, real))
  {
    exists i :: 0 <= i < |cells| && OutsideFences(cells[i], f)
  }

  /** The dtype of a rewritten column: log1p and clipping by the float percentiles give float64, and
      `.mask` gives float64 once it writes a NaN; a mask that writes none keeps the dtype. */
  function RewrittenDtype(c: Column, p: OutlierPolicy, num: Numerics): Dtype
    requires p.MaskAsMissing? || p.LogTransform? || p.Capping?
  {
    if p.MaskAsMissing? && !HasOutliers(c.cells, Fences(num.quantile, c.cells)) then c.dtype else Float64
  }

  /** `df[col] = ...` under a policy that keeps every row: new cells, and the dtype pandas gives them. */
  function Rewritten(c: Column, p: OutlierPolicy, num: Numerics): Column
    requires p.MaskAsMissing? || p.LogTransform? || p.Capping?
  {
    Column(c.name, RewrittenDtype(c, p, num), RewrittenCells(c.cells, p, num))
  }

  /** r has t's columns, in order and by name, with the same dtypes except that a column the stage
      treats may have become float64. */
  predicate Widened(r: Table, t: Table)
  {
    && |r.columns| == |t.columns|
    && forall j :: 0 <= j < |r.columns| ==>
         && r.columns[j].name == t.columns[j].name
         && (r.columns[j].dtype == t.columns[j].dtype || (Eligible(t.columns[j]) && r.columns[j].dtype == Float64))
  }

  function FenceMask(cells: seq<Cell>, f: (real, real)): (m: seq<bool>)
    ensures |m| == |cells|
    ensures forall i :: 0 <= i < |cells| ==> m[i] == WithinFences(cells[i], f)
  {
    seq(|cells|, (i: int) requires 0 <= i < |cells| => WithinFences(cells[i], f))
  }

  /** The positions of the rows whose value in column j lies within that column's fences. */
  function FencedRows(t: Table, j: nat, num: Numerics): (s: seq<nat>)
    requires WellFormed(t) && j < |t.columns|
    ensures Increasing(s) && AllBelow(s, NumRows(t))
    ensures forall k :: 0 <= k < |s| ==> WithinFences(t.columns[j].cells[s[k]], Fences(num.quantile, t.columns[j].cells))
    ensures forall i :: 0 <= i < NumRows(t) ==>
      (i in s <==> WithinFences(t.columns[j].cells[i], Fences(num.quantile, t.columns[j].cells)))
  {
    var cells := t.columns[j].cells;
    TrueIndices(FenceMask(cells, Fences(num.quantile, cells)))
  }

  /** One iteration of the loop: column j of the table as the earlier iterations left it. */
  function OutlierStep(t: Table, j: nat, p: OutlierPolicy, num: Numerics): (r: Table)
    requires WellFormed(t) && j < |t.columns|
    ensures WellFormed(r) && |r.columns| == |t.columns|
    ensures !p.RemoveRows? ==> r.index == t.index
  {
    var c := t.columns[j];
    if !Eligible(c) then t
    else match p
      case RemoveRows => GatherRows(t, FencedRows(t, j, num))
      case MaskAsMissing => SetColumn(t, j, Rewritten(c, p, num))
      case LogTransform => SetColumn(t, j, Rewritten(c, p, num))
      case Capping => SetColumn(t, j, Rewritten(c, p, num))
      case Keep => t
      case Unrecognised => t
  }

  /** The table after the loop has visited the first k columns. Rows are only ever removed, and only
      by RemoveRows. */
  function OutliersUpTo(t: Table, p: OutlierPolicy, num: Numerics, k: nat): (r: Table)
    requires WellFormed(t) && k <= |t.columns|
    ensures WellFormed(r) && |r.columns| == |t.columns|
    ensures NumRows(r) <= NumRows(t)
    ensures !p.RemoveRows? ==> r.index == t.index
    decreases k
  {
    if k == 0 then t else OutlierStep(OutliersUpTo(t, p, num, k - 1), k - 1, p, num)
  }

  /** After any number of columns the names and their order are kept, and so is every dtype except
      that a treated column may have become float64. */
  lemma {:induction false} OutliersUpToWidens(t: Table, p: OutlierPolicy, num: Numerics, k: nat)
    requires WellFormed(t) && k <= |t.columns|
    ensures Widened(OutliersUpTo(t, p, num, k), t)
    decreases k
  {
    if k > 0 {
      var j := k - 1;
      OutliersUpToWidens(t, p, num, j);
      var prev := OutliersUpTo(t, p, num, j);
      assert OutliersUpTo(t, p, num, k) == OutlierStep(prev, j, p, num);
      assert Widened(OutlierStep(prev, j, p, num), prev);
    }
  }

  function HandleOutliers(t: Table, p: OutlierPolicy, num: Numerics): (r: Table)
    requires WellFormed(t)
  {
    OutliersUpTo(t, p, num, |t.columns|)
  }

  /** tratare_outlieri_df: copy the table, then treat its numeric columns one after another. */
  method TreatOutliers(df: Table, strategy: OutlierPolicy, num: Numerics) returns (r: Table)
    requires WellFormed(df)
    ensures r == HandleOutliers(df, strategy, num)
  {
    r := df;
    var j := 0;
    while j < |df.columns|
      invariant 0 <= j <= |df.columns|
      invariant r == OutliersUpTo(df, strategy, num, j)
    {
      OutliersNext(df, strategy, num, j);
      r := TreatColumn(r, j, strategy, num);
      j := j + 1;
    }
  }

  /** The body of the column loop: the policy applied to column j if it is numeric and not Target. */
  method TreatColumn(r: Table, j: nat, strategy: OutlierPolicy, num: Numerics) returns (r': Table)
    requires WellFormed(r) && j < |r.columns|
    ensures r' == OutlierStep(r, j, strategy, num)
  {
    r' := r;
    var col := r.columns[j];
    if IsFloatOrInt(col.dtype) && col.name != TARGET {
      if strategy == RemoveRows {
        r' := GatherRows(r, FencedRows(r, j, num));
      } else if strategy == MaskAsMissing || strategy == LogTransform || strategy == Capping {
        r' := SetColumn(r, j, Rewritten(col, strategy, num));
      }
    }
  }

  /** OutliersUpTo one column further is one more OutlierStep. */
  lemma OutliersNext(t: Table, p: OutlierPolicy, num: Numerics, j: nat)
    requires WellFormed(t) && j < |t.columns|
    ensures OutliersUpTo(t, p, num, j + 1) == OutlierStep(OutliersUpTo(t, p, num, j), j, p, num)
  {
  }

  // ---------------------------------------------------------------------------------------------
  // Policies that keep every row act column by column on the input's own columns.

  /** The column a row-keeping policy leaves in place of c. */
  function TreatedColumn(c: Column, p: OutlierPolicy, num: Numerics): Column
    requires !p.RemoveRows?
  {
    if !Eligible(c) || p.Keep? || p.Unrecognised? then c else Rewritten(c, p, num)
  }

  lemma {:induction false} TreatedUpTo(t: Table, p: OutlierPolicy, num: Numerics, k: nat)
    requires WellFormed(t) && k <= |t.columns| && !p.RemoveRows?
    ensures var r := OutliersUpTo(t, p, num, k);
      forall j :: 0 <= j < |t.columns| ==> r.columns[j] == if j < k then TreatedColumn(t.columns[j], p, num) else t.columns[j]
    decreases k
  {
    if k > 0 {
      var j := k - 1;
      TreatedUpTo(t, p, num, j);
      TreatedStep(t, p, num, j);
    }
  }

  /** The step of TreatedUpTo: iteration j treats column j and leaves the others as they were. */
  lemma TreatedStep(t: Table, p: OutlierPolicy, num: Numerics, j: nat)
    requires WellFormed(t) && j < |t.columns| && !p.RemoveRows?
    requires var r := OutliersUpTo(t, p, num, j);
      forall m :: 0 <= m < |t.columns| ==> r.columns[m] == if m < j then TreatedColumn(t.columns[m], p, num) else t.columns[m]
    ensures var r := OutliersUpTo(t, p, num, j + 1);
      forall m :: 0 <= m < |t.columns| ==> r.columns[m] == if m < j + 1 then TreatedColumn(t.columns[m], p, num) else t.columns[m]
  {
    var prev := OutliersUpTo(t, p, num, j);
    assert prev.columns[j] == t.columns[j];
    OutliersNext(t, p, num, j);
  }

  /** Under every policy but RemoveRows, the index is kept and each column is treated on its own,
      with fences and percentiles computed on the input column. */
  lemma OutliersColumnwise(t: Table, p: OutlierPolicy, num: Numerics)
    requires WellFormed(t) && !p.RemoveRows?
    ensures var r := HandleOutliers(t, p, num);
      && r.index == t.index
      && |r.columns| == |t.columns|
      && forall j :: 0 <= j < |t.columns| ==> r.columns[j] == TreatedColumn(t.columns[j], p, num)
  {
    TreatedUpTo(t, p, num, |t.columns|);
  }

  /** "Păstrare" and any unrecognised policy string return the input unchanged. */
  lemma KeepIsIdentity(t: Table, p: OutlierPolicy, num: Numerics)
    requires WellFormed(t) && (p.Keep? || p.Unrecognised?)
    ensures HandleOutliers(t, p, num) == t
  {
    var r := HandleOutliers(t, p, num);
    OutliersColumnwise(t, p, num);
    assert r.columns == t.columns;
  }

  /** "Înlocuire cu NaN" makes missing exactly the values strictly outside their column's fences;
      every other cell, and every row, stays. */
  lemma MaskingMissesExactlyOutliers(t: Table, num: Numerics)
    requires WellFormed(t)
    ensures var r := HandleOutliers(t, MaskAsMissing, num);
      && r.index == t.index
      && |r.columns| == |t.columns|
      && (forall j :: 0 <= j < |t.columns| ==>
           var c := t.columns[j];
           && r.columns[j].name == c.name
           && r.columns[j].dtype == if Eligible(c) && HasOutliers(c.cells, Fences(num.quantile, c.cells)) then Float64 else c.dtype)
      && forall j, i :: 0 <= j < |t.columns| && 0 <= i < NumRows(t) ==>
           var c := t.columns[j];
           r.columns[j].cells[i] == if Eligible(c) && OutsideFences(c.cells[i], Fences(num.quantile, c.cells)) then None else c.cells[i]
  {
    OutliersColumnwise(t, MaskAsMissing, num);
  }

  /** "Transformare logaritmică" replaces each value of a treated column by its log1p (missing where
      that is NaN) and makes the column float64; every other column, and every row, stays. */
  lemma LogTransformMakesFloat(t: Table, num: Numerics)
    requires WellFormed(t)
    ensures var r := HandleOutliers(t, LogTransform, num);
      && r.index == t.index
      && |r.columns| == |t.columns|
      && forall j :: 0 <= j < |t.columns| ==>
           var c := t.columns[j];
           if Eligible(c) then
             && r.columns[j].name == c.name && r.columns[j].dtype == Float64
             && |r.columns[j].cells| == |c.cells|
             && forall i :: 0 <= i < |c.cells| ==> r.columns[j].cells[i] == Log1pCell(num.log1p, c.cells[i])
           else r.columns[j] == c
  {
    OutliersColumnwise(t, LogTransform, num);
  }

  /** The quantile routine is monotone in its probability argument. */
  ghost predicate MonotoneQuantile(num: Numerics)
  {
    forall cells, a, b :: 0.0 <= a <= b <= 1.0 ==> num.quantile(cells, a) <= num.quantile(cells, b)
  }

  /** "Capping (1%-99%)" leaves each numeric value of a treated column within the 1st and 99th
      percentiles of the input column, changes no value already within them, and keeps every row. */
  lemma CappingStaysWithinPercentiles(t: Table, num: Numerics)
    requires WellFormed(t) && MonotoneQuantile(num)
    ensures var r := HandleOutliers(t, Capping, num);
      && r.index == t.index
      && |r.columns| == |t.columns|
      && (forall j :: 0 <= j < |t.columns| ==>
           r.columns[j].name == t.columns[j].name && r.columns[j].dtype == if Eligible(t.columns[j]) then Float64 else t.columns[j].dtype)
      && forall j, i :: 0 <= j < |t.columns| && 0 <= i < NumRows(t) && Eligible(t.columns[j]) ==>
           var c := t.columns[j].cells;
           var lo, hi := num.quantile(c, 0.01), num.quantile(c, 0.99);
           && (c[i].Some? && c[i].value.Num? ==>
                 (r.columns[j].cells[i].Some? && r.columns[j].cells[i].value.Num? && lo <= r.columns[j].cells[i].value.x <= hi))
           && (c[i].Some? && c[i].value.Num? && lo <= c[i].value.x <= hi ==> r.columns[j].cells[i] == c[i])
           && (c[i].None? ==> r.columns[j].cells[i].None?)
  {
    OutliersColumnwise(t, Capping, num);
  }

  // ---------------------------------------------------------------------------------------------
  // RemoveRows selects rows and changes no value.

  /** The positions, in the input, of the rows still present after the first k columns. */
  function Survivors(t: Table, num: Numerics, k: nat): (s: seq<nat>)
    requires WellFormed(t) && k <= |t.columns|
    ensures Increasing(s) && AllBelow(s, NumRows(t))
    ensures |s| == NumRows(OutliersUpTo(t, RemoveRows, num, k))
    decreases k
  {
    if k == 0 then Range(NumRows(t))
    else
      var prev := Survivors(t, num, k - 1);
      var tk := OutliersUpTo(t, RemoveRows, num, k - 1);
      if Eligible(tk.columns[k - 1]) then
        var keep := FencedRows(tk, k - 1, num);
        PickPick(Range(NumRows(t)), prev, keep);
        PickIncreasing(prev, keep);
        Pick(prev, keep)
      else prev
  }

  lemma GatherTwice(t: Table, u: Table, a: seq<nat>, b: seq<nat>)
    requires WellFormed(t) && AllBelow(a, NumRows(t)) && u == GatherRows(t, a) && AllBelow(b, NumRows(u))
    ensures AllBelow(Pick(a, b), NumRows(t))
    ensures GatherRows(u, b) == GatherRows(t, Pick(a, b))
  {
    PickPick(t.index, a, b);
    forall j | 0 <= j < |t.columns|
      ensures GatherRows(GatherRows(t, a), b).columns[j] == GatherRows(t, Pick(a, b)).columns[j]
    {
      PickPick(t.columns[j].cells, a, b);
    }
  }

  /** After any number of columns, RemoveRows has selected rows of the input and changed no value. */
  lemma {:induction false} RemovalSelectsSurvivors(t: Table, num: Numerics, k: nat)
    requires WellFormed(t) && k <= |t.columns|
    ensures OutliersUpTo(t, RemoveRows, num, k) == GatherRows(t, Survivors(t, num, k))
    decreases k
  {
    if k > 0 {
      RemovalSelectsSurvivors(t, num, k - 1);
    }
    SurvivorsStep(t, num, k);
  }

  /** Before the first column every row survives. */
  lemma NoneRemovedYet(t: Table, num: Numerics)
    requires WellFormed(t)
    ensures OutliersUpTo(t, RemoveRows, num, 0) == GatherRows(t, Survivors(t, num, 0))
  {
    GatherAllRows(t);
  }

  /** Gathering every row in order gives the table back. */
  lemma GatherAllRows(t: Table)
    requires WellFormed(t)
    ensures GatherRows(t, Range(NumRows(t))) == t
  {
    var g := GatherRows(t, Range(NumRows(t)));
    PickRange(t.index);
    forall j | 0 <= j < |t.columns| ensures g.columns[j] == t.columns[j] {
      PickRange(t.columns[j].cells);
    }
    assert g.columns == t.columns;
  }

  /** The step of RemovalSelectsSurvivors: the rows column k - 1 keeps, taken from the survivors of
      the earlier columns, are the survivors after it. */
  lemma SurvivorsStep(t: Table, num: Numerics, k: nat)
    requires WellFormed(t) && k <= |t.columns|
    requires k > 0 ==> OutliersUpTo(t, RemoveRows, num, k - 1) == GatherRows(t, Survivors(t, num, k - 1))
    ensures OutliersUpTo(t, RemoveRows, num, k) == GatherRows(t, Survivors(t, num, k))
  {
    if k == 0 {
      NoneRemovedYet(t, num);
      return;
    }
    var prev := Survivors(t, num, k - 1);
    var tk := OutliersUpTo(t, RemoveRows, num, k - 1);
    if Eligible(tk.columns[k - 1]) {
      var keep := FencedRows(tk, k - 1, num);
      GatherTwice(t, tk, prev, keep);
      assert OutliersUpTo(t, RemoveRows, num, k) == GatherRows(tk, keep);
      assert Survivors(t, num, k) == Pick(prev, keep);
    } else {
      assert OutliersUpTo(t, RemoveRows, num, k) == tk;
      assert Survivors(t, num, k) == prev;
    }
  }

  /** One RemoveRows step keeps exactly the rows whose value lies in the closed fence interval of
      the column as the earlier steps left it; a missing value fails both comparisons and is dropped. */
  lemma RemovalStepKeepsExactlyFencedRows(t: Table, j: nat, num: Numerics)
    requires WellFormed(t) && j < |t.columns| && Eligible(t.columns[j])
    ensures var s := FencedRows(t, j, num);
      && OutlierStep(t, j, RemoveRows, num) == GatherRows(t, s)
      && forall i :: 0 <= i < NumRows(t) ==>
           (i in s <==> WithinFences(t.columns[j].cells[i], Fences(num.quantile, t.columns[j].cells)))
  {
  }

  /** Every value of column j lies within the interval f. */
  predicate ColumnFenced(r: Table, j: nat, f: (real, real))
    requires WellFormed(r) && j < |r.columns|
  {
    forall i :: 0 <= i < NumRows(r) ==> WithinFences(r.columns[j].cells[i], f)
  }

  lemma RemovalStepKeepsFenced(r: Table, m: nat, num: Numerics, j: nat, f: (real, real))
    requires WellFormed(r) && m < |r.columns| && j < |r.columns|
    requires ColumnFenced(r, j, f) || (m == j && Eligible(r.columns[j]) && f == Fences(num.quantile, r.columns[j].cells))
    ensures ColumnFenced(OutlierStep(r, m, RemoveRows, num), j, f)
  {
    var r' := OutlierStep(r, m, RemoveRows, num);
    if Eligible(r.columns[m]) {
      var keep := FencedRows(r, m, num);
      forall i | 0 <= i < NumRows(r') ensures WithinFences(r'.columns[j].cells[i], f) {
        assert r'.columns[j].cells[i] == r.columns[j].cells[keep[i]];
      }
    }
  }

  /** Once column j is fenced by f, the later RemoveRows steps keep it so. */
  lemma {:induction false} FencedFrom(t: Table, num: Numerics, j: nat, k: nat, f: (real, real))
    requires WellFormed(t) && j < k <= |t.columns|
    requires ColumnFenced(OutliersUpTo(t, RemoveRows, num, j + 1), j, f)
    ensures ColumnFenced(OutliersUpTo(t, RemoveRows, num, k), j, f)
    decreases k
  {
    if k > j + 1 {
      var p := k - 1;
      FencedFrom(t, num, j, p, f);
      RemovalStepKeepsFenced(OutliersUpTo(t, RemoveRows, num, p), p, num, j, f);
    }
  }

  lemma FencedStaysFenced(t: Table, num: Numerics, j: nat, k: nat)
    requires WellFormed(t) && j < k <= |t.columns|
    requires Eligible(t.columns[j])
    ensures ColumnFenced(OutliersUpTo(t, RemoveRows, num, k), j,
                         Fences(num.quantile, OutliersUpTo(t, RemoveRows, num, j).columns[j].cells))
  {
    var prev := OutliersUpTo(t, RemoveRows, num, j);
    var f := Fences(num.quantile, prev.columns[j].cells);
    OutliersUpToWidens(t, RemoveRows, num, j);
    assert Eligible(prev.columns[j]);
    RemovalStepKeepsFenced(prev, j, num, j, f);
    FencedFrom(t, num, j, k, f);
  }

  /** After "Eliminare rânduri cu outlieri", every value left in a treated column lies within the fences
      that column had when the loop reached it (so none is missing), values are never changed, and
      the rows kept are input rows in their original order. */
  lemma RemovalKeepsOnlyFencedRows(t: Table, num: Numerics)
    requires WellFormed(t)
    ensures var r := HandleOutliers(t, RemoveRows, num);
      && r == GatherRows(t, Survivors(t, num, |t.columns|))
      && NumRows(r) <= NumRows(t)
      && forall j, i :: 0 <= j < |t.columns| && Eligible(t.columns[j]) && 0 <= i < NumRows(r) ==>
           WithinFences(r.columns[j].cells[i], Fences(num.quantile, OutliersUpTo(t, RemoveRows, num, j).columns[j].cells))
  {
    RemovalSelectsSurvivors(t, num, |t.columns|);
    forall j | 0 <= j < |t.columns| && Eligible(t.columns[j]) {
      FencedStaysFenced(t, num, j, |t.columns|);
    }
  }

  // ---------------------------------------------------------------------------------------------
  // Target and non-numeric columns.

  /** The positions, in the input, of the rows the stage keeps. */
  function KeptRows(t: Table, p: OutlierPolicy, num: Numerics): (s: seq<nat>)
    requires WellFormed(t)
    ensures Increasing(s) && AllBelow(s, NumRows(t))
  {
    if p.RemoveRows? then Survivors(t, num, |t.columns|) else Range(NumRows(t))
  }

  /** No policy changes a value of Target or of a column that is not int64/float64: each kept row
      carries its original values and index label there. */
  lemma OutliersNeverTouchTargetOrNonNumeric(t: Table, p: OutlierPolicy, num: Numerics)
    requires WellFormed(t)
    ensures var r := HandleOutliers(t, p, num);
      var s := KeptRows(t, p, num);
      && r.index == Pick(t.index, s)
      && |r.columns| == |t.columns|
      && forall j :: 0 <= j < |t.columns| && !Eligible(t.columns[j]) ==>
           r.columns[j] == t.columns[j].(cells := Pick(t.columns[j].cells, s))
  {
    if p.RemoveRows? {
      RemovalSelectsSurvivors(t, num, |t.columns|);
    } else {
      OutliersColumnwise(t, p, num);
      PickRange(t.index);
      forall j | 0 <= j < |t.columns| {
        PickRange(t.columns[j].cells);
      }
    }
  }
}
