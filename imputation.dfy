/**
 * Missing-value imputation, the second preprocessing stage (tratare_valori_lipsa_df,
 * pages/11_procesare.py:75-111): a pass over the numeric columns with the chosen strategy, then a
 * pass over the object, category and bool columns that always fills with the mode.
 */
module Imputation {
  import opened Seqs
  import opened Frames
  import opened ValueOrder

  datatype FillStrategy = FillMean | FillMedian | FillMode | UnrecognisedFill

  /** The strategy a select-box string names; any other string fills no numeric column. */
  function ParseFillStrategy(name: string): FillStrategy
  {
    if name == "Medie" then FillMean
    else if name == "Mediană" then FillMedian
    else if name == "Mod" then FillMode
    else UnrecognisedFill
  }

  function FillStrategyName(s: FillStrategy): (name: string)
    requires !s.UnrecognisedFill?
    ensures ParseFillStrategy(name) == s
  {
    match s
    case FillMean => "Medie"
    case FillMedian => "Mediană"
    case FillMode => "Mod"
  }

  /** The two loops of the stage: select_dtypes(np.number) with the chosen strategy, then
      select_dtypes(["object", "category", "bool"]) with the mode. */
  datatype Pass = NumericPass(strategy: FillStrategy) | ObjectPass

  predicate Selects(pass: Pass, d: Dtype)
  {
    match pass
    case NumericPass(_) => IsNumber(d)
    case ObjectPass => IsObjectLike(d)
  }

  /** The pass fills with `mode()[0]`, which raises on a column without values. */
  predicate UsesMode(pass: Pass)
  {
    pass.ObjectPass? || pass.strategy.FillMode?
  }

  /** fillna(v). */
  function FillMissing(cells: seq<Cell>, v: Value): (r: seq<Cell>)
    ensures |r| == |cells|
    ensures forall i :: 0 <= i < |cells| ==> r[i] == if cells[i].None? then Some(v) else cells[i]
  {
    seq(|cells|, (i: int) requires 0 <= i < |cells| => if cells[i].None? then Some(v) else cells[i])
  }

  /**
   * One column under one pass. Only a selected column other than Target that has a missing cell is
   * touched; present cells never change. The mean and the median of a column without values are NaN,
   * so filling with them changes nothing; the mode of such a column does not exist and the pass fails.
   */
  function ImputeColumn(c: Column, pass: Pass, num: Numerics): (r: Result<seq<Cell>>)
    ensures r.Failure? <==>
      Selects(pass, c.dtype) && c.name != TARGET && HasMissing(c.cells) && !HasPresent(c.cells) && UsesMode(pass)
    ensures r.Failure? ==> r.error == EmptyMode(c.name)
    ensures r.Success? ==> |r.value| == |c.cells|
    ensures r.Success? ==> forall i :: 0 <= i < |c.cells| && c.cells[i].Some? ==> r.value[i] == c.cells[i]
    ensures !Selects(pass, c.dtype) || c.name == TARGET || !HasMissing(c.cells) ==> r == Success(c.cells)
    ensures r.Success? && Selects(pass, c.dtype) && c.name != TARGET && HasPresent(c.cells) && pass != NumericPass(UnrecognisedFill) ==>
      forall i :: 0 <= i < |c.cells| ==> r.value[i].Some?
    ensures r.Success? && Selects(pass, c.dtype) && c.name != TARGET && HasMissing(c.cells) && UsesMode(pass) ==>
      MostFrequent(c.cells).Some? && forall i :: 0 <= i < |c.cells| && c.cells[i].None? ==> r.value[i] == Some(MostFrequent(c.cells).value)
    ensures r.Success? && pass == NumericPass(FillMean) && IsNumber(c.dtype) && c.name != TARGET && HasPresent(c.cells) ==>
      forall i :: 0 <= i < |c.cells| && c.cells[i].None? ==> r.value[i] == Some(Num(num.mean(c.cells)))
    ensures r.Success? && pass == NumericPass(FillMedian) && IsNumber(c.dtype) && c.name != TARGET && HasPresent(c.cells) ==>
      forall i :: 0 <= i < |c.cells| && c.cells[i].None? ==> r.value[i] == Some(Num(num.median(c.cells)))
  {
    if !Selects(pass, c.dtype) || c.name == TARGET || !HasMissing(c.cells) then Success(c.cells)
    else if UsesMode(pass) then
      match MostFrequent(c.cells)
      case None => Failure(EmptyMode(c.name))
      case Some(m) => Success(FillMissing(c.cells, m))
    else if !HasPresent(c.cells) then Success(c.cells)
    else match pass.strategy
      case FillMean => Success(FillMissing(c.cells, Num(num.mean(c.cells))))
      case FillMedian => Success(FillMissing(c.cells, Num(num.median(c.cells))))
      case UnrecognisedFill => Success(c.cells)
  }

  /** The table after a pass has visited its first k columns; the first failure ends the pass. */
  function PassUpTo(t: Table, pass: Pass, num: Numerics, k: nat): (r: Result<Table>)
    requires WellFormed(t) && k <= |t.columns|
    ensures r.Success? ==> WellFormed(r.value) && SameSchema(r.value, t) && r.value.index == t.index
    decreases k
  {
    if k == 0 then Success(t)
    else match PassUpTo(t, pass, num, k - 1)
      case Failure(e) => Failure(e)
      case Success(u) =>
        match ImputeColumn(u.columns[k - 1], pass, num)
        case Failure(e) => Failure(e)
        case Success(cells) => Success(SetCells(u, k - 1, cells))
  }

  /** tratare_valori_lipsa_df. */
  function HandleMissing(t: Table, s: FillStrategy, num: Numerics): Result<Table>
    requires WellFormed(t)
  {
    match PassUpTo(t, NumericPass(s), num, |t.columns|)
    case Failure(e) => Failure(e)
    case Success(u) => PassUpTo(u, ObjectPass, num, |u.columns|)
  }

  lemma {:induction false} FailurePersists(t: Table, pass: Pass, num: Numerics, j: nat, k: nat)
    requires WellFormed(t) && j <= k <= |t.columns| && PassUpTo(t, pass, num, j).Failure?
    ensures PassUpTo(t, pass, num, k) == PassUpTo(t, pass, num, j)
    decreases k
  {
    if k > j {
      FailurePersists(t, pass, num, j, k - 1);
    }
  }

  /** One loop of the stage. */
  method RunPass(df: Table, pass: Pass, num: Numerics) returns (r: Result<Table>)
    requires WellFormed(df)
    ensures r == PassUpTo(df, pass, num, |df.columns|)
  {
    r := Success(df);
    var j := 0;
    while j < |df.columns| && r.Success?
      invariant 0 <= j <= |df.columns|
      invariant r == PassUpTo(df, pass, num, j)
    {
      PassNext(df, pass, num, j);
      r := PassColumn(r.value, j, pass, num);
      j := j + 1;
    }
    if r.Failure? {
      FailurePersists(df, pass, num, j, |df.columns|);
    }
  }

  /** One turn of the column loop: a column the pass selects, other than Target and with a missing
      cell, is filled or ends the pass; any other column is left as it is. */
  method PassColumn(cur: Table, j: nat, pass: Pass, num: Numerics) returns (r: Result<Table>)
    requires WellFormed(cur) && j < |cur.columns|
    ensures r == match ImputeColumn(cur.columns[j], pass, num)
      case Failure(e) => Failure(e)
      case Success(cells) => Success(SetCells(cur, j, cells))
  {
    var col := cur.columns[j];
    if Selects(pass, col.dtype) && col.name != TARGET && HasMissing(col.cells) {
      match ImputeColumn(col, pass, num)
      case Failure(e) =>
        r := Failure(e);
      case Success(cells) =>
        r := Success(SetCells(cur, j, cells));
    } else {
      assert SetCells(cur, j, col.cells) == cur;
      r := Success(cur);
    }
  }

  /** tratare_valori_lipsa_df: copy the table, fill the numeric columns, then the categorical ones. */
  method TreatMissingValues(df: Table, strategy: FillStrategy, num: Numerics) returns (r: Result<Table>)
    requires WellFormed(df)
    ensures r == HandleMissing(df, strategy, num)
  {
    r := RunPass(df, NumericPass(strategy), num);
    if r.Success? {
      r := RunPass(r.value, ObjectPass, num);
    }
  }

  /** A pass treats every column on its own: it succeeds exactly when each column does, and then
      each column holds that column's imputation. */
  lemma {:induction false} PassColumnwise(t: Table, pass: Pass, num: Numerics, k: nat)
    requires WellFormed(t) && k <= |t.columns|
    ensures PassUpTo(t, pass, num, k).Success? <==>
      forall j :: 0 <= j < k ==> ImputeColumn(t.columns[j], pass, num).Success?
    ensures PassUpTo(t, pass, num, k).Success? ==>
      var u := PassUpTo(t, pass, num, k).value;
      forall j :: 0 <= j < |t.columns| ==>
        u.columns[j] == if j < k then t.columns[j].(cells := ImputeColumn(t.columns[j], pass, num).value) else t.columns[j]
    decreases k
  {
    if k > 0 {
      var j := k - 1;
      PassColumnwise(t, pass, num, j);
      PassColumnwiseStep(t, pass, num, j);
    }
  }

  /** The step of PassColumnwise: column j is imputed on its own, or its failure ends the pass. */
  lemma PassColumnwiseStep(t: Table, pass: Pass, num: Numerics, j: nat)
    requires WellFormed(t) && j < |t.columns|
    requires PassUpTo(t, pass, num, j).Success? <==>
      forall m :: 0 <= m < j ==> ImputeColumn(t.columns[m], pass, num).Success?
    requires PassUpTo(t, pass, num, j).Success? ==>
      var u := PassUpTo(t, pass, num, j).value;
      forall m :: 0 <= m < |t.columns| ==>
        u.columns[m] == if m < j then t.columns[m].(cells := ImputeColumn(t.columns[m], pass, num).value) else t.columns[m]
    ensures PassUpTo(t, pass, num, j + 1).Success? <==>
      forall m :: 0 <= m < j + 1 ==> ImputeColumn(t.columns[m], pass, num).Success?
    ensures PassUpTo(t, pass, num, j + 1).Success? ==>
      var u := PassUpTo(t, pass, num, j + 1).value;
      forall m :: 0 <= m < |t.columns| ==>
        u.columns[m] == if m < j + 1 then t.columns[m].(cells := ImputeColumn(t.columns[m], pass, num).value) else t.columns[m]
  {
    PassNext(t, pass, num, j);
    if PassUpTo(t, pass, num, j).Success? {
      assert PassUpTo(t, pass, num, j).value.columns[j] == t.columns[j];
    }
  }

  /** PassUpTo one column further: the pass so far, then column j. */
  lemma PassNext(t: Table, pass: Pass, num: Numerics, j: nat)
    requires WellFormed(t) && j < |t.columns|
    ensures PassUpTo(t, pass, num, j + 1) ==
      match PassUpTo(t, pass, num, j)
      case Failure(e) => Failure(e)
      case Success(u) =>
        match ImputeColumn(u.columns[j], pass, num)
        case Failure(e) => Failure(e)
        case Success(cells) => Success(SetCells(u, j, cells))
  {
  }

  /** The pass that treats a column of dtype d: the numeric loop for numbers, else the categorical
      loop (which leaves every other dtype alone). */
  function PassFor(d: Dtype, s: FillStrategy): Pass
  {
    if IsNumber(d) then NumericPass(s) else ObjectPass
  }

  /** The stage fails exactly when some column other than Target, with missing cells and no value,
      is categorical or numeric under "Mod"; otherwise each column holds its own imputation, rows and
      schema are unchanged. */
  lemma HandleMissingColumnwise(t: Table, s: FillStrategy, num: Numerics)
    requires WellFormed(t)
    ensures HandleMissing(t, s, num).Failure? <==>
      exists j :: 0 <= j < |t.columns| && ImputeColumn(t.columns[j], PassFor(t.columns[j].dtype, s), num).Failure?
    ensures HandleMissing(t, s, num).Success? ==>
      var r := HandleMissing(t, s, num).value;
      && r.index == t.index && SameSchema(r, t)
      && forall j :: 0 <= j < |t.columns| ==>
           r.columns[j] == t.columns[j].(cells := ImputeColumn(t.columns[j], PassFor(t.columns[j].dtype, s), num).value)
  {
    var n := |t.columns|;
    PassColumnwise(t, NumericPass(s), num, n);
    var first := PassUpTo(t, NumericPass(s), num, n);
    if first.Failure? {
      var j :| 0 <= j < n && ImputeColumn(t.columns[j], NumericPass(s), num).Failure?;
      assert ImputeColumn(t.columns[j], PassFor(t.columns[j].dtype, s), num).Failure?;
    } else {
      var u := first.value;
      PassColumnwise(u, ObjectPass, num, n);
      forall j | 0 <= j < n
        ensures ImputeColumn(u.columns[j], ObjectPass, num).Success? <==>
                ImputeColumn(t.columns[j], PassFor(t.columns[j].dtype, s), num).Success?
        ensures ImputeColumn(u.columns[j], ObjectPass, num).Success? ==>
                u.columns[j].(cells := ImputeColumn(u.columns[j], ObjectPass, num).value) ==
                t.columns[j].(cells := ImputeColumn(t.columns[j], PassFor(t.columns[j].dtype, s), num).value)
      {
        SecondPassColumn(t.columns[j], s, num);
      }
    }
  }

  /** A column after the numeric pass, put through the categorical one, ends as the pass for its own
      type leaves it. */
  lemma SecondPassColumn(c: Column, s: FillStrategy, num: Numerics)
    requires ImputeColumn(c, NumericPass(s), num).Success?
    ensures var d := c.(cells := ImputeColumn(c, NumericPass(s), num).value);
      && (ImputeColumn(d, ObjectPass, num).Success? <==> ImputeColumn(c, PassFor(c.dtype, s), num).Success?)
      && (ImputeColumn(d, ObjectPass, num).Success? ==>
            d.(cells := ImputeColumn(d, ObjectPass, num).value) == c.(cells := ImputeColumn(c, PassFor(c.dtype, s), num).value))
  {
    var d := c.(cells := ImputeColumn(c, NumericPass(s), num).value);
    if IsNumber(c.dtype) {
      assert !Selects(ObjectPass, d.dtype);
    } else {
      assert d == c;
    }
  }

  /** After a successful stage no column other than Target that the loops fill has a missing cell:
      every categorical column, and every numeric one under "Mod" or, when it has a value, under
      "Medie" or "Mediană"; Target and every present cell are untouched. */
  lemma NoMissingLeft(t: Table, s: FillStrategy, num: Numerics)
    requires WellFormed(t) && HandleMissing(t, s, num).Success?
    ensures var r := HandleMissing(t, s, num).value;
      forall j :: 0 <= j < |t.columns| ==>
        var c := t.columns[j];
        && (c.name == TARGET ==> r.columns[j] == c)
        && (forall i :: 0 <= i < NumRows(t) && c.cells[i].Some? ==> r.columns[j].cells[i] == c.cells[i])
        && (c.name != TARGET && (IsObjectLike(c.dtype) || (IsNumber(c.dtype) && (s.FillMode? || (!s.UnrecognisedFill? && HasPresent(c.cells))))) ==>
              forall i :: 0 <= i < NumRows(t) ==> r.columns[j].cells[i].Some?)
  {
    HandleMissingColumnwise(t, s, num);
    var r := HandleMissing(t, s, num).value;
    forall j | 0 <= j < |t.columns|
      ensures var c := t.columns[j];
        c.name != TARGET && (IsObjectLike(c.dtype) || (IsNumber(c.dtype) && (s.FillMode? || (!s.UnrecognisedFill? && HasPresent(c.cells))))) ==>
          forall i :: 0 <= i < NumRows(t) ==> r.columns[j].cells[i].Some?
    {
      var c := t.columns[j];
      var out := ImputeColumn(c, PassFor(c.dtype, s), num);
      if c.name != TARGET && HasMissing(c.cells) && (IsObjectLike(c.dtype) || (IsNumber(c.dtype) && s.FillMode?)) {
        assert UsesMode(PassFor(c.dtype, s));
        assert HasPresent(c.cells);
      }
    }
  }
}
