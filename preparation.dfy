/**
 * Scaling, the train/test split and the whole preprocessing pipeline (scalare_date and
 * pregatire_date, pages/11_procesare.py:161-249): outliers, then missing values, then encoding,
 * then Target is split off, the features are scaled, the rows are split, object features become
 * categorical and every part is renumbered.
 */
module Preparation {
  import opened Seqs
  import opened Frames
  import opened Outliers
  import opened Imputation
  import opened Encoding

  // ---------------------------------------------------------------------------------------------
  // scalare_date

  datatype ScalingChoice = Scale(scaler: Scaler) | NoScaling | UnrecognisedScaling

  /** The scaling a select-box string names. */
  function ParseScalingChoice(name: string): ScalingChoice
  {
    if name == "Niciuna" then NoScaling
    else if name == "StandardScaler" then Scale(StandardScaler)
    else if name == "MinMaxScaler" then Scale(MinMaxScaler)
    else if name == "RobustScaler" then Scale(RobustScaler)
    else UnrecognisedScaling
  }

  function ScalingChoiceName(c: ScalingChoice): (name: string)
    requires !c.UnrecognisedScaling?
    ensures ParseScalingChoice(name) == c
  {
    match c
    case NoScaling => "Niciuna"
    case Scale(StandardScaler) => "StandardScaler"
    case Scale(MinMaxScaler) => "MinMaxScaler"
    case Scale(RobustScaler) => "RobustScaler"
  }

  /** `scaler.fit_transform` of one int64/float64 column, written back as float64. */
  function ScaledColumn(c: Column, s: Scaler, num: Numerics): (r: Column)
  {
    Column(c.name, Float64, seq(|c.cells|, (i: int) requires 0 <= i < |c.cells| => num.scale(s, c.cells, c.cells[i])))
  }

  function CountFloatOrInt(cols: seq<Column>): (r: nat)
    ensures r == 0 <==> forall j :: 0 <= j < |cols| ==> !IsFloatOrInt(cols[j].dtype)
  {
    if cols == [] then 0
    else CountFloatOrInt(cols[..|cols| - 1]) + (if IsFloatOrInt(cols[|cols| - 1].dtype) then 1 else 0)
  }

  /** scalare_date. "Niciuna" returns the input; a string naming no scaler leaves `scaler` unbound; a
      scaler refuses to fit zero rows or zero columns. */
  function ScaleFrame(x: Table, choice: ScalingChoice, num: Numerics): (r: Result<Table>)
    requires WellFormed(x)
    ensures r.Success? ==> WellFormed(r.value) && r.value.index == x.index && |r.value.columns| == |x.columns|
  {
    match choice
    case NoScaling => Success(x)
    case UnrecognisedScaling => Failure(UnknownScaler)
    case Scale(s) =>
      if NumRows(x) == 0 || CountFloatOrInt(x.columns) == 0 then Failure(EmptyScalingInput)
      else Success(x.(columns := seq(|x.columns|, (j: int) requires 0 <= j < |x.columns| =>
        if IsFloatOrInt(x.columns[j].dtype) then ScaledColumn(x.columns[j], s, num) else x.columns[j])))
  }

  /** Scaling keeps the rows and the column names; it changes exactly the int64/float64 columns, which
      become float64, and leaves every other column as it was. "Niciuna" is the identity. */
  lemma ScalingTouchesOnlyNumericColumns(x: Table, choice: ScalingChoice, num: Numerics)
    requires WellFormed(x)
    ensures choice.NoScaling? ==> ScaleFrame(x, choice, num) == Success(x)
    ensures ScaleFrame(x, choice, num).Failure? <==>
      choice.UnrecognisedScaling? || (choice.Scale? && (NumRows(x) == 0 || forall j :: 0 <= j < |x.columns| ==> !IsFloatOrInt(x.columns[j].dtype)))
    ensures ScaleFrame(x, choice, num).Success? ==>
      var r := ScaleFrame(x, choice, num).value;
      && WellFormed(r) && r.index == x.index && |r.columns| == |x.columns|
      && forall j :: 0 <= j < |x.columns| ==>
           && r.columns[j].name == x.columns[j].name
           && (!IsFloatOrInt(x.columns[j].dtype) || choice.NoScaling? ==> r.columns[j] == x.columns[j])
           && (IsFloatOrInt(x.columns[j].dtype) && choice.Scale? ==>
                 r.columns[j].dtype == Float64 &&
                 forall i :: 0 <= i < NumRows(x) ==> r.columns[j].cells[i] == num.scale(choice.scaler, x.columns[j].cells, x.columns[j].cells[i]))
  {
  }

  // ---------------------------------------------------------------------------------------------
  // train_test_split

  /** The random draw of train_test_split: an order of the rows, test rows first. The stratified split
      draws it so that each class is represented in proportion; that balance is not modelled. */
  type Shuffle = (seq<Cell>, bool) -> seq<nat>

  ghost predicate ValidShuffle(shuffle: Shuffle)
  {
    forall y, stratified :: IsPermutation(shuffle(y, stratified), |y|)
  }

  /** The number of labels equal to c. */
  function CellCount(y: seq<Cell>, c: Cell): (r: nat)
    ensures r <= |y|
    ensures r > 0 <==> c in y
  {
    if y == [] then 0 else CellCount(y[..|y| - 1], c) + (if y[|y| - 1] == c then 1 else 0)
  }

  /** ceil(test_size * n): the number of test rows train_test_split asks for. */
  function TestCount(n: nat, testFraction: real): (r: int)
    ensures testFraction * n as real <= r as real < testFraction * n as real + 1.0
    ensures testFraction > 0.0 ==> r >= 0
  {
    Ceil(testFraction * n as real)
  }

  /** (n_train, n_test) for a float test_size: n_test = ceil(test_size * n) and the rest for training;
      refused unless 0 < test_size < 1 and the training part is non-empty. */
  function SplitSizes(n: nat, testFraction: real): (r: Result<(nat, nat)>)
    ensures r.Success? ==> r.value.0 + r.value.1 == n && r.value.0 > 0 && r.value.1 > 0
    ensures r.Success? ==> r.value.1 == TestCount(n, testFraction)
    ensures r.Failure? <==> testFraction <= 0.0 || testFraction >= 1.0 || TestCount(n, testFraction) >= n
  {
    if testFraction <= 0.0 || testFraction >= 1.0 then Failure(InvalidSplit)
    else
      var nTest := TestCount(n, testFraction);
      if nTest >= n then Failure(InvalidSplit)
      else Success(((n - nTest) as nat, nTest as nat))
  }

  /** A stratified split also needs every class twice and at least one row per class on each side. */
  predicate Stratifiable(y: seq<Cell>, nTrain: nat, nTest: nat)
  {
    var classes := Distinct(y);
    && (forall k :: 0 <= k < |classes| ==> CellCount(y, classes[k]) >= 2)
    && nTrain >= |classes| && nTest >= |classes|
  }

  /** The row positions of the training and the test part. */
  function SplitRows(y: seq<Cell>, testFraction: real, stratified: bool, shuffle: Shuffle): (r: Result<(seq<nat>, seq<nat>)>)
    requires ValidShuffle(shuffle)
    ensures r.Success? ==> AllBelow(r.value.0, |y|) && AllBelow(r.value.1, |y|) && |r.value.0| + |r.value.1| == |y|
  {
    match SplitSizes(|y|, testFraction)
    case Failure(e) => Failure(e)
    case Success((nTrain, nTest)) =>
      if stratified && !Stratifiable(y, nTrain, nTest) then Failure(UnsplittableClasses)
      else
        var order := shuffle(y, stratified);
        Success((order[nTest..], order[..nTest]))
  }

  /** A successful split partitions the rows: the two parts have the promised sizes, share no row,
      and together hold every row exactly once. */
  lemma SplitPartitionsRows(y: seq<Cell>, testFraction: real, stratified: bool, shuffle: Shuffle,
                            train: seq<nat>, test: seq<nat>)
    requires ValidShuffle(shuffle) && SplitRows(y, testFraction, stratified, shuffle) == Success((train, test))
    ensures |test| == TestCount(|y|, testFraction) && |train| == |y| - |test| && |train| > 0
    ensures AllBelow(train, |y|) && AllBelow(test, |y|)
    ensures NoDuplicates(train) && NoDuplicates(test)
    ensures forall i :: 0 <= i < |y| ==> (i in train <==> i !in test)
  {
    var order := shuffle(y, stratified);
    assert IsPermutation(order, |y|);
    var nTest := SplitSizes(|y|, testFraction).value.1;
    assert train == order[nTest..] && test == order[..nTest];
    assert order == test + train;
    forall i | 0 <= i < |y| ensures i in train <==> i !in test {
      assert i in order;
      var p :| 0 <= p < |order| && order[p] == i;
      if p < nTest {
        assert test[p] == i;
        forall a | 0 <= a < |train| ensures train[a] != i {
          assert train[a] == order[nTest + a];
        }
      } else {
        assert train[p - nTest] == i;
        forall b | 0 <= b < |test| ensures test[b] != i {
          assert test[b] == order[b];
        }
      }
    }
  }

  // ---------------------------------------------------------------------------------------------
  // pregatire_date

  /** The settings "Aplicare setări" stores. */
  datatype Config = Config(
    outliers: OutlierPolicy,
    fill: FillStrategy,
    oneHot: bool,
    labelOrders: LabelOrders,
    scaling: ScalingChoice,
    testFraction: real,
    stratified: bool)

  /** The four parts and df_final, all renumbered 0 .. n - 1 (a Series is a Column here). */
  datatype Prepared = Prepared(final: Table, xTrain: Table, xTest: Table, yTrain: Column, yTest: Column)

  /** `df.drop("Target", axis=1)`: every column other than Target. */
  function DropTarget(t: Table): (r: Table)
    requires WellFormed(t)
    ensures WellFormed(r) && r.index == t.index
    ensures forall c :: c in r.columns <==> c in t.columns && c.name != TARGET
  {
    Table(DropTargetColumns(t.columns), t.index)
  }

  function DropTargetColumns(cols: seq<Column>): (r: seq<Column>)
    ensures forall c :: c in r <==> c in cols && c.name != TARGET
  {
    if cols == [] then []
    else
      var rest := DropTargetColumns(cols[..|cols| - 1]);
      var c := cols[|cols| - 1];
      assert cols == cols[..|cols| - 1] + [c];
      if c.name == TARGET then rest else rest + [c]
  }

  /** `astype("category")` of the object columns. */
  function CategoryColumn(c: Column): Column
  {
    if c.dtype == Object then c.(dtype := Category) else c
  }

  function AsCategories(t: Table): (r: Table)
  {
    t.(columns := seq(|t.columns|, (j: int) requires 0 <= j < |t.columns| => CategoryColumn(t.columns[j])))
  }

  /** The rows at the given positions of a Series, renumbered. */
  function PickSeries(y: Column, rows: seq<nat>): Column
    requires AllBelow(rows, |y.cells|)
  {
    y.(cells := Pick(y.cells, rows))
  }

  /** The table after the three transformation stages. */
  function Transformed(df: Table, cfg: Config, num: Numerics): (r: Result<Table>)
    requires WellFormed(df)
    ensures r.Success? ==> WellFormed(r.value)
  {
    var d1 := HandleOutliers(df, cfg.outliers, num);
    match HandleMissing(d1, cfg.fill, num)
    case Failure(e) => Failure(e)
    case Success(d2) =>
      HandleMissingColumnwise(d1, cfg.fill, num);
      EncodeCategoricals(d2, cfg.oneHot, cfg.labelOrders, None, num)
  }

  /** The parts pregatire_date returns, given the scaled features, the labels and the split. */
  function Assemble(x: Table, y: Column, train: seq<nat>, test: seq<nat>): (p: Prepared)
    requires WellFormed(x) && |y.cells| == NumRows(x) && AllBelow(train, NumRows(x)) && AllBelow(test, NumRows(x))
  {
    var xTrain := Renumbered(AsCategories(GatherRows(x, train)));
    var xTest := Renumbered(AsCategories(GatherRows(x, test)));
    var yTrain := PickSeries(y, train);
    Prepared(xTrain.(columns := xTrain.columns + [yTrain.(name := TARGET)]), xTrain, xTest, yTrain, PickSeries(y, test))
  }

  /** After the three stages: Target split off as the labels, the rest scaled as the features, and
      the row positions of the two parts drawn. */
  function SplitOff(d3: Table, cfg: Config, num: Numerics, shuffle: Shuffle): (r: Result<(Table, Column, seq<nat>, seq<nat>)>)
    requires WellFormed(d3) && ValidShuffle(shuffle)
    ensures r.Success? ==>
      var (x, y, train, test) := r.value;
      WellFormed(x) && |y.cells| == NumRows(x) && AllBelow(train, NumRows(x)) && AllBelow(test, NumRows(x))
  {
    match ColumnIndex(d3.columns, TARGET)
    case None => Failure(MissingTarget)
    case Some(jt) =>
      var y := d3.columns[jt];
      match ScaleFrame(DropTarget(d3), cfg.scaling, num)
      case Failure(e) => Failure(e)
      case Success(x) =>
        match SplitRows(y.cells, cfg.testFraction, cfg.stratified, shuffle)
        case Failure(e) => Failure(e)
        case Success((train, test)) => Success((x, y, train, test))
  }

  /** Up to the split: the scaled features, the labels and the row positions of the two parts. */
  function Stages(df: Table, cfg: Config, num: Numerics, shuffle: Shuffle): (r: Result<(Table, Column, seq<nat>, seq<nat>)>)
    requires WellFormed(df) && ValidShuffle(shuffle)
    ensures r.Success? ==>
      var (x, y, train, test) := r.value;
      WellFormed(x) && |y.cells| == NumRows(x) && AllBelow(train, NumRows(x)) && AllBelow(test, NumRows(x))
  {
    match Transformed(df, cfg, num)
    case Failure(e) => Failure(e)
    case Success(d3) => SplitOff(d3, cfg, num, shuffle)
  }

  /** pregatire_date with its random draw given. */
  function Prepare(df: Table, cfg: Config, num: Numerics, shuffle: Shuffle): (r: Result<Prepared>)
    requires WellFormed(df) && ValidShuffle(shuffle)
  {
    match Stages(df, cfg, num, shuffle)
    case Failure(e) => Failure(e)
    case Success((x, y, train, test)) => Success(Assemble(x, y, train, test))
  }

  /** The loop casting X_train's object columns, in both parts, to category. */
  method CastObjectColumns(xTrain: Table, xTest: Table) returns (a: Table, b: Table)
    requires SameSchema(xTrain, xTest)
    ensures a == AsCategories(xTrain) && b == AsCategories(xTest)
  {
    a, b := xTrain, xTest;
    var j := 0;
    while j < |xTrain.columns|
      invariant 0 <= j <= |xTrain.columns|
      invariant a.index == xTrain.index && b.index == xTest.index
      invariant |a.columns| == |xTrain.columns| && |b.columns| == |xTest.columns|
      invariant forall m :: 0 <= m < |xTrain.columns| ==> a.columns[m] == if m < j then CategoryColumn(xTrain.columns[m]) else xTrain.columns[m]
      invariant forall m :: 0 <= m < |xTest.columns| ==> b.columns[m] == if m < j then CategoryColumn(xTest.columns[m]) else xTest.columns[m]
    {
      if xTrain.columns[j].dtype == Object {
        a := a.(columns := a.columns[j := a.columns[j].(dtype := Category)]);
        b := b.(columns := b.columns[j := b.columns[j].(dtype := Category)]);
      }
      j := j + 1;
    }
  }

  /** pregatire_date: the stages in order, then drop Target, scale, split, cast and renumber. */
  method PrepareData(df: Table, cfg: Config, num: Numerics, shuffle: Shuffle) returns (r: Result<Prepared>)
    requires WellFormed(df) && ValidShuffle(shuffle)
    ensures r == Prepare(df, cfg, num, shuffle)
  {
    var d1 := TreatOutliers(df, cfg.outliers, num);
    var d2 := TreatMissingValues(d1, cfg.fill, num);
    if d2.Failure? {
      return Failure(d2.error);
    }
    HandleMissingColumnwise(d1, cfg.fill, num);
    var d3 := EncodeCategoricalColumns(d2.value, cfg.oneHot, cfg.labelOrders, None, num);
    assert Transformed(df, cfg, num) == d3;
    if d3.Failure? {
      return Failure(d3.error);
    }
    r := SplitAndAssemble(d3.value, cfg, num, shuffle);
  }

  /** The rest of pregatire_date once the three stages have run: split Target off, scale, split,
      cast and renumber. */
  method SplitAndAssemble(df3: Table, cfg: Config, num: Numerics, shuffle: Shuffle) returns (r: Result<Prepared>)
    requires WellFormed(df3) && ValidShuffle(shuffle)
    ensures r == match SplitOff(df3, cfg, num, shuffle)
                 case Failure(e) => Failure(e)
                 case Success((x, y, train, test)) => Success(Assemble(x, y, train, test))
  {
    var jt := ColumnIndex(df3.columns, TARGET);
    if jt.None? {
      return Failure(MissingTarget);
    }
    var y := df3.columns[jt.value];
    var x := ScaleFrame(DropTarget(df3), cfg.scaling, num);
    if x.Failure? {
      return Failure(x.error);
    }
    var split := SplitRows(y.cells, cfg.testFraction, cfg.stratified, shuffle);
    if split.Failure? {
      return Failure(split.error);
    }
    var (train, test) := split.value;
    var xTrain, xTest := CastObjectColumns(GatherRows(x.value, train), GatherRows(x.value, test));
    xTrain := Renumbered(xTrain);
    xTest := Renumbered(xTest);
    var yTrain := PickSeries(y, train);
    var yTest := PickSeries(y, test);
    var dfFinal := xTrain.(columns := xTrain.columns + [yTrain.(name := TARGET)]);
    r := Success(Prepared(dfFinal, xTrain, xTest, yTrain, yTest));
    assert SplitOff(df3, cfg, num, shuffle) == Success((x.value, y, train, test));
  }

  // ---------------------------------------------------------------------------------------------
  // What pregatire_date promises.

  /** The parts keep features and labels row-aligned: row i of X_train and of y_train both come from
      row train[i], likewise for the test part; every part is renumbered 0 .. n - 1; the category cast
      changes no value and no name; df_final is X_train followed by y_train under the name Target. */
  lemma AssembledPartsAreAligned(x: Table, y: Column, train: seq<nat>, test: seq<nat>)
    requires WellFormed(x) && |y.cells| == NumRows(x) && AllBelow(train, NumRows(x)) && AllBelow(test, NumRows(x))
    ensures var p := Assemble(x, y, train, test);
      && WellFormed(p.xTrain) && WellFormed(p.xTest)
      && NumRows(p.xTrain) == |train| && NumRows(p.xTest) == |test|
      && |p.yTrain.cells| == |train| && |p.yTest.cells| == |test|
      && p.xTrain.index == Range(|train|) && p.xTest.index == Range(|test|)
      && p.final.index == p.xTrain.index
      && p.final.columns == p.xTrain.columns + [p.yTrain.(name := TARGET)]
      && |p.xTrain.columns| == |x.columns| && |p.xTest.columns| == |x.columns|
      && (forall i :: 0 <= i < |train| ==> p.yTrain.cells[i] == y.cells[train[i]])
      && (forall i :: 0 <= i < |test| ==> p.yTest.cells[i] == y.cells[test[i]])
      && (forall j, i :: 0 <= j < |x.columns| && 0 <= i < |train| ==> p.xTrain.columns[j].cells[i] == x.columns[j].cells[train[i]])
      && (forall j, i :: 0 <= j < |x.columns| && 0 <= i < |test| ==> p.xTest.columns[j].cells[i] == x.columns[j].cells[test[i]])
      && (forall j :: 0 <= j < |x.columns| ==>
            && p.xTrain.columns[j].name == x.columns[j].name && p.xTest.columns[j].name == x.columns[j].name
            && p.xTrain.columns[j].dtype == p.xTest.columns[j].dtype
            && p.xTrain.columns[j].dtype == (if x.columns[j].dtype == Object then Category else x.columns[j].dtype))
  {
  }

  /** A successful run takes the labels from the transformed table's Target column and the features
      from the rest, scaled, so X holds no Target column. */
  lemma LabelsAndFeaturesComeFromTheTable(d3: Table, cfg: Config, num: Numerics, shuffle: Shuffle,
                                          x: Table, y: Column, train: seq<nat>, test: seq<nat>)
    requires WellFormed(d3) && ValidShuffle(shuffle)
    requires SplitOff(d3, cfg, num, shuffle) == Success((x, y, train, test))
    ensures ColumnIndex(d3.columns, TARGET).Some? && y == d3.columns[ColumnIndex(d3.columns, TARGET).value]
    ensures ScaleFrame(DropTarget(d3), cfg.scaling, num) == Success(x)
    ensures forall c :: c in x.columns ==> c.name != TARGET
  {
    ScaledFeaturesHaveNoTarget(DropTarget(d3), cfg.scaling, num, x);
  }

  /** A successful run splits the transformed rows between the two parts, with ceil(test_size * n)
      rows for testing and at least one for training, each row in exactly one part and in it once. */
  lemma SplitPartitionsTheTable(d3: Table, cfg: Config, num: Numerics, shuffle: Shuffle,
                                x: Table, y: Column, train: seq<nat>, test: seq<nat>)
    requires WellFormed(d3) && ValidShuffle(shuffle)
    requires SplitOff(d3, cfg, num, shuffle) == Success((x, y, train, test))
    ensures |y.cells| == NumRows(d3)
    ensures |train| + |test| == NumRows(d3) && |train| > 0
    ensures |test| == TestCount(NumRows(d3), cfg.testFraction)
    ensures forall i :: 0 <= i < NumRows(d3) ==> (i in train <==> i !in test)
    ensures NoDuplicates(train) && NoDuplicates(test)
  {
    var jt := ColumnIndex(d3.columns, TARGET).value;
    assert y == d3.columns[jt];
    SplitPartitionsRows(y.cells, cfg.testFraction, cfg.stratified, shuffle, train, test);
  }

  lemma ScaledFeaturesHaveNoTarget(dropped: Table, choice: ScalingChoice, num: Numerics, x: Table)
    requires WellFormed(dropped) && forall c :: c in dropped.columns ==> c.name != TARGET
    requires ScaleFrame(dropped, choice, num) == Success(x)
    ensures forall c :: c in x.columns ==> c.name != TARGET
  {
    ScalingTouchesOnlyNumericColumns(dropped, choice, num);
    forall c | c in x.columns ensures c.name != TARGET {
      var j :| 0 <= j < |x.columns| && x.columns[j] == c;
      assert dropped.columns[j] in dropped.columns;
    }
  }

  /** Under "Niciuna", with a plain split, the features keep the transformed values: scaling is the
      identity and the category cast only changes dtypes. */
  lemma NoScalingKeepsFeatures(df: Table, cfg: Config, num: Numerics, shuffle: Shuffle)
    requires WellFormed(df) && ValidShuffle(shuffle) && cfg.scaling.NoScaling?
    requires Transformed(df, cfg, num).Success?
    ensures var d3 := Transformed(df, cfg, num).value;
      ColumnIndex(d3.columns, TARGET).Some? ==> ScaleFrame(DropTarget(d3), cfg.scaling, num) == Success(DropTarget(d3))
  {
  }
}
