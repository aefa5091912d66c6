/**
 * The table model shared by every page: a DataFrame is a sequence of named, typed columns
 * over a common row index; a cell is either a value or missing (NaN / None).
 */
module Frames {
  import opened Seqs

  datatype Option<T> = None | Some(value: T)

  /** A cell value: a number (int64 and float64 cells alike), a string, or a boolean. */
  datatype Value = Num(x: real) | Text(s: string) | Flag(b: bool)

  /** None is a missing cell. */
  type Cell = Option<Value>

  /** The column dtypes the pages distinguish. OtherNumeric stands for the numpy number dtypes besides
      int64 and float64 (int32, float32, ...); OtherDtype for everything else (datetime, ...). */
  datatype Dtype = Int64 | Float64 | OtherNumeric | Bool | Object | Category | OtherDtype

  datatype Column = Column(name: string, dtype: Dtype, cells: seq<Cell>)

  /** A DataFrame: its columns in order and its row index labels. */
  datatype Table = Table(columns: seq<Column>, index: seq<int>)

  /** What the library code raises, as far as the pages' control flow depends on it. */
  datatype Error =
    | UnseenLabel(column: string)       // LabelEncoder.transform meets a value missing from the order
    | EmptyMode(column: string)         // mode()[0] of a column with no values
    | UnknownScaler                     // scalare_date with an unrecognised method leaves `scaler` unbound
    | EmptyScalingInput                 // a scaler fitted on zero rows or zero numeric columns
    | MissingTarget                     // drop("Target") on a table without that column
    | InvalidSplit                      // train_test_split refuses the requested sizes
    | UnsplittableClasses               // stratified split: a class too small for the requested sizes
    | SampleTooLarge                    // DataFrame.sample(n) with n larger than the table

  datatype Result<T> = Success(value: T) | Failure(error: Error)

  /** The label column, excluded from every transformation. */
  const TARGET: string := "Target"

  /** The scalers scalare_date can fit. */
  datatype Scaler = StandardScaler | MinMaxScaler | RobustScaler

  /**
   * The numeric library routines the pages call, taken as given: quantile(cells, p) with linear
   * interpolation over the present values, the mean and the median of the present values, log1p
   * (None where the result is NaN), a fitted scaler's image of one cell given its column, and
   * Python's str() of a float.
   */
  datatype Numerics = Numerics(
    quantile: (seq<Cell>, real) -> real,
    mean: seq<Cell> -> real,
    median: seq<Cell> -> real,
    log1p: real -> Option<real>,
    scale: (Scaler, seq<Cell>, Cell) -> Cell,
    show: real -> string)

  /** Every column has one cell per index label. */
  predicate WellFormed(t: Table)
  {
    forall j :: 0 <= j < |t.columns| ==> |t.columns[j].cells| == |t.index|
  }

  function NumRows(t: Table): nat
  {
    |t.index|
  }

  /** Same column names and dtypes, in the same order. */
  predicate SameSchema(a: Table, b: Table)
  {
    && |a.columns| == |b.columns|
    && forall j :: 0 <= j < |a.columns| ==> a.columns[j].name == b.columns[j].name && a.columns[j].dtype == b.columns[j].dtype
  }

  /** select_dtypes(include=["float64", "int64"]). */
  predicate IsFloatOrInt(d: Dtype)
  {
    d == Int64 || d == Float64
  }

  /** select_dtypes(include=np.number): bool is not a numpy number. */
  predicate IsNumber(d: Dtype)
  {
    d == Int64 || d == Float64 || d == OtherNumeric
  }

  /** select_dtypes(include=["object", "category", "bool"]). */
  predicate IsObjectLike(d: Dtype)
  {
    d == Object || d == Category || d == Bool
  }

  /** The table with the cells of column j replaced (`df[col] = ...`). */
  function SetCells(t: Table, j: nat, cells: seq<Cell>): (r: Table)
    requires j < |t.columns|
  {
    t.(columns := t.columns[j := t.columns[j].(cells := cells)])
  }

  /** The table with column j replaced by a column of the same length (`df[col] = ...` with a new dtype). */
  function SetColumn(t: Table, j: nat, c: Column): (r: Table)
    requires j < |t.columns|
  {
    t.(columns := t.columns[j := c])
  }

  /** The rows at the given positions, in that order, keeping their index labels (`df.iloc[idx]`). */
  function GatherRows(t: Table, idx: seq<nat>): (r: Table)
    requires WellFormed(t) && AllBelow(idx, NumRows(t))
    ensures WellFormed(r) && SameSchema(r, t) && NumRows(r) == |idx|
    ensures r.index == Pick(t.index, idx)
    ensures forall j :: 0 <= j < |t.columns| ==> r.columns[j].cells == Pick(t.columns[j].cells, idx)
  {
    Table(seq(|t.columns|, (j: int) requires 0 <= j < |t.columns| => t.columns[j].(cells := Pick(t.columns[j].cells, idx))),
          Pick(t.index, idx))
  }

  /** reset_index(drop=True): the labels become 0 .. n - 1. */
  function Renumbered(t: Table): (r: Table)
  {
    t.(index := Range(NumRows(t)))
  }

  /** The values of row i, column by column. */
  function RowAt(t: Table, i: nat): (r: seq<Cell>)
    requires WellFormed(t) && i < NumRows(t)
    ensures |r| == |t.columns|
    ensures forall j :: 0 <= j < |t.columns| ==> r[j] == t.columns[j].cells[i]
  {
    seq(|t.columns|, (j: int) requires 0 <= j < |t.columns| => t.columns[j].cells[i])
  }

  /** isnull().sum() of one column. */
  function MissingCount(cells: seq<Cell>): (r: nat)
    ensures r <= |cells|
    ensures r == 0 <==> forall i :: 0 <= i < |cells| ==> cells[i].Some?
  {
    if cells == [] then 0
    else MissingCount(cells[..|cells| - 1]) + (if cells[|cells| - 1].None? then 1 else 0)
  }

  predicate HasMissing(cells: seq<Cell>)
  {
    exists i :: 0 <= i < |cells| && cells[i].None?
  }

  predicate HasPresent(cells: seq<Cell>)
  {
    exists i :: 0 <= i < |cells| && cells[i].Some?
  }

  /** The position of the first column with the given name, if any (`df[name]`). */
  function ColumnIndex(cols: seq<Column>, name: string): (r: Option<nat>)
    ensures r.None? <==> forall j :: 0 <= j < |cols| ==> cols[j].name != name
    ensures r.Some? ==> r.value < |cols| && cols[r.value].name == name
    ensures r.Some? ==> forall j :: 0 <= j < r.value ==> cols[j].name != name
  {
    if cols == [] then None
    else if cols[0].name == name then Some(0)
    else match ColumnIndex(cols[1..], name)
      case None => None
      case Some(k) => Some(k + 1)
  }
}
