/**
 * Categorical encoding, the third preprocessing stage (tratare_codificari_df,
 * pages/11_procesare.py:114-158): label encoding by user-chosen orders, then optional one-hot
 * expansion of the remaining object columns.
 */
module Encoding {
  import opened Seqs
  import opened Frames
  import opened ValueOrder

  // ---------------------------------------------------------------------------------------------
  // The label orders: a Python dict from column name to the order of its values.

  /** Entries in insertion order; a dict never holds a key twice. */
  type LabelOrders = seq<(string, seq<Cell>)>

  predicate UniqueKeys(lo: LabelOrders)
  {
    forall a, b :: 0 <= a < b < |lo| ==> lo[a].0 != lo[b].0
  }

  function Keys(lo: LabelOrders): (r: seq<string>)
    ensures |r| == |lo|
    ensures forall e :: 0 <= e < |lo| ==> r[e] == lo[e].0
  {
    seq(|lo|, (e: int) requires 0 <= e < |lo| => lo[e].0)
  }

  /** The entry holding a key. */
  function KeyPos(lo: LabelOrders, key: string): (r: Option<nat>)
    ensures r.None? <==> key !in Keys(lo)
    ensures r.Some? ==> r.value < |lo| && lo[r.value].0 == key
  {
    if lo == [] then None
    else if lo[|lo| - 1].0 == key then Some(|lo| - 1)
    else KeyPos(lo[..|lo| - 1], key)
  }

  /** `d[key] = order`: an existing key keeps its place and gets the new order, a new key goes last;
      no other entry changes. */
  function Assign(lo: LabelOrders, key: string, order: seq<Cell>): (r: LabelOrders)
    requires UniqueKeys(lo)
    ensures UniqueKeys(r)
    ensures key in Keys(lo) ==> |r| == |lo|
    ensures key !in Keys(lo) ==> |r| == |lo| + 1 && r[|lo|] == (key, order)
    ensures forall e :: 0 <= e < |lo| ==> r[e] == if lo[e].0 == key then (key, order) else lo[e]
  {
    match KeyPos(lo, key)
    case Some(e) => lo[e := (key, order)]
    case None => lo + [(key, order)]
  }

  // ---------------------------------------------------------------------------------------------
  // Label encoding of one column.

  /** The code LabelEncoder gives a cell: with object classes it builds {value: position}, so a value
      listed twice gets its last position. */
  function LastPosition(order: seq<Cell>, c: Cell): (r: Option<nat>)
    ensures r.None? <==> c !in order
    ensures r.Some? ==> r.value < |order| && order[r.value] == c
    ensures r.Some? ==> forall k :: r.value < k < |order| ==> order[k] != c
  {
    if order == [] then None
    else if order[|order| - 1] == c then Some(|order| - 1)
    else LastPosition(order[..|order| - 1], c)
  }

  /** The cell a code stands for (`inverse_transform`). */
  function Decode(order: seq<Cell>, code: Cell): Option<Cell>
  {
    match code
    case Some(Num(x)) => if x.Floor as real == x && 0 <= x.Floor < |order| then Some(order[x.Floor]) else None
    case _ => None
  }

  /** `encoder.transform(column)`: None where a cell is missing from the order (the ValueError);
      otherwise one integer code per cell, and decoding a code gives the cell back. */
  function EncodeCells(cells: seq<Cell>, order: seq<Cell>): (r: Option<seq<Cell>>)
    ensures r.None? <==> exists i :: 0 <= i < |cells| && cells[i] !in order
    ensures r.Some? ==> |r.value| == |cells|
    ensures r.Some? ==> forall i :: 0 <= i < |cells| ==> Decode(order, r.value[i]) == Some(cells[i])
  {
    if exists i :: 0 <= i < |cells| && cells[i] !in order then None
    else Some(seq(|cells|, (i: int) requires 0 <= i < |cells| => Some(Num(LastPosition(order, cells[i]).value as real))))
  }

  /** With an order that lists each value once, as the page builds it from `unique()`, each value is
      encoded by its 0-based position in the order. */
  lemma CodesAreOrderPositions(cells: seq<Cell>, order: seq<Cell>)
    requires NoDuplicates(order) && EncodeCells(cells, order).Some?
    ensures forall i, k :: 0 <= i < |cells| && 0 <= k < |order| && cells[i] == order[k] ==>
      EncodeCells(cells, order).value[i] == Some(Num(k as real))
  {
    forall i, k | 0 <= i < |cells| && 0 <= k < |order| && cells[i] == order[k]
      ensures EncodeCells(cells, order).value[i] == Some(Num(k as real))
    {
      var p := LastPosition(order, cells[i]).value;
      assert order[p] == order[k];
    }
  }

  // ---------------------------------------------------------------------------------------------
  // Label encoding of a table.

  /** One entry of the loop over the listed columns: Target and names absent from the table are skipped. */
  function EncodeEntry(u: Table, entry: (string, seq<Cell>)): (r: Result<Table>)
    requires WellFormed(u)
    ensures r.Success? ==> WellFormed(r.value) && r.value.index == u.index && |r.value.columns| == |u.columns|
    ensures r.Success? ==> forall j :: 0 <= j < |u.columns| ==> r.value.columns[j].name == u.columns[j].name
  {
    var (col, order) := entry;
    if col == TARGET then Success(u)
    else match ColumnIndex(u.columns, col)
      case None => Success(u)
      case Some(j) =>
        match EncodeCells(u.columns[j].cells, order)
        case None => Failure(UnseenLabel(col))
        case Some(codes) => Success(u.(columns := u.columns[j := Column(col, Int64, codes)]))
  }

  function LabelEncodeUpTo(t: Table, lo: LabelOrders, k: nat): (r: Result<Table>)
    requires WellFormed(t) && k <= |lo|
    ensures r.Success? ==> WellFormed(r.value) && r.value.index == t.index && |r.value.columns| == |t.columns|
    ensures r.Success? ==> forall j :: 0 <= j < |t.columns| ==> r.value.columns[j].name == t.columns[j].name
    decreases k
  {
    if k == 0 then Success(t)
    else match LabelEncodeUpTo(t, lo, k - 1)
      case Failure(e) => Failure(e)
      case Success(u) => EncodeEntry(u, lo[k - 1])
  }

  /** The entry can be applied to the input table: it names Target, names no column, or its column
      holds only values of the order. */
  predicate EntryApplies(t: Table, entry: (string, seq<Cell>))
    requires WellFormed(t)
  {
    entry.0 == TARGET || ColumnIndex(t.columns, entry.0).None? ||
    EncodeCells(t.columns[ColumnIndex(t.columns, entry.0).value].cells, entry.1).Some?
  }

  /** Column j after label encoding: the first column bearing a listed name other than Target is encoded
      with that name's order and becomes int64; every other column is unchanged. */
  function LabelledColumn(t: Table, lo: LabelOrders, k: nat, j: nat): Column
    requires WellFormed(t) && k <= |lo| && j < |t.columns|
  {
    var c := t.columns[j];
    match KeyPos(lo[..k], c.name)
    case None => c
    case Some(e) =>
      if c.name == TARGET || ColumnIndex(t.columns, c.name) != Some(j) then c
      else match EncodeCells(c.cells, lo[e].1)
        case None => c
        case Some(codes) => Column(c.name, Int64, codes)
  }

  lemma KeyPosExtend(lo: LabelOrders, k: nat, name: string)
    requires 0 < k <= |lo|
    ensures KeyPos(lo[..k], name) == if lo[k - 1].0 == name then Some(k - 1) else KeyPos(lo[..k - 1], name)
  {
    assert lo[..k][..k - 1] == lo[..k - 1];
  }

  /** One more entry of the label loop, given the columns the earlier entries produced. */
  lemma LabelStep(t: Table, lo: LabelOrders, p: nat, k: nat, u: Table)
    requires WellFormed(t) && UniqueKeys(lo) && k == p + 1 <= |lo|
    requires WellFormed(u) && |u.columns| == |t.columns|
    requires forall j :: 0 <= j < |t.columns| ==> u.columns[j] == LabelledColumn(t, lo, p, j)
    ensures EncodeEntry(u, lo[p]).Success? <==> EntryApplies(t, lo[p])
    ensures EncodeEntry(u, lo[p]).Failure? ==> EncodeEntry(u, lo[p]).error == UnseenLabel(lo[p].0)
    ensures EncodeEntry(u, lo[p]).Success? ==>
      forall j :: 0 <= j < |t.columns| ==> EncodeEntry(u, lo[p]).value.columns[j] == LabelledColumn(t, lo, k, j)
  {
    var col := lo[p].0;
    var order := lo[p].1;
    var pre := lo[..p];
    assert forall e :: 0 <= e < |pre| ==> pre[e].0 != col;
    assert KeyPos(pre, col).None?;
    forall j | 0 <= j < |t.columns|
      ensures KeyPos(lo[..k], t.columns[j].name) == if t.columns[j].name == col then Some(p) else KeyPos(pre, t.columns[j].name)
    {
      KeyPosExtend(lo, k, t.columns[j].name);
    }
    ColumnIndexSameNames(t.columns, u.columns, col);
    var r := EncodeEntry(u, lo[p]);
    if col == TARGET || ColumnIndex(t.columns, col).None? {
      assert r == Success(u);
      forall j | 0 <= j < |t.columns| ensures u.columns[j] == LabelledColumn(t, lo, k, j) {
      }
    } else {
      var jc := ColumnIndex(t.columns, col).value;
      assert u.columns[jc] == t.columns[jc];
      match EncodeCells(t.columns[jc].cells, order) {
        case None =>
          assert r == Failure(UnseenLabel(col));
        case Some(codes) =>
          assert r == Success(u.(columns := u.columns[jc := Column(col, Int64, codes)]));
          forall j | 0 <= j < |t.columns| ensures r.value.columns[j] == LabelledColumn(t, lo, k, j) {
            if j != jc && t.columns[j].name == col {
              assert ColumnIndex(t.columns, t.columns[j].name) != Some(j);
            }
          }
      }
    }
  }

  lemma {:induction false} LabelEncodeColumnwiseUpTo(t: Table, lo: LabelOrders, k: nat)
    requires WellFormed(t) && UniqueKeys(lo) && k <= |lo|
    ensures LabelEncodeUpTo(t, lo, k).Success? <==> forall e :: 0 <= e < k ==> EntryApplies(t, lo[e])
    ensures LabelEncodeUpTo(t, lo, k).Success? ==>
      forall j :: 0 <= j < |t.columns| ==> LabelEncodeUpTo(t, lo, k).value.columns[j] == LabelledColumn(t, lo, k, j)
    ensures LabelEncodeUpTo(t, lo, k).Failure? ==>
      exists e :: 0 <= e < k && LabelEncodeUpTo(t, lo, k).error == UnseenLabel(lo[e].0) && !EntryApplies(t, lo[e])
    decreases k
  {
    if k == 0 {
      forall j | 0 <= j < |t.columns| ensures t.columns[j] == LabelledColumn(t, lo, 0, j) {
        assert lo[..0] == [];
      }
    } else {
      var p := k - 1;
      LabelEncodeColumnwiseUpTo(t, lo, p);
      LabelColumnwiseStep(t, lo, p, k);
    }
  }

  /** The step of LabelEncodeColumnwiseUpTo, from p entries to k = p + 1. */
  lemma LabelColumnwiseStep(t: Table, lo: LabelOrders, p: nat, k: nat)
    requires WellFormed(t) && UniqueKeys(lo) && k == p + 1 <= |lo|
    requires LabelEncodeUpTo(t, lo, p).Success? <==> forall e :: 0 <= e < p ==> EntryApplies(t, lo[e])
    requires LabelEncodeUpTo(t, lo, p).Success? ==>
      forall j :: 0 <= j < |t.columns| ==> LabelEncodeUpTo(t, lo, p).value.columns[j] == LabelledColumn(t, lo, p, j)
    requires LabelEncodeUpTo(t, lo, p).Failure? ==>
      exists e :: 0 <= e < p && LabelEncodeUpTo(t, lo, p).error == UnseenLabel(lo[e].0) && !EntryApplies(t, lo[e])
    ensures LabelEncodeUpTo(t, lo, k).Success? <==> forall e :: 0 <= e < k ==> EntryApplies(t, lo[e])
    ensures LabelEncodeUpTo(t, lo, k).Success? ==>
      forall j :: 0 <= j < |t.columns| ==> LabelEncodeUpTo(t, lo, k).value.columns[j] == LabelledColumn(t, lo, k, j)
    ensures LabelEncodeUpTo(t, lo, k).Failure? ==>
      exists e :: 0 <= e < k && LabelEncodeUpTo(t, lo, k).error == UnseenLabel(lo[e].0) && !EntryApplies(t, lo[e])
  {
    var prev := LabelEncodeUpTo(t, lo, p);
    var cur := LabelEncodeUpTo(t, lo, k);
    if prev.Success? {
      LabelStepUpTo(t, lo, p, k);
      if cur.Success? {
        AllEntriesApply(t, lo, p, k);
      } else {
        assert 0 <= p < k && !EntryApplies(t, lo[p]);
      }
    } else {
      LabelEncodeNext(t, lo, p);
      var e :| 0 <= e < p && prev.error == UnseenLabel(lo[e].0) && !EntryApplies(t, lo[e]);
      assert 0 <= e < k && !EntryApplies(t, lo[e]);
    }
  }

  /** The first p entries apply and so does entry p: the first k = p + 1 apply. */
  lemma AllEntriesApply(t: Table, lo: LabelOrders, p: nat, k: nat)
    requires WellFormed(t) && k == p + 1 <= |lo|
    requires forall e :: 0 <= e < p ==> EntryApplies(t, lo[e])
    requires EntryApplies(t, lo[p])
    ensures forall e :: 0 <= e < k ==> EntryApplies(t, lo[e])
  {
  }

  /** LabelStep for the loop's own table: the label loop after k entries, given the first k - 1 succeeded. */
  lemma LabelStepUpTo(t: Table, lo: LabelOrders, p: nat, k: nat)
    requires WellFormed(t) && UniqueKeys(lo) && k == p + 1 <= |lo|
    requires LabelEncodeUpTo(t, lo, p).Success?
    requires forall j :: 0 <= j < |t.columns| ==> LabelEncodeUpTo(t, lo, p).value.columns[j] == LabelledColumn(t, lo, p, j)
    ensures LabelEncodeUpTo(t, lo, k).Success? <==> EntryApplies(t, lo[p])
    ensures LabelEncodeUpTo(t, lo, k).Failure? ==> LabelEncodeUpTo(t, lo, k).error == UnseenLabel(lo[p].0)
    ensures LabelEncodeUpTo(t, lo, k).Success? ==>
      forall j :: 0 <= j < |t.columns| ==> LabelEncodeUpTo(t, lo, k).value.columns[j] == LabelledColumn(t, lo, k, j)
  {
    var u := LabelEncodeUpTo(t, lo, p).value;
    LabelStep(t, lo, p, k, u);
    LabelEncodeNext(t, lo, p);
  }

  lemma LabelEncodeNext(t: Table, lo: LabelOrders, p: nat)
    requires WellFormed(t) && p < |lo|
    ensures LabelEncodeUpTo(t, lo, p + 1) ==
      match LabelEncodeUpTo(t, lo, p)
      case Failure(e) => Failure(e)
      case Success(u) => EncodeEntry(u, lo[p])
  {
  }

  lemma ColumnIndexSameNames(a: seq<Column>, b: seq<Column>, name: string)
    requires |a| == |b| && forall j :: 0 <= j < |a| ==> a[j].name == b[j].name
    ensures ColumnIndex(a, name) == ColumnIndex(b, name)
  {
    if |a| > 0 {
      ColumnIndexSameNames(a[1..], b[1..], name);
    }
  }

  /** Label encoding fails exactly when a listed column other than Target holds a value missing from
      its order, and then names one such column; otherwise it replaces exactly the listed columns'
      values by their codes, each of which decodes to the original value. */
  lemma LabelEncodingColumnwise(t: Table, lo: LabelOrders)
    requires WellFormed(t) && UniqueKeys(lo)
    ensures LabelEncodeUpTo(t, lo, |lo|).Success? <==> forall e :: 0 <= e < |lo| ==> EntryApplies(t, lo[e])
    ensures LabelEncodeUpTo(t, lo, |lo|).Failure? ==>
      exists e :: 0 <= e < |lo| && LabelEncodeUpTo(t, lo, |lo|).error == UnseenLabel(lo[e].0) && !EntryApplies(t, lo[e])
    ensures LabelEncodeUpTo(t, lo, |lo|).Success? ==>
      var r := LabelEncodeUpTo(t, lo, |lo|).value;
      forall j :: 0 <= j < |t.columns| ==>
        var c := t.columns[j];
        if c.name != TARGET && c.name in Keys(lo) && ColumnIndex(t.columns, c.name) == Some(j) then
          && r.columns[j].name == c.name && r.columns[j].dtype == Int64
          && forall i :: 0 <= i < NumRows(t) ==> Decode(lo[KeyPos(lo, c.name).value].1, r.columns[j].cells[i]) == Some(c.cells[i])
        else r.columns[j] == c
  {
    LabelEncodeColumnwiseUpTo(t, lo, |lo|);
    if LabelEncodeUpTo(t, lo, |lo|).Success? {
      var r := LabelEncodeUpTo(t, lo, |lo|).value;
      forall j | 0 <= j < |t.columns|
        ensures var c := t.columns[j];
          if c.name != TARGET && c.name in Keys(lo) && ColumnIndex(t.columns, c.name) == Some(j) then
            && r.columns[j].name == c.name && r.columns[j].dtype == Int64
            && forall i :: 0 <= i < NumRows(t) ==> Decode(lo[KeyPos(lo, c.name).value].1, r.columns[j].cells[i]) == Some(c.cells[i])
          else r.columns[j] == c
      {
        LabelledColumnMeaning(t, lo, j);
      }
    }
  }

  /** What column j becomes once every entry has been applied. */
  lemma LabelledColumnMeaning(t: Table, lo: LabelOrders, j: nat)
    requires WellFormed(t) && j < |t.columns|
    requires forall e :: 0 <= e < |lo| ==> EntryApplies(t, lo[e])
    ensures var c := t.columns[j]; var r := LabelledColumn(t, lo, |lo|, j);
      if c.name != TARGET && c.name in Keys(lo) && ColumnIndex(t.columns, c.name) == Some(j) then
        && r.name == c.name && r.dtype == Int64
        && forall i :: 0 <= i < NumRows(t) ==> Decode(lo[KeyPos(lo, c.name).value].1, r.cells[i]) == Some(c.cells[i])
      else r == c
  {
    assert lo[..|lo|] == lo;
    var c := t.columns[j];
    match KeyPos(lo, c.name) {
      case None =>
      case Some(e) =>
        assert EntryApplies(t, lo[e]);
    }
  }

  // ---------------------------------------------------------------------------------------------
  // One-hot expansion.

  lemma StrLeTotalPreorder()
    ensures TotalPreorder(StrLe)
  {
    forall a, b ensures StrLe(a, b) || StrLe(b, a) {
      StrLeTotal(a, b);
    }
    forall a, b, c | StrLe(a, b) && StrLe(b, c) ensures StrLe(a, c) {
      StrLeTransitive(a, b, c);
    }
  }

  /** Names of the object columns other than Target and the listed ones, in column order. */
  function ObjectNamesOutside(cols: seq<Column>, excluded: seq<string>): (r: seq<string>)
    ensures forall x :: x in r <==> exists j :: 0 <= j < |cols| && cols[j].name == x && cols[j].dtype == Object && x != TARGET && x !in excluded
  {
    if cols == [] then []
    else
      var rest := ObjectNamesOutside(cols[..|cols| - 1], excluded);
      var c := cols[|cols| - 1];
      assert forall j :: 0 <= j < |cols| - 1 ==> cols[..|cols| - 1][j] == cols[j];
      if c.dtype == Object && c.name != TARGET && c.name !in excluded then rest + [c.name] else rest
  }

  /** `select_dtypes(include="object").columns.difference(keys + ["Target"])`: each qualifying name once,
      in sorted order. */
  function OneHotCandidates(t: Table, keys: seq<string>): (r: seq<string>)
    ensures NoDuplicates(r) && SortedBy(r, StrLe)
    ensures forall x :: x in r <==>
      exists j :: 0 <= j < |t.columns| && t.columns[j].name == x && t.columns[j].dtype == Object && x != TARGET && x !in keys
    ensures forall x :: x in r ==> ColumnIndex(t.columns, x).Some?
  {
    var names := Distinct(ObjectNamesOutside(t.columns, keys));
    StrLeTotalPreorder();
    SortedKeepsElements(names, StrLe);
    var r := InsertionSort(names, StrLe);
    PermutationKeepsNoDuplicates(names, r);
    r
  }

  /** `nunique()`: the number of distinct present values. */
  function NUnique(cells: seq<Cell>): nat
  {
    |Distinct(Present(cells))|
  }

  /** The column named x has at most the limit's number of distinct values (any number without a
      limit). */
  predicate WithinLimit(t: Table, x: string, limit: Option<nat>)
  {
    match ColumnIndex(t.columns, x)
    case None => false
    case Some(j) => limit.None? || NUnique(t.columns[j].cells) <= limit.value
  }

  /** For each candidate, whether it is within the limit. */
  function LimitMask(t: Table, cands: seq<string>, limit: Option<nat>): (m: seq<bool>)
    ensures |m| == |cands| && forall i :: 0 <= i < |cands| ==> m[i] == WithinLimit(t, cands[i], limit)
  {
    seq(|cands|, (i: int) requires 0 <= i < |cands| => WithinLimit(t, cands[i], limit))
  }

  /** The first k candidates whose flag is set, in candidate order. */
  function ChosenUpTo(cands: seq<string>, fits: seq<bool>, k: nat): (r: seq<string>)
    requires |fits| == |cands| && k <= |cands|
    ensures |r| <= k
    decreases k
  {
    if k == 0 then []
    else
      var rest := ChosenUpTo(cands, fits, k - 1);
      if fits[k - 1] then rest + [cands[k - 1]] else rest
  }

  /** The candidates the loop appends to cols_one_hot: all of them without a limit, otherwise those
      with at most `limit` distinct values, in candidate order. */
  function ChosenColumns(t: Table, cands: seq<string>, limit: Option<nat>): seq<string>
  {
    ChosenUpTo(cands, LimitMask(t, cands, limit), |cands|)
  }

  lemma ChosenNext(cands: seq<string>, fits: seq<bool>, k: nat)
    requires |fits| == |cands| && k < |cands|
    ensures ChosenUpTo(cands, fits, k + 1) == if fits[k] then ChosenUpTo(cands, fits, k) + [cands[k]] else ChosenUpTo(cands, fits, k)
  {
  }

  /** A name is chosen exactly when it is among the first k candidates with its flag set. */
  lemma {:induction false} ChosenMembers(cands: seq<string>, fits: seq<bool>, k: nat)
    requires |fits| == |cands| && k <= |cands|
    ensures forall x :: x in ChosenUpTo(cands, fits, k) <==> exists m :: 0 <= m < k && cands[m] == x && fits[m]
    decreases k
  {
    if k > 0 {
      ChosenMembers(cands, fits, k - 1);
      forall x ensures x in ChosenUpTo(cands, fits, k) <==> exists m :: 0 <= m < k && cands[m] == x && fits[m] {
        if x == cands[k - 1] && fits[k - 1] {
          assert 0 <= k - 1 < k && cands[k - 1] == x && fits[k - 1];
        } else if exists m :: 0 <= m < k && cands[m] == x && fits[m] {
          var m :| 0 <= m < k && cands[m] == x && fits[m];
          assert 0 <= m < k - 1 && cands[m] == x && fits[m];
        }
      }
    }
  }

  /** With every flag set, every candidate is chosen. */
  lemma {:induction false} AllFitChoosesAll(cands: seq<string>, fits: seq<bool>, k: nat)
    requires |fits| == |cands| && k <= |cands| && forall i :: 0 <= i < |fits| ==> fits[i]
    ensures ChosenUpTo(cands, fits, k) == cands[..k]
    decreases k
  {
    if k > 0 {
      AllFitChoosesAll(cands, fits, k - 1);
      assert cands[..k] == cands[..k - 1] + [cands[k - 1]];
    }
  }

  /** The levels get_dummies creates for a column: its distinct present values, sorted. */
  function Levels(cells: seq<Cell>): (r: seq<Value>)
    ensures forall v :: v in r <==> Some(v) in cells
    ensures |r| == NUnique(cells)
  {
    var d := Distinct(Present(cells));
    ValueLeTotalOrder();
    SortedKeepsElements(d, ValueLe);
    InsertionSort(d, ValueLe)
  }

  /** The levels are sorted and each is listed once. */
  lemma LevelsAreSortedAndDistinct(cells: seq<Cell>)
    ensures NoDuplicates(Levels(cells)) && SortedBy(Levels(cells), ValueLe)
  {
    var d := Distinct(Present(cells));
    ValueLeTotalOrder();
    PermutationKeepsNoDuplicates(d, InsertionSort(d, ValueLe));
  }

  /** `str()` of a level, as it appears in a dummy column's name. */
  function ShowValue(v: Value, num: Numerics): string
  {
    match v
    case Text(s) => s
    case Num(x) => num.show(x)
    case Flag(b) => if b then "True" else "False"
  }

  /** The indicator columns of one column with drop_first: one per level but the first, named
      `<column>_<level>`, bool, true exactly in the rows holding that level. */
  function DummyColumns(c: Column, num: Numerics): (r: seq<Column>)
    ensures |r| == if NUnique(c.cells) == 0 then 0 else NUnique(c.cells) - 1
    ensures forall k :: 0 <= k < |r| ==> r[k].dtype == Bool && |r[k].cells| == |c.cells|
    ensures forall k :: 0 <= k < |r| ==> r[k].name == c.name + "_" + ShowValue(Levels(c.cells)[k + 1], num)
    ensures forall k, i :: 0 <= k < |r| && 0 <= i < |c.cells| ==> r[k].cells[i] == Some(Flag(c.cells[i] == Some(Levels(c.cells)[k + 1])))
  {
    IndicatorsAfterFirst(c, Levels(c.cells), num)
  }

  /** One indicator column per level but the first. */
  function IndicatorsAfterFirst(c: Column, lv: seq<Value>, num: Numerics): (r: seq<Column>)
    ensures |r| == if |lv| == 0 then 0 else |lv| - 1
    ensures forall k :: 0 <= k < |r| ==> r[k] == Indicator(c, lv[k + 1], num)
  {
    if |lv| == 0 then [] else seq(|lv| - 1, (k: int) requires 0 <= k < |lv| - 1 => Indicator(c, lv[k + 1], num))
  }

  /** The column `<column>_<level>`: true exactly in the rows holding the level. */
  function Indicator(c: Column, level: Value, num: Numerics): (r: Column)
    ensures r.name == c.name + "_" + ShowValue(level, num) && r.dtype == Bool && |r.cells| == |c.cells|
    ensures forall i :: 0 <= i < |c.cells| ==> r.cells[i] == Some(Flag(c.cells[i] == Some(level)))
  {
    Column(c.name + "_" + ShowValue(level, num), Bool, seq(|c.cells|, (i: int) requires 0 <= i < |c.cells| => Some(Flag(c.cells[i] == Some(level)))))
  }

  /** The indicator columns of the chosen columns, one column after another. */
  function DummiesFor(t: Table, chosen: seq<string>, num: Numerics): (r: seq<Column>)
    requires WellFormed(t) && forall x :: x in chosen ==> ColumnIndex(t.columns, x).Some?
    ensures forall k :: 0 <= k < |r| ==> r[k].dtype == Bool && |r[k].cells| == NumRows(t)
  {
    if chosen == [] then []
    else
      var last := chosen[|chosen| - 1];
      DummiesFor(t, chosen[..|chosen| - 1], num) + DummyColumns(t.columns[ColumnIndex(t.columns, last).value], num)
  }

  /** The columns whose names are not chosen, in their order. */
  function UntouchedColumns(cols: seq<Column>, chosen: seq<string>): (r: seq<Column>)
    ensures forall c :: c in r <==> c in cols && c.name !in chosen
  {
    if cols == [] then []
    else
      var rest := UntouchedColumns(cols[..|cols| - 1], chosen);
      var c := cols[|cols| - 1];
      assert cols == cols[..|cols| - 1] + [c];
      if c.name !in chosen then rest + [c] else rest
  }

  /** `pd.get_dummies(df, columns=chosen, drop_first=True)`. */
  function GetDummies(t: Table, chosen: seq<string>, num: Numerics): (r: Table)
    requires WellFormed(t) && forall x :: x in chosen ==> ColumnIndex(t.columns, x).Some?
    ensures WellFormed(r) && r.index == t.index
  {
    var kept := UntouchedColumns(t.columns, chosen);
    Table(kept + DummiesFor(t, chosen, num), t.index)
  }

  /** tratare_codificari_df. */
  function EncodeCategoricals(t: Table, useOneHot: bool, lo: LabelOrders, limit: Option<nat>, num: Numerics): (r: Result<Table>)
    requires WellFormed(t)
    ensures r.Success? ==> WellFormed(r.value) && r.value.index == t.index
  {
    match LabelEncodeUpTo(t, lo, |lo|)
    case Failure(e) => Failure(e)
    case Success(u) =>
      if !useOneHot then Success(u)
      else
        var cands := OneHotCandidates(u, Keys(lo));
        var chosen := ChosenColumns(u, cands, limit);
        ChosenMembers(cands, LimitMask(u, cands, limit), |cands|);
        if chosen == [] then Success(u) else Success(GetDummies(u, chosen, num))
  }

  /** The label-encoding loop of tratare_codificari_df over the dict's entries. */
  method LabelEncodeColumns(df: Table, labelOrders: LabelOrders) returns (r: Result<Table>)
    requires WellFormed(df)
    ensures r == LabelEncodeUpTo(df, labelOrders, |labelOrders|)
  {
    r := Success(df);
    var e := 0;
    while e < |labelOrders| && r.Success?
      invariant 0 <= e <= |labelOrders|
      invariant r == LabelEncodeUpTo(df, labelOrders, e)
    {
      LabelEncodeNext(df, labelOrders, e);
      r := EncodeEntry(r.value, labelOrders[e]);
      e := e + 1;
    }
    if r.Failure? {
      LabelFailurePersists(df, labelOrders, e, |labelOrders|);
    }
  }

  /** The loop gathering cols_one_hot: each candidate is tested against the limit, then the ones within
      it are kept in order. */
  method ChooseOneHotColumns(u: Table, remaining: seq<string>, limit: Option<nat>) returns (colsOneHot: seq<string>)
    requires forall x :: x in remaining ==> ColumnIndex(u.columns, x).Some?
    ensures colsOneHot == ChosenColumns(u, remaining, limit)
  {
    var fits := LimitMask(u, remaining, limit);
    colsOneHot := KeepFlagged(remaining, fits);
  }

  /** The column loop itself: keep, in order, the candidates whose flag is set. */
  method KeepFlagged(cands: seq<string>, fits: seq<bool>) returns (r: seq<string>)
    requires |fits| == |cands|
    ensures r == ChosenUpTo(cands, fits, |cands|)
  {
    r := [];
    var k := 0;
    while k < |cands|
      invariant 0 <= k <= |cands|
      invariant r == ChosenUpTo(cands, fits, k)
    {
      ChosenNext(cands, fits, k);
      if fits[k] {
        r := r + [cands[k]];
      }
      k := k + 1;
    }
  }

  /** tratare_codificari_df: copy, label-encode the listed columns one by one, then gather the one-hot
      columns and expand them. */
  method EncodeCategoricalColumns(df: Table, useOneHot: bool, labelOrders: LabelOrders, limit: Option<nat>, num: Numerics)
    returns (r: Result<Table>)
    requires WellFormed(df)
    ensures r == EncodeCategoricals(df, useOneHot, labelOrders, limit, num)
  {
    r := LabelEncodeColumns(df, labelOrders);
    if r.Failure? || !useOneHot {
      return;
    }
    var cur := r.value;
    var remaining := OneHotCandidates(cur, Keys(labelOrders));
    var colsOneHot := ChooseOneHotColumns(cur, remaining, limit);
    ChosenMembers(remaining, LimitMask(cur, remaining, limit), |remaining|);
    if colsOneHot != [] {
      r := Success(GetDummies(cur, colsOneHot, num));
    }
  }

  lemma {:induction false} LabelFailurePersists(t: Table, lo: LabelOrders, j: nat, k: nat)
    requires WellFormed(t) && j <= k <= |lo| && LabelEncodeUpTo(t, lo, j).Failure?
    ensures LabelEncodeUpTo(t, lo, k) == LabelEncodeUpTo(t, lo, j)
    decreases k
  {
    if k > j {
      LabelFailurePersists(t, lo, j, k - 1);
    }
  }

  // ---------------------------------------------------------------------------------------------
  // What the expansion promises.

  /** Within one row, every indicator of a column holds a flag, and at most one of them is true. */
  lemma DummiesAreExclusiveFlags(c: Column, num: Numerics, i: nat)
    requires i < |c.cells|
    ensures var d := DummyColumns(c, num);
      && (forall k :: 0 <= k < |d| ==> d[k].cells[i].Some? && d[k].cells[i].value.Flag?)
      && (forall k1, k2 :: 0 <= k1 < k2 < |d| ==> !(d[k1].cells[i] == Some(Flag(true)) && d[k2].cells[i] == Some(Flag(true))))
  {
    LevelsAreSortedAndDistinct(c.cells);
  }

  /** Within one row, the indicators of a column are all false when its value is missing or is the
      first level, and otherwise the one of its level is true: reading them back gives the value. */
  lemma DummiesIdentifyTheLevel(c: Column, num: Numerics, i: nat)
    requires i < |c.cells|
    ensures var lv := Levels(c.cells); var d := DummyColumns(c, num);
      && (forall k :: 0 <= k < |d| ==> (d[k].cells[i] == Some(Flag(true)) <==> c.cells[i] == Some(lv[k + 1])))
      && ((exists k :: 0 <= k < |d| && d[k].cells[i] == Some(Flag(true))) <==> c.cells[i].Some? && c.cells[i] != Some(lv[0]))
  {
    var lv := Levels(c.cells);
    var d := DummyColumns(c, num);
    LevelsAreSortedAndDistinct(c.cells);
    if c.cells[i].Some? && |lv| > 0 && c.cells[i] != Some(lv[0]) {
      var v := c.cells[i].value;
      assert v in lv;
      var p :| 0 <= p < |lv| && lv[p] == v;
      assert d[p - 1].cells[i] == Some(Flag(true));
    }
  }

  lemma UnderscoredIsNotTarget(a: string, b: string)
    ensures a + "_" + b != TARGET
  {
    var n := a + "_" + b;
    assert n[|a|] == '_';
    if |a| < |TARGET| {
      assert TARGET[|a|] != '_';
    }
  }

  /** The indicator columns of one column carry its name, then "_", then their level; none of them can
      be called Target. */
  lemma DummyNamesAreLevels(c: Column, num: Numerics)
    ensures var lv := Levels(c.cells); var d := DummyColumns(c, num);
      forall k :: 0 <= k < |d| ==> d[k].name == c.name + "_" + ShowValue(lv[k + 1], num) && d[k].name != TARGET
  {
    var lv := Levels(c.cells);
    var d := DummyColumns(c, num);
    forall k | 0 <= k < |d| ensures d[k].name != TARGET {
      UnderscoredIsNotTarget(c.name, ShowValue(lv[k + 1], num));
    }
  }

  /** No indicator column of the chosen columns is called Target. */
  lemma {:induction false} DummiesAreNotTarget(t: Table, chosen: seq<string>, num: Numerics)
    requires WellFormed(t) && forall x :: x in chosen ==> ColumnIndex(t.columns, x).Some?
    ensures forall c :: c in DummiesFor(t, chosen, num) ==> c.name != TARGET
    decreases |chosen|
  {
    if chosen != [] {
      var last := chosen[|chosen| - 1];
      DummiesAreNotTarget(t, chosen[..|chosen| - 1], num);
      DummyNamesAreLevels(t.columns[ColumnIndex(t.columns, last).value], num);
    }
  }

  /** One-hot expansion keeps every column it does not expand, unchanged and in order before the
      indicator columns, removes the expanded ones, and adds (distinct values - 1) indicators for each. */
  lemma OneHotShape(t: Table, chosen: seq<string>, num: Numerics)
    requires WellFormed(t) && forall x :: x in chosen ==> ColumnIndex(t.columns, x).Some?
    ensures var r := GetDummies(t, chosen, num); var kept := UntouchedColumns(t.columns, chosen);
      && r.columns[..|kept|] == kept
      && (forall c :: c in kept <==> c in t.columns && c.name !in chosen)
      && |r.columns| == |kept| + DummyCount(t, chosen)
      && (forall k :: |kept| <= k < |r.columns| ==> r.columns[k].dtype == Bool)
  {
    DummiesCount(t, chosen, num);
  }

  /** The number of indicator columns the chosen columns get together. */
  function DummyCount(t: Table, chosen: seq<string>): nat
    requires WellFormed(t) && forall x :: x in chosen ==> ColumnIndex(t.columns, x).Some?
  {
    if chosen == [] then 0
    else
      var n := NUnique(t.columns[ColumnIndex(t.columns, chosen[|chosen| - 1]).value].cells);
      DummyCount(t, chosen[..|chosen| - 1]) + (if n == 0 then 0 else n - 1)
  }

  lemma {:induction false} DummiesCount(t: Table, chosen: seq<string>, num: Numerics)
    requires WellFormed(t) && forall x :: x in chosen ==> ColumnIndex(t.columns, x).Some?
    ensures |DummiesFor(t, chosen, num)| == DummyCount(t, chosen)
    decreases |chosen|
  {
    if chosen != [] {
      DummiesCount(t, chosen[..|chosen| - 1], num);
    }
  }

  /** The encoding stage never touches Target: a column named Target before the stage is still there,
      unchanged, afterwards (EncodingAddsNoTarget: and no other column takes its name). */
  lemma EncodingKeepsTarget(t: Table, useOneHot: bool, lo: LabelOrders, limit: Option<nat>, num: Numerics, j: nat)
    requires WellFormed(t) && UniqueKeys(lo) && j < |t.columns| && t.columns[j].name == TARGET
    requires EncodeCategoricals(t, useOneHot, lo, limit, num).Success?
    ensures t.columns[j] in EncodeCategoricals(t, useOneHot, lo, limit, num).value.columns
  {
    var u := LabelEncodeUpTo(t, lo, |lo|).value;
    assert u.columns[j] == t.columns[j] by {
      LabelEncodingColumnwise(t, lo);
    }
    var cands := OneHotCandidates(u, Keys(lo));
    var chosen := ChosenColumns(u, cands, limit);
    ChosenMembers(cands, LimitMask(u, cands, limit), |cands|);
    assert TARGET !in cands;
    assert forall x :: x in chosen ==> x in cands;
    if useOneHot && chosen != [] {
      assert EncodeCategoricals(t, useOneHot, lo, limit, num) == Success(GetDummies(u, chosen, num));
      assert u.columns[j] in UntouchedColumns(u.columns, chosen);
    } else {
      assert EncodeCategoricals(t, useOneHot, lo, limit, num) == Success(u);
    }
  }

  /** When the input has one column named Target, every column of the encoded table named Target is
      that column: no code or indicator column takes the name. */
  lemma EncodingAddsNoTarget(t: Table, useOneHot: bool, lo: LabelOrders, limit: Option<nat>, num: Numerics, j: nat)
    requires WellFormed(t) && UniqueKeys(lo) && j < |t.columns| && t.columns[j].name == TARGET
    requires forall m :: 0 <= m < |t.columns| && t.columns[m].name == TARGET ==> m == j
    requires EncodeCategoricals(t, useOneHot, lo, limit, num).Success?
    ensures forall c :: c in EncodeCategoricals(t, useOneHot, lo, limit, num).value.columns && c.name == TARGET ==> c == t.columns[j]
  {
    var u := LabelEncodeUpTo(t, lo, |lo|).value;
    assert u.columns[j] == t.columns[j] by {
      LabelEncodingColumnwise(t, lo);
    }
    forall c | c in u.columns && c.name == TARGET ensures c == t.columns[j] {
      var m :| 0 <= m < |u.columns| && u.columns[m] == c;
      assert t.columns[m].name == TARGET;
    }
    var cands := OneHotCandidates(u, Keys(lo));
    var chosen := ChosenColumns(u, cands, limit);
    ChosenMembers(cands, LimitMask(u, cands, limit), |cands|);
    assert forall x :: x in chosen ==> x in cands;
    if useOneHot && chosen != [] {
      assert EncodeCategoricals(t, useOneHot, lo, limit, num) == Success(GetDummies(u, chosen, num));
      DummiesAreNotTarget(u, chosen, num);
    } else {
      assert EncodeCategoricals(t, useOneHot, lo, limit, num) == Success(u);
    }
  }

  /** Without a limit, as the pipeline calls the stage, every object column other than Target that is
      not label-encoded is expanded; with a limit, exactly those with at most that many distinct values. */
  lemma ChosenColumnsObeyTheLimit(u: Table, keys: seq<string>, limit: Option<nat>)
    requires WellFormed(u)
    ensures var cands := OneHotCandidates(u, keys);
      var chosen := ChosenColumns(u, cands, limit);
      && (limit.None? ==> chosen == cands)
      && forall x :: x in chosen <==>
           (x in cands && (limit.None? || NUnique(u.columns[ColumnIndex(u.columns, x).value].cells) <= limit.value))
  {
    var cands := OneHotCandidates(u, keys);
    ChosenAreWithinLimit(u, cands, limit);
    if limit.None? {
      NoLimitChoosesAll(u, cands);
    }
  }

  /** A candidate is chosen exactly when it is within the limit. */
  lemma ChosenAreWithinLimit(u: Table, cands: seq<string>, limit: Option<nat>)
    ensures forall x :: x in ChosenColumns(u, cands, limit) <==> x in cands && WithinLimit(u, x, limit)
  {
    var fits := LimitMask(u, cands, limit);
    ChosenMembers(cands, fits, |cands|);
    forall x | x in cands && WithinLimit(u, x, limit)
      ensures exists m :: 0 <= m < |cands| && cands[m] == x && fits[m]
    {
      var m :| 0 <= m < |cands| && cands[m] == x;
      assert fits[m];
    }
  }

  /** Without a limit every candidate that names a column is chosen, in order. */
  lemma NoLimitChoosesAll(u: Table, cands: seq<string>)
    requires forall x :: x in cands ==> ColumnIndex(u.columns, x).Some?
    ensures ChosenColumns(u, cands, None) == cands
  {
    var fits := LimitMask(u, cands, None);
    forall i | 0 <= i < |fits| ensures fits[i] {
      assert cands[i] in cands;
    }
    AllFitChoosesAll(cands, fits, |cands|);
    assert cands[..|cands|] == cands;
  }
}
