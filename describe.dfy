/**
 * The column description page (pages/3_descriere_date.py): the kind of a variable, the fixed
 * descriptions of the dataset's columns, and the summary shown for a categorical or boolean column.
 */
module Describe {
  import opened Seqs
  import opened Frames
  import opened ValueOrder

  /** pandas' is_numeric_dtype: the numpy number dtypes and bool. */
  predicate IsNumericDtype(d: Dtype)
  {
    d == Int64 || d == Float64 || d == OtherNumeric || d == Bool
  }

  const BOOLEAN: string := "booleană"
  const NUMERIC: string := "numerică"
  const CATEGORICAL: string := "categorială"
  const UNCLASSIFIED: string := "-"

  /** get_tip_variabila: the first test that holds decides, and bool is tested before the numbers. */
  function VariableKind(d: Dtype): (r: string)
    ensures r == BOOLEAN <==> d == Bool
    ensures r == NUMERIC <==> IsNumericDtype(d) && d != Bool
    ensures r == CATEGORICAL <==> d == Category || d == Object
    ensures r == UNCLASSIFIED <==> !IsNumericDtype(d) && d != Category && d != Object
  {
    if d == Bool then BOOLEAN
    else if IsNumericDtype(d) then NUMERIC
    else if d == Category || d == Object then CATEGORICAL
    else UNCLASSIFIED
  }

  /** The four labels differ, so every dtype gets exactly one of them; a bool column, although
      numeric for pandas, is boolean. */
  lemma EveryDtypeHasOneKind(d: Dtype)
    ensures VariableKind(d) in [BOOLEAN, NUMERIC, CATEGORICAL, UNCLASSIFIED]
    ensures |{BOOLEAN, NUMERIC, CATEGORICAL, UNCLASSIFIED}| == 4
    ensures IsNumericDtype(Bool) && VariableKind(Bool) == BOOLEAN
  {
    assert BOOLEAN[0] != NUMERIC[0] && BOOLEAN[0] != CATEGORICAL[0] && NUMERIC[0] != CATEGORICAL[0];
    assert |UNCLASSIFIED| == 1 && |BOOLEAN| > 1 && |NUMERIC| > 1 && |CATEGORICAL| > 1;
  }

  /** descrieri_coloane: the description of each column of the student dataset. */
  const DESCRIPTIONS: map<string, string> := map[
    "Marital status" := "Starea civilă a studentului la momentul înscrierii.",
    "Application mode" := "Modalitatea prin care studentul a aplicat la universitate.",
    "Application order" := "Ordinea în care programul de studii a fost selectat în lista de opțiuni.",
    "Course" := "Programul de studiu la care studentul este înscris.",
    "Daytime/evening attendance" := "Indică dacă studentul urmează cursuri de zi sau de seară.",
    "Previous qualification" := "Tipul diplomei sau calificării deținute înainte de admitere.",
    "Previous qualification (grade)" := "Nota (0-200) obținută la calificarea anterioară.",
    "Country of origin" := "Țara natală a studentului.",
    "Mother's qualification" := "Nivelul educațional al mamei.",
    "Father's qualification" := "Nivelul educațional al tatălui.",
    "Mother's occupation" := "Ocupația principală a mamei.",
    "Father's occupation" := "Ocupația principală a tatălui.",
    "Admission grade" := "Nota de admitere a studentului în program.",
    "Displaced" := "Indică dacă studentul studiază departe de domiciliul său.",
    "Educational special needs" := "Indică dacă studentul are nevoi educaționale speciale.",
    "Debtor" := "Indică dacă studentul are datorii financiare față de instituție.",
    "Tuition fees up to date" := "Stare actuală a plății taxelor de școlarizare.",
    "Gender" := "Genul studentului (masculin/feminin).",
    "Scholarship holder" := "Indică dacă studentul beneficiază de bursă.",
    "Age at enrollment" := "Vârsta studentului la momentul înscrierii.",
    "International" := "Indică dacă studentul este internațional.",
    "Curricular units 1st sem (credited)" := "Număr de credite obținute prin echivalare în primul semestru.",
    "Curricular units 1st sem (enrolled)" := "Număr total de materii înscrise în primul semestru.",
    "Curricular units 1st sem (evaluations)" := "Număr de evaluări efectuate în primul semestru.",
    "Curricular units 1st sem (approved)" := "Număr de materii promovate în primul semestru.",
    "Curricular units 1st sem (grade)" := "Media din primul semestru.",
    "Curricular units 1st sem (without evaluations)" := "Număr de materii neevaluate în primul semestru.",
    "Curricular units 2nd sem (credited)" := "Număr de credite obținute prin echivalare în al doilea semestru.",
    "Curricular units 2nd sem (enrolled)" := "Număr total de materii înscrise în al doilea semestru.",
    "Curricular units 2nd sem (evaluations)" := "Număr de evaluări efectuate în al doilea semestru.",
    "Curricular units 2nd sem (approved)" := "Număr de materii promovate în al doilea semestru.",
    "Curricular units 2nd sem (grade)" := "Media din al doilea semestru.",
    "Curricular units 2nd sem (without evaluations)" := "Număr de materii neevaluate în al doilea semestru.",
    "Unemployment rate" := "Rata șomajului la momentul înscrierii studentului.",
    "Inflation rate" := "Rata inflației la momentul înscrierii.",
    "GDP" := "Produsul Intern Brut în perioada înscrierii.",
    "Target" := "Variabila țintă, ce indică dacă studentul a abandonat (`Dropout`), încă mai este înscris (`Enrolled`) sau a absolvit (`Graduate`)."
  ]

  /** What the page shows under a column's kind. The numeric statistics are library arithmetic and
      are not modelled. */
  datatype Summary =
    | TrueCount(count: nat)
    | NumericStatistics
    | Categorical(distinct: nat, top: seq<(Value, nat)>)
    | NoSummary

  /** The summary for the column's kind: the number of True cells (`col_data.sum()`) for a boolean
      column, nunique() and value_counts().head(5) for a categorical one. */
  function Summarise(c: Column): Summary
  {
    var kind := VariableKind(c.dtype);
    if kind == BOOLEAN then TrueCount(Occurrences(c.cells, Flag(true)))
    else if kind == NUMERIC then NumericStatistics
    else if kind == CATEGORICAL then Categorical(|Distinct(Present(c.cells))|, Take(ValueCounts(c.cells), 5))
    else NoSummary
  }

  /** The page for the selected column: its description, its kind and its summary; None where the
      dictionary has no entry for the column, which stops the page with a KeyError before the kind
      is computed. */
  function ColumnPage(c: Column): (r: Option<(string, string, Summary)>)
    ensures r.None? <==> c.name !in DESCRIPTIONS
    ensures r.Some? ==> r.value.0 == DESCRIPTIONS[c.name] && r.value.1 == VariableKind(c.dtype)
  {
    if c.name !in DESCRIPTIONS then None
    else Some((DESCRIPTIONS[c.name], VariableKind(c.dtype), Summarise(c)))
  }

  /** The first n entries of a count list sorted by count: counts descending, and a present value
      left out when the list was cut at n. */
  lemma TakeOfValueCounts(cells: seq<Cell>, vc: seq<(Value, nat)>, n: nat)
    requires SortedBy(vc, CountDesc)
    requires forall m :: 0 <= m < |vc| ==> vc[m].1 == Occurrences(cells, vc[m].0) && Some(vc[m].0) in cells
    requires forall v :: Some(v) in cells ==> exists p :: 0 <= p < |vc| && vc[p].0 == v
    ensures var top := Take(vc, n);
      && (forall a, b :: 0 <= a < b < |top| ==> top[a].1 >= top[b].1)
      && (forall v :: Some(v) in cells && (forall k :: 0 <= k < |top| ==> top[k].0 != v) ==>
            |top| == n && forall k :: 0 <= k < |top| ==> Occurrences(cells, v) <= top[k].1)
  {
    var top := Take(vc, n);
    forall a, b | 0 <= a < b < |top| ensures top[a].1 >= top[b].1 {
      assert CountDesc(vc[a], vc[b]);
    }
    forall v | Some(v) in cells && (forall k :: 0 <= k < |top| ==> top[k].0 != v)
      ensures |top| == n && forall k :: 0 <= k < |top| ==> Occurrences(cells, v) <= top[k].1
    {
      var p :| 0 <= p < |vc| && vc[p].0 == v;
      assert p >= |top|;
      forall k | 0 <= k < |top| ensures Occurrences(cells, v) <= top[k].1 {
        assert CountDesc(vc[k], vc[p]);
      }
    }
  }

  /** A categorical column's summary counts its distinct present values and lists at most five of
      them with their counts, the most frequent first, no value left out being more frequent than
      one listed. */
  lemma CategoricalSummaryListsTheMostFrequent(c: Column)
    requires c.dtype == Object || c.dtype == Category
    ensures Summarise(c).Categorical?
    ensures var s := Summarise(c);
      && s.distinct == |Distinct(Present(c.cells))|
      && |s.top| <= 5
      && (forall k :: 0 <= k < |s.top| ==> Some(s.top[k].0) in c.cells && s.top[k].1 == Occurrences(c.cells, s.top[k].0))
      && (forall a, b :: 0 <= a < b < |s.top| ==> s.top[a].1 >= s.top[b].1)
      && (forall v :: Some(v) in c.cells && (forall k :: 0 <= k < |s.top| ==> s.top[k].0 != v) ==>
            |s.top| == 5 && forall k :: 0 <= k < |s.top| ==> Occurrences(c.cells, v) <= s.top[k].1)
  {
    var vc := ValueCounts(c.cells);
    ValueCountsFacts(c.cells);
    TakeOfValueCounts(c.cells, vc, 5);
    assert Summarise(c) == Categorical(|Distinct(Present(c.cells))|, Take(vc, 5));
  }

  /** A boolean column's summary is its number of True cells: never more than its rows, and zero
      exactly when no cell is True. */
  lemma BooleanSummaryCountsTrue(c: Column)
    requires c.dtype == Bool
    ensures Summarise(c).TrueCount?
    ensures Summarise(c).count == Occurrences(c.cells, Flag(true)) <= |c.cells|
    ensures Summarise(c).count > 0 <==> Some(Flag(true)) in c.cells
  {
  }
}
