/**
 * The model bench (pages/12_modele_ml.py): column-name sanitising, the class-to-integer map and
 * its inverse, the bookkeeping of a training run (one result per model that trains, failures
 * isolated), the leaderboard and the confusion-matrix heatmap. Fitting, predicting and scoring are
 * library calls and stay opaque.
 */
module ModelBench {
  import opened Seqs
  import opened Frames

  // ---------------------------------------------------------------------------------------------
  // Column-name sanitising: `columns.str.replace("[^A-Za-z0-9_]+", "_", regex=True)`.

  predicate Allowed(c: char)
  {
    ('A' <= c <= 'Z') || ('a' <= c <= 'z') || ('0' <= c <= '9') || c == '_'
  }

  predicate AllAllowed(s: string)
  {
    forall i :: 0 <= i < |s| ==> Allowed(s[i])
  }

  /** The string after its leading run of disallowed characters. */
  function SkipRun(s: string): (r: string)
    ensures |r| <= |s|
    ensures r == [] || Allowed(r[0])
  {
    if s == [] || Allowed(s[0]) then s
    else SkipRun(s[1..])
  }

  /** The regex substitution, scanning left to right: a run of disallowed characters, however long,
      becomes one underscore. */
  function Sanitise(s: string): (r: string)
    ensures |r| <= |s|
    decreases |s|
  {
    if s == [] then []
    else if Allowed(s[0]) then [s[0]] + Sanitise(s[1..])
    else "_" + Sanitise(SkipRun(s[1..]))
  }

  /** Every character of a sanitised name is in [A-Za-z0-9_]. */
  lemma {:induction false} SanitisedNameIsAllowed(s: string)
    ensures AllAllowed(Sanitise(s))
    decreases |s|
  {
    if s != [] {
      var head, tail := if Allowed(s[0]) then [s[0]] else "_", if Allowed(s[0]) then s[1..] else SkipRun(s[1..]);
      SanitisedNameIsAllowed(tail);
      assert Sanitise(s) == head + Sanitise(tail);
      assert forall i :: 0 < i < |Sanitise(s)| ==> Sanitise(s)[i] == Sanitise(tail)[i - 1];
    }
  }

  /** A name made only of allowed characters is left as it is, and only such a name is. */
  lemma {:induction false} SanitiseFixesExactlyAllowedNames(s: string)
    ensures Sanitise(s) == s <==> AllAllowed(s)
    decreases |s|
  {
    if s != [] && Allowed(s[0]) {
      SanitiseFixesExactlyAllowedNames(s[1..]);
      assert AllAllowed(s) <==> AllAllowed(s[1..]) by {
        assert forall i :: 0 < i < |s| ==> s[i] == s[1..][i - 1];
      }
    }
  }

  /** Sanitising twice is sanitising once. */
  lemma SanitiseIsIdempotent(s: string)
    ensures Sanitise(Sanitise(s)) == Sanitise(s)
  {
    SanitisedNameIsAllowed(s);
    SanitiseFixesExactlyAllowedNames(Sanitise(s));
  }

  /** A non-empty run of disallowed characters becomes a single underscore. */
  lemma RunBecomesOneUnderscore(s: string)
    requires |s| > 0 && forall i :: 0 <= i < |s| ==> !Allowed(s[i])
    ensures Sanitise(s) == "_"
  {
    SkipRunOfRun(s[1..]);
  }

  lemma {:induction false} SkipRunOfRun(s: string)
    requires forall i :: 0 <= i < |s| ==> !Allowed(s[i])
    ensures SkipRun(s) == []
    decreases |s|
  {
    if s != [] {
      SkipRunOfRun(s[1..]);
    }
  }

  /** Sanitising works piece by piece wherever the pieces do not split a run: the text on each side
      of an allowed character is sanitised on its own. */
  lemma SanitiseSplitsAtAllowed(a: string, c: char, b: string)
    requires Allowed(c)
    ensures Sanitise(a + [c] + b) == Sanitise(a) + [c] + Sanitise(b)
  {
    AppendIsAssociative(a, [c], b);
    SanitiseConcat(a, [c] + b);
    assert ([c] + b)[0] == c && ([c] + b)[1..] == b;
  }

  /** Text that starts with an allowed character is sanitised the same after anything. */
  lemma {:induction false} SanitiseConcat(a: string, t: string)
    requires t != [] && Allowed(t[0])
    ensures Sanitise(a + t) == Sanitise(a) + Sanitise(t)
    decreases |a|
  {
    if a == [] {
      assert a + t == t;
    } else {
      var a1 := a[1..];
      assert (a + t)[0] == a[0] && (a + t)[1..] == a1 + t;
      if Allowed(a[0]) {
        SanitiseConcat(a1, t);
        AppendIsAssociative([a[0]], Sanitise(a1), Sanitise(t));
      } else {
        var rest := SkipRun(a1);
        SkipRunBeforeAllowed(a1, t);
        SanitiseConcat(rest, t);
        AppendIsAssociative("_", Sanitise(rest), Sanitise(t));
      }
    }
  }

  lemma AppendIsAssociative(x: string, y: string, z: string)
    ensures (x + y) + z == x + (y + z)
  {
  }

  /** A run that ends before an allowed character is skipped the same with or without what follows. */
  lemma {:induction false} SkipRunBeforeAllowed(a: string, b: string)
    requires b != [] && Allowed(b[0])
    ensures SkipRun(a + b) == SkipRun(a) + b
    decreases |a|
  {
    if a == [] {
      assert a + b == b;
    } else if !Allowed(a[0]) {
      assert (a + b)[1..] == a[1..] + b;
      SkipRunBeforeAllowed(a[1..], b);
    }
  }

  /** `X.columns = X.columns.str.replace(...)`: every column renamed by Sanitise. */
  function SanitisedNames(t: Table): Table
  {
    Table(seq(|t.columns|, (j: int) requires 0 <= j < |t.columns| => t.columns[j].(name := Sanitise(t.columns[j].name))), t.index)
  }

  /** The renaming changes names only, leaves every name in [A-Za-z0-9_], does nothing the second
      time, and keeps two frames with the same columns (X_train and X_test) with the same columns. */
  lemma RenamingChangesOnlyNames(a: Table, b: Table)
    ensures var r := SanitisedNames(a);
      && r.index == a.index && |r.columns| == |a.columns|
      && (forall j :: 0 <= j < |a.columns| ==>
            r.columns[j].cells == a.columns[j].cells && r.columns[j].dtype == a.columns[j].dtype && AllAllowed(r.columns[j].name))
      && (WellFormed(a) ==> WellFormed(r))
      && SanitisedNames(r) == r
      && (SameSchema(a, b) ==> SameSchema(r, SanitisedNames(b)))
  {
    var r := SanitisedNames(a);
    forall j | 0 <= j < |a.columns| ensures r.columns[j] == r.columns[j].(name := Sanitise(r.columns[j].name)) {
      SanitiseIsIdempotent(a.columns[j].name);
    }
    forall j | 0 <= j < |a.columns| ensures AllAllowed(r.columns[j].name) {
      SanitisedNameIsAllowed(a.columns[j].name);
    }
  }

  // ---------------------------------------------------------------------------------------------
  // The classes and label_map / inverse_label_map.

  const CLASSES: seq<string> := ["Dropout", "Enrolled", "Graduate"]

  /** `{label: idx for idx, label in enumerate(CLASE_ORDONATE)}`. */
  function LabelMap(): (m: map<string, nat>)
    ensures forall l :: l in m <==> l in CLASSES
    ensures forall l :: l in m ==> m[l] < |CLASSES| && CLASSES[m[l]] == l
    ensures forall i :: 0 <= i < |CLASSES| ==> m[CLASSES[i]] == i
  {
    map i | 0 <= i < |CLASSES| :: CLASSES[i] := i as nat
  }

  /** `{idx: label for label, idx in label_map.items()}`: label_map numbers the classes in order, so
      its inverse maps each position back to the class there (LabelMapsAreInverse). */
  function InverseLabelMap(): (m: map<nat, string>)
    ensures forall i: nat :: i in m <==> i < |CLASSES|
    ensures forall i :: i in m ==> m[i] == CLASSES[i]
  {
    map i | 0 <= i < |CLASSES| :: i as nat := CLASSES[i]
  }

  /** The two maps are inverse in both directions: label l has code i exactly when code i stands for
      label l; Dropout, Enrolled and Graduate get 0, 1 and 2. */
  lemma LabelMapsAreInverse()
    ensures LabelMap()["Dropout"] == 0 && LabelMap()["Enrolled"] == 1 && LabelMap()["Graduate"] == 2
    ensures forall l, i :: (l in LabelMap() && LabelMap()[l] == i) <==> (i in InverseLabelMap() && InverseLabelMap()[i] == l)
  {
    var lm := LabelMap();
    assert CLASSES[0] == "Dropout" && CLASSES[1] == "Enrolled" && CLASSES[2] == "Graduate";
    assert lm["Dropout"] == 0 && lm["Enrolled"] == 1 && lm["Graduate"] == 2;
  }

  function MapLabel(lm: map<string, nat>, c: Cell): Cell
  {
    if c.Some? && c.value.Text? && c.value.s in lm then Some(Num(lm[c.value.s] as real)) else None
  }

  /** `y.map(label_map)`: a class name becomes its code; anything else, missing cells included,
      becomes NaN. */
  function MapLabels(y: Column): (r: Column)
    ensures r.name == y.name && |r.cells| == |y.cells|
  {
    var lm := LabelMap();
    var cells := seq(|y.cells|, (i: int) requires 0 <= i < |y.cells| => MapLabel(lm, y.cells[i]));
    Column(y.name, if HasMissing(cells) then Float64 else Int64, cells)
  }

  /** Mapping the labels loses nothing about the classes: each cell naming a class gets a code that
      inverse_label_map turns back into that class, and every other cell becomes missing. */
  lemma MappedLabelsDecode(y: Column)
    ensures var r := MapLabels(y);
      forall i :: 0 <= i < |y.cells| ==>
        (if y.cells[i].Some? && y.cells[i].value.Text? && y.cells[i].value.s in CLASSES
         then r.cells[i].Some? && r.cells[i].value.Num?
              && r.cells[i].value.x.Floor as real == r.cells[i].value.x && r.cells[i].value.x.Floor in InverseLabelMap()
              && InverseLabelMap()[r.cells[i].value.x.Floor as nat] == y.cells[i].value.s
         else r.cells[i].None?)
  {
    LabelMapsAreInverse();
    assert forall s :: s in CLASSES <==> s in LabelMap();
  }

  // ---------------------------------------------------------------------------------------------
  // A training run.

  /** The keys of MODELE_DISPONIBILE, in order. */
  const AVAILABLE: seq<string> := ["CatBoost", "LightGBM", "XGBoost", "Random Forest", "Logistic Regression", "Decision Tree"]

  /** A confusion matrix with the class codes its rows and columns stand for: sklearn uses the sorted
      codes that occur among the true or the predicted labels. */
  datatype Confusion = Confusion(labels: seq<nat>, counts: seq<seq<nat>>)

  /** What fitting, predicting and scoring one model yields. */
  datatype Scores = Scores(acc: real, f1: real, cm: Confusion)

  /** One entry of `rezultate`: (denumire_model, acc, f1, cm). */
  datatype ResultRow = ResultRow(model: string, acc: real, f1: real, cm: Confusion)

  /** The four sets a run trains and scores on. */
  datatype TrainingSets = TrainingSets(xTrain: Table, xTest: Table, yTrain: Column, yTest: Column)

  /** The calls made for one model: `fit` on the training set (with cat_features or without), then
      `predict` on X_test, scored against y_test. */
  datatype FitCall = FitCall(model: string, sets: TrainingSets, catFeatures: Option<seq<string>>)

  /** The libraries: the scores a call produces, or None where fit or predict raises. */
  type Trainer = FitCall -> Option<Scores>

  /** `select_dtypes(include=["object", "category", "bool"]).columns.tolist()`. */
  function CatFeatures(x: Table): (r: seq<string>)
    ensures forall n :: n in r <==> exists j :: 0 <= j < |x.columns| && x.columns[j].name == n && IsObjectLike(x.columns[j].dtype)
    ensures |r| <= |x.columns|
    decreases |x.columns|
  {
    if x.columns == [] then []
    else
      var init := Table(x.columns[..|x.columns| - 1], x.index);
      var c := x.columns[|x.columns| - 1];
      var rest := CatFeatures(init);
      assert forall j :: 0 <= j < |init.columns| ==> init.columns[j] == x.columns[j];
      if IsObjectLike(c.dtype) then rest + [c.name] else rest
  }

  /** The call antrenare_model makes: CatBoost is told which features are categorical. */
  function Request(model: string, sets: TrainingSets): FitCall
  {
    FitCall(model, sets, if model == "CatBoost" then Some(CatFeatures(sets.xTrain)) else None)
  }

  /** antrenare_model: one result row, or none when the libraries raise. */
  function Attempt(model: string, sets: TrainingSets, trainer: Trainer): (r: Option<ResultRow>)
    ensures r.Some? <==> trainer(Request(model, sets)).Some?
    ensures r.Some? ==> r.value.model == model
  {
    match trainer(Request(model, sets))
    case None => None
    case Some(s) => Some(ResultRow(model, s.acc, s.f1, s.cm))
  }

  /** The rows a run appends for the selected models in order, names not in MODELE_DISPONIBILE skipped. */
  function RunResults(selected: seq<string>, sets: TrainingSets, trainer: Trainer): (r: seq<ResultRow>)
    ensures |r| <= |selected|
  {
    if selected == [] then []
    else
      var m := selected[|selected| - 1];
      var step := if m in AVAILABLE then Attempt(m, sets, trainer) else None;
      RunResults(selected[..|selected| - 1], sets, trainer) + (if step.Some? then [step.value] else [])
  }

  /** Only CatBoost receives cat_features, and they are the object, category and bool columns of
      X_train; every call sees the same four sets. */
  lemma OnlyCatBoostGetsCatFeatures(model: string, sets: TrainingSets)
    ensures Request(model, sets).catFeatures.Some? <==> model == "CatBoost"
    ensures Request(model, sets).sets == sets
    ensures model == "CatBoost" ==> forall n :: n in Request(model, sets).catFeatures.value <==>
      exists j :: 0 <= j < |sets.xTrain.columns| && sets.xTrain.columns[j].name == n && IsObjectLike(sets.xTrain.columns[j].dtype)
  {
  }

  /** One model's failure leaves the others alone: the run over a + b is the run over a followed by
      the run over b. */
  lemma {:induction false} RunsCompose(a: seq<string>, b: seq<string>, sets: TrainingSets, trainer: Trainer)
    ensures RunResults(a + b, sets, trainer) == RunResults(a, sets, trainer) + RunResults(b, sets, trainer)
    decreases |b|
  {
    if b == [] {
      assert a + b == a;
    } else {
      var b' := b[..|b| - 1];
      assert (a + b)[..|a + b| - 1] == a + b';
      assert (a + b)[|a + b| - 1] == b[|b| - 1];
      RunsCompose(a, b', sets, trainer);
    }
  }

  /** The number of rows naming model m. */
  function RowsFor(rows: seq<ResultRow>, m: string): (r: nat)
  {
    if rows == [] then 0 else RowsFor(rows[..|rows| - 1], m) + (if rows[|rows| - 1].model == m then 1 else 0)
  }

  function Count(s: seq<string>, m: string): (r: nat)
  {
    if s == [] then 0 else Count(s[..|s| - 1], m) + (if s[|s| - 1] == m then 1 else 0)
  }

  lemma RowsForConcat(a: seq<ResultRow>, b: seq<ResultRow>, m: string)
    ensures RowsFor(a + b, m) == RowsFor(a, m) + RowsFor(b, m)
    decreases |b|
  {
    if b != [] {
      assert (a + b)[..|a + b| - 1] == a + b[..|b| - 1];
    } else {
      assert a + b == a;
    }
  }

  /** Every row of a run belongs to a selected, available model, with the scores the libraries gave
      it; a model gets at most one row per time it was selected; and a selected, available model
      whose training succeeds does get a row. */
  lemma RunResultsAreTheSuccessfulModels(selected: seq<string>, sets: TrainingSets, trainer: Trainer)
    ensures var r := RunResults(selected, sets, trainer);
      && (forall i :: 0 <= i < |r| ==>
            && r[i].model in selected && r[i].model in AVAILABLE
            && trainer(Request(r[i].model, sets)) == Some(Scores(r[i].acc, r[i].f1, r[i].cm)))
      && (forall m :: RowsFor(r, m) <= Count(selected, m))
      && (forall m :: m in selected && m in AVAILABLE && trainer(Request(m, sets)).Some? ==> RowsFor(r, m) > 0)
  {
    RunRowsComeFromSuccesses(selected, sets, trainer);
    forall m ensures RowsFor(RunResults(selected, sets, trainer), m) <= Count(selected, m)
      && (m in selected && m in AVAILABLE && trainer(Request(m, sets)).Some? ==> RowsFor(RunResults(selected, sets, trainer), m) > 0)
    {
      RunRowsPerModel(selected, sets, trainer, m);
    }
  }

  /** A row of a run over the selected models: a selected, available model with the scores the
      libraries gave it. */
  predicate SuccessfulRow(row: ResultRow, selected: seq<string>, sets: TrainingSets, trainer: Trainer)
  {
    && row.model in selected && row.model in AVAILABLE
    && trainer(Request(row.model, sets)) == Some(Scores(row.acc, row.f1, row.cm))
  }

  /** The first part of RunResultsAreTheSuccessfulModels: each row is a selected, available model
      with the scores the libraries gave it. */
  lemma {:induction false} RunRowsComeFromSuccesses(selected: seq<string>, sets: TrainingSets, trainer: Trainer)
    ensures forall i :: 0 <= i < |RunResults(selected, sets, trainer)| ==> SuccessfulRow(RunResults(selected, sets, trainer)[i], selected, sets, trainer)
  {
    if selected != [] {
      var init := selected[..|selected| - 1];
      var last := selected[|selected| - 1];
      RunRowsComeFromSuccesses(init, sets, trainer);
      var prev := RunResults(init, sets, trainer);
      var step := if last in AVAILABLE then Attempt(last, sets, trainer) else None;
      var tail := if step.Some? then [step.value] else [];
      assert RunResults(selected, sets, trainer) == prev + tail;
      assert forall x :: x in init ==> x in selected;
      var r := prev + tail;
      forall i | 0 <= i < |r| ensures SuccessfulRow(r[i], selected, sets, trainer) {
        if i < |prev| {
          assert r[i] == prev[i] && SuccessfulRow(prev[i], init, sets, trainer);
        } else {
          var sc := trainer(Request(last, sets)).value;
          assert r[i] == step.value == ResultRow(last, sc.acc, sc.f1, sc.cm);
          assert last in selected;
        }
      }
    }
  }

  /** The counting parts of RunResultsAreTheSuccessfulModels, for one model m. */
  lemma {:induction false} RunRowsPerModel(selected: seq<string>, sets: TrainingSets, trainer: Trainer, m: string)
    ensures RowsFor(RunResults(selected, sets, trainer), m) <= Count(selected, m)
    ensures m in selected && m in AVAILABLE && trainer(Request(m, sets)).Some? ==> RowsFor(RunResults(selected, sets, trainer), m) > 0
  {
    if selected != [] {
      var init := selected[..|selected| - 1];
      var last := selected[|selected| - 1];
      RunRowsPerModel(init, sets, trainer, m);
      var prev := RunResults(init, sets, trainer);
      var step := if last in AVAILABLE then Attempt(last, sets, trainer) else None;
      var tail := if step.Some? then [step.value] else [];
      assert RunResults(selected, sets, trainer) == prev + tail;
      RowsForConcat(prev, tail, m);
      if step.Some? {
        assert tail[..0] == [] && step.value.model == last;
      }
      if m in selected && m != last {
        var k :| 0 <= k < |selected| && selected[k] == m;
        assert init[k] == m;
      }
    }
  }

  // ---------------------------------------------------------------------------------------------
  // The leaderboard and the heatmap.

  /** `leaderboard_df.iloc[:, :-1]`, shown only when the run produced results: every row without its
      confusion matrix. */
  function Leaderboard(results: seq<ResultRow>): (r: Option<seq<(string, real, real)>>)
    ensures r.None? <==> results == []
    ensures r.Some? ==> |r.value| == |results| && forall i :: 0 <= i < |results| ==>
      r.value[i].0 == results[i].model && r.value[i].1 == results[i].acc && r.value[i].2 == results[i].f1
  {
    if results == [] then None
    else Some(seq(|results|, (i: int) requires 0 <= i < |results| => (results[i].model, results[i].acc, results[i].f1)))
  }

  function Reverse<T>(s: seq<T>): (r: seq<T>)
    ensures |r| == |s|
    ensures forall i :: 0 <= i < |s| ==> r[i] == s[|s| - 1 - i]
  {
    seq(|s|, (i: int) requires 0 <= i < |s| => s[|s| - 1 - i])
  }

  /** `cm[:, ::-1]`: every row reversed. */
  function ReverseColumns(m: seq<seq<nat>>): (r: seq<seq<nat>>)
    ensures |r| == |m|
    ensures forall i :: 0 <= i < |m| ==> r[i] == Reverse(m[i])
  {
    seq(|m|, (i: int) requires 0 <= i < |m| => Reverse(m[i]))
  }

  /** A heatmap: cell (i, j) shows z[i][j], with row label y[i] and column label x[j]. */
  datatype Heatmap = Heatmap(z: seq<seq<nat>>, x: seq<string>, y: seq<string>)

  /** A k x k matrix over k distinct known class codes. */
  predicate SquareOverClasses(cm: Confusion)
  {
    && Increasing(cm.labels) && AllBelow(cm.labels, |CLASSES|)
    && |cm.counts| == |cm.labels|
    && forall i :: 0 <= i < |cm.counts| ==> |cm.counts[i]| == |cm.labels|
  }

  /** The heatmap reads right: each displayed row is labelled with the actual class of its counts,
      each displayed column with the predicted class of its counts, the columns running backwards. */
  predicate LabelsMatch(h: Heatmap, cm: Confusion)
    requires SquareOverClasses(cm)
  {
    && |h.z| == |cm.labels| && |h.y| >= |cm.labels| && |h.x| >= |cm.labels|
    && (forall i :: 0 <= i < |cm.labels| ==> |h.z[i]| == |cm.labels| && h.y[i] == CLASSES[cm.labels[i]])
    && (forall j :: 0 <= j < |cm.labels| ==> h.x[j] == CLASSES[cm.labels[|cm.labels| - 1 - j]])
    && (forall i, j :: 0 <= i < |cm.labels| && 0 <= j < |cm.labels| ==> h.z[i][j] == cm.counts[i][|cm.labels| - 1 - j])
  }

  /** Names that follow the matrix's classes label it right once the columns are reversed. */
  lemma ReversedHeatmapMatches(cm: Confusion, names: seq<string>)
    requires SquareOverClasses(cm)
    requires |names| == |cm.labels| && forall i :: 0 <= i < |names| ==> names[i] == CLASSES[cm.labels[i]]
    ensures LabelsMatch(Heatmap(ReverseColumns(cm.counts), Reverse(names), names), cm)
  {
    var h := Heatmap(ReverseColumns(cm.counts), Reverse(names), names);
    var n := |cm.labels|;
    forall i, j | 0 <= i < n && 0 <= j < n ensures h.z[i][j] == cm.counts[i][n - 1 - j] {
      assert h.z[i] == Reverse(cm.counts[i]);
    }
    forall j | 0 <= j < n ensures h.x[j] == CLASSES[cm.labels[n - 1 - j]] {
      assert h.x[j] == names[n - 1 - j];
    }
  }

  /** The heatmap as the page draws it: the reversed matrix under the three class names. */
  function HeatmapAsWritten(cm: Confusion): Heatmap
  {
    Heatmap(ReverseColumns(cm.counts), Reverse(CLASSES), CLASSES)
  }

  /** With all three classes in the matrix, the reversed columns and the reversed labels line up. */
  lemma AsWrittenMatchesWithAllClasses(cm: Confusion)
    requires SquareOverClasses(cm) && cm.labels == [0, 1, 2]
    ensures LabelsMatch(HeatmapAsWritten(cm), cm)
  {
    ReversedHeatmapMatches(cm, CLASSES);
  }

  /** When a class occurs neither among the true nor among the predicted test labels, the matrix is
      smaller and the fixed names mislabel it: here the Dropout column and the Graduate row are titled
      Enrolled. */
  lemma AsWrittenMislabelsMissingClass()
    ensures var cm := Confusion([0, 2], [[5, 1], [2, 7]]);
      SquareOverClasses(cm) && !LabelsMatch(HeatmapAsWritten(cm), cm)
    ensures var cm := Confusion([0, 2], [[5, 1], [2, 7]]); var h := HeatmapAsWritten(cm);
      && CLASSES[cm.labels[0]] == "Dropout" && CLASSES[cm.labels[1]] == "Graduate"
      && h.z[0][1] == cm.counts[0][0] && h.z[1][1] == cm.counts[1][0] && h.x[1] == "Enrolled"
      && h.y[1] == "Enrolled"
  {
    var cm := Confusion([0, 2], [[5, 1], [2, 7]]);
    var h := HeatmapAsWritten(cm);
    assert h.x[0] == "Graduate" && h.x[1] == "Enrolled";
    assert CLASSES[cm.labels[0]] == "Dropout";
  }

  /** The names of the classes a matrix covers. */
  function ClassNames(labels: seq<nat>): (r: seq<string>)
    requires AllBelow(labels, |CLASSES|)
    ensures |r| == |labels| && forall i :: 0 <= i < |labels| ==> r[i] == CLASSES[labels[i]]
  {
    seq(|labels|, (i: int) requires 0 <= i < |labels| => CLASSES[labels[i]])
  }

  /** The heatmap labelled with the matrix's own classes. */
  function HeatmapFor(cm: Confusion): (h: Heatmap)
    requires SquareOverClasses(cm)
    ensures LabelsMatch(h, cm)
  {
    var names := ClassNames(cm.labels);
    ReversedHeatmapMatches(cm, names);
    Heatmap(ReverseColumns(cm.counts), Reverse(names), names)
  }
}
