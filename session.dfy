/**
 * The state the pages share through st.session_state: the loaded table, the has_nan_values flag,
 * the label orders chosen on the preprocessing page, the stored config, the four sets
 * (seturi_date) and the results of the last training run (rezultate). Each button or widget that
 * writes to that state is a method.
 */
module AppState {
  import opened Frames
  import opened Encoding
  import opened Preparation
  import opened ModelBench
  import opened DataQuality

  class Session {
    /** st.session_state.df: the table every page reads; None before a file is loaded. */
    var df: Option<Table>
    var hasNanValues: bool
    var labelSortOrders: LabelOrders
    /** The widget values of the stored config. Its label orders are the live dict itself, so
        StoredConfig() reads them from labelSortOrders. */
    var settings: Option<Config>
    var splits: Option<TrainingSets>
    var results: seq<ResultRow>
    /** How many times missing values were injected. */
    ghost var injections: nat

    ghost predicate Valid()
      reads this
    {
      && (df.Some? ==> WellFormed(df.value))
      && UniqueKeys(labelSortOrders)
      && injections == (if hasNanValues then 1 else 0)
    }

    /** st.session_state.config: the dict stored by "Aplicare setări", whose "codificare_label"
        entry is the same dict object as label_sort_orders. */
    function StoredConfig(): Option<Config>
      reads this
    {
      if settings.Some? then Some(settings.value.(labelOrders := labelSortOrders)) else None
    }

    /** A session after a table was loaded (or not): the flag is False, the label orders empty, no
        config, no sets and no results yet. */
    constructor (loaded: Option<Table>)
      requires loaded.Some? ==> WellFormed(loaded.value)
      ensures Valid()
      ensures df == loaded && !hasNanValues && labelSortOrders == [] && settings.None? && splits.None? && results == []
      ensures injections == 0
    {
      df := loaded;
      hasNanValues := false;
      labelSortOrders := [];
      settings := None;
      splits := None;
      results := [];
      injections := 0;
    }

    /** "Introducere valori NaN": shown only while has_nan_values is False; it replaces the table by
        the injected copy and sets the flag, so it takes effect at most once per session. */
    method PressInjectButton(draws: seq<Draw>)
      requires Valid()
      requires df.Some? ==> |draws| == |df.value.columns|
      requires df.Some? ==> forall j :: 0 <= j < |df.value.columns| && df.value.columns[j].name != TARGET ==>
        ValidDraw(draws[j], NumRows(df.value), PERCENT_MIN, PERCENT_MAX)
      modifies this
      ensures Valid() && injections <= 1
      ensures old(df.Some? && !hasNanValues) ==> df == Some(Injected(old(df).value, draws)) && hasNanValues
      ensures !old(df.Some? && !hasNanValues) ==> df == old(df) && hasNanValues == old(hasNanValues)
      ensures injections == old(injections) + (if old(df.Some? && !hasNanValues) then 1 else 0)
      ensures labelSortOrders == old(labelSortOrders) && settings == old(settings) && splits == old(splits) && results == old(results)
    {
      if df.Some? && !hasNanValues {
        var injected := InjectMissingValues(df.value, PERCENT_MIN, PERCENT_MAX, draws);
        df := Some(injected);
        hasNanValues := true;
        injections := injections + 1;
      }
    }

    /** Sorting a column's values in the label-encoding widget: the column's entry of
        label_sort_orders is set, a new column added last; no entry is ever removed, and a config
        stored earlier sees the change, since it holds the same dict. */
    method ChooseLabelOrder(column: string, order: seq<Cell>)
      requires Valid()
      modifies this
      ensures Valid()
      ensures labelSortOrders == Assign(old(labelSortOrders), column, order)
      ensures column in Keys(labelSortOrders)
      ensures forall k :: k in Keys(old(labelSortOrders)) ==> k in Keys(labelSortOrders)
      ensures old(settings).Some? ==> StoredConfig() == Some(old(settings).value.(labelOrders := labelSortOrders))
      ensures df == old(df) && hasNanValues == old(hasNanValues) && settings == old(settings)
      ensures splits == old(splits) && results == old(results) && injections == old(injections)
    {
      var before := labelSortOrders;
      labelSortOrders := Assign(labelSortOrders, column, order);
      forall k | k in Keys(before) ensures k in Keys(labelSortOrders) {
        var e :| 0 <= e < |before| && Keys(before)[e] == k;
        assert Keys(labelSortOrders)[e] == k;
      }
      if column in Keys(before) {
        var e :| 0 <= e < |before| && Keys(before)[e] == column;
        assert Keys(labelSortOrders)[e] == column;
      } else {
        assert Keys(labelSortOrders)[|before|] == column;
      }
    }

    /** "Aplicare setări": the config takes the widget values and the whole label_sort_orders dict;
        pregatire_date runs on the session's table; the four sets and the config are stored only
        when it returns (an exception stops the page before either is written). The page offers the
        button only once a table is loaded. */
    method ApplySettings(widgets: Config, num: Numerics, shuffle: Shuffle) returns (r: Result<Prepared>)
      requires Valid() && ValidShuffle(shuffle) && df.Some?
      modifies this
      ensures Valid()
      ensures r == Prepare(old(df).value, widgets.(labelOrders := labelSortOrders), num, shuffle)
      ensures r.Success? ==>
        && splits == Some(TrainingSets(r.value.xTrain, r.value.xTest, r.value.yTrain, r.value.yTest))
        && StoredConfig() == Some(widgets.(labelOrders := labelSortOrders))
      ensures r.Failure? ==> splits == old(splits) && settings == old(settings)
      ensures df == old(df) && hasNanValues == old(hasNanValues) && labelSortOrders == old(labelSortOrders)
      ensures results == old(results) && injections == old(injections)
    {
      var cfg := widgets.(labelOrders := labelSortOrders);
      r := PrepareData(df.value, cfg, num, shuffle);
      StoreOutcome(cfg, r);
    }

    /** Stores the sets (seturi_date) and the config once pregatire_date has returned. */
    method StoreOutcome(cfg: Config, r: Result<Prepared>)
      requires Valid() && cfg.labelOrders == labelSortOrders
      modifies this
      ensures Valid()
      ensures r.Success? ==>
        && splits == Some(TrainingSets(r.value.xTrain, r.value.xTest, r.value.yTrain, r.value.yTest))
        && StoredConfig() == Some(cfg)
      ensures r.Failure? ==> splits == old(splits) && settings == old(settings)
      ensures df == old(df) && hasNanValues == old(hasNanValues) && labelSortOrders == old(labelSortOrders)
      ensures results == old(results) && injections == old(injections)
    {
      if r.Success? {
        splits := Some(TrainingSets(r.value.xTrain, r.value.xTest, r.value.yTrain, r.value.yTest));
        settings := Some(cfg);
      }
    }

    /** The model page runs only when a table, a config and the four sets are in the session. */
    predicate ReadyToTrain()
      reads this
    {
      df.Some? && settings.Some? && splits.Some?
    }

    /** "Antrenează modelele": results are reset; the stored X_train and X_test are renamed in
        place; the labels are mapped to codes in local copies; then each selected model found in
        MODELE_DISPONIBILE is trained, in order, and appends its row when training succeeds. */
    method TrainModels(selected: seq<string>, trainer: Trainer)
      requires Valid()
      modifies this
      ensures Valid()
      ensures old(ReadyToTrain()) ==>
        && splits == Some(RenamedSets(old(splits).value))
        && results == RunResults(selected, CodedSets(splits.value), trainer)
      ensures !old(ReadyToTrain()) ==> splits == old(splits) && results == old(results)
      ensures df == old(df) && hasNanValues == old(hasNanValues) && labelSortOrders == old(labelSortOrders)
      ensures settings == old(settings) && injections == old(injections)
    {
      if !ReadyToTrain() {
        return;
      }
      results := [];
      var stored := splits.value;
      splits := Some(RenamedSets(stored));
      var sets := CodedSets(splits.value);
      var i := 0;
      while i < |selected|
        invariant 0 <= i <= |selected|
        invariant results == RunResults(selected[..i], sets, trainer)
        invariant splits == Some(RenamedSets(stored))
        invariant df == old(df) && hasNanValues == old(hasNanValues) && labelSortOrders == old(labelSortOrders)
        invariant settings == old(settings) && injections == old(injections)
      {
        var model := selected[i];
        if model in AVAILABLE {
          var row := Attempt(model, sets, trainer);
          if row.Some? {
            results := results + [row.value];
          }
        }
        assert selected[..i + 1][..i] == selected[..i];
        i := i + 1;
      }
      assert selected[..|selected|] == selected;
    }
  }

  /** The stored sets after the renaming of X_train's and X_test's columns. */
  function RenamedSets(s: TrainingSets): TrainingSets
  {
    s.(xTrain := SanitisedNames(s.xTrain), xTest := SanitisedNames(s.xTest))
  }

  /** The sets the models see: the stored frames, the labels mapped through label_map. */
  function CodedSets(s: TrainingSets): TrainingSets
  {
    s.(yTrain := MapLabels(s.yTrain), yTest := MapLabels(s.yTest))
  }

  /** Renaming the stored sets' columns is idempotent, so a second press of the button trains on the
      very sets the first did; with the libraries taken as a function of their inputs, the results
      are then equal by that alone. */
  lemma RetrainingIsStable(s: TrainingSets, selected: seq<string>, trainer: Trainer)
    ensures RenamedSets(RenamedSets(s)) == RenamedSets(s)
    ensures RunResults(selected, CodedSets(RenamedSets(RenamedSets(s))), trainer) == RunResults(selected, CodedSets(RenamedSets(s)), trainer)
  {
    RenamingChangesOnlyNames(s.xTrain, s.xTest);
    RenamingChangesOnlyNames(s.xTest, s.xTrain);
  }
}
