# Student dropout explorer: a Dafny model of its data logic

The application is a Streamlit dashboard over a dataset of students whose `Target` column says
whether each one dropped out, is still enrolled or graduated. Its pages describe the columns, chart
them, inject and report missing values, count duplicate rows, run a preprocessing pipeline and
train a bench of classifiers. This project models the logic behind those pages and proves what it
promises:

- the preprocessing pipeline of `pages/11_procesare.py`: outlier handling, imputation, label and
  one-hot encoding, scaling, the train/test split and the renumbering of the four parts;
- the bookkeeping of the model bench in `pages/12_modele_ml.py`: column-name sanitising, the
  class-to-code map and its inverse, the results list, the leaderboard and the confusion-matrix
  heatmap;
- the data-quality page `pages/10_duplicate_nan.py`: random injection of missing values, the
  one-shot flag that guards it, the top-five missing-value report, the total and the duplicate count;
- the column-kind classifier and the description lookup of `pages/3_descriere_date.py`;
- the aggregation behind the stacked bar chart of `pages/7_bar_charts.py`, and the column choice its page offers.

A table is columnar: `Frames.Table` holds named, typed columns of cells plus the row index, and a
cell is `Option<Value>` with `None` for a missing value. The library statistics (quantiles, mean,
median, `log1p`, the scalers' arithmetic, the `str()` of a float) are function fields of
`Frames.Numerics`, passed in. Random draws are parameters too: `DataQuality.Draw` is one column's
draw, and `Preparation.Shuffle` is the order `train_test_split` draws. `ModelBench.Trainer` stands
for the ML libraries: the scores a fit/predict call yields, or `None` where it raises.

Each stage of the pipeline is a method with a loop over the columns. It is proved equal to a
specification function, and the properties are lemmas about that function. The state the pages
share (`st.session_state`) is the class `AppState.Session`. Its buttons and widgets are methods:
inject missing values, choose a label order, apply the settings, train the models.

Files: `seqs.dfy` (sequence helpers), `frames.dfy` (tables), `valueorder.dfy` (value counts and the
mode), `outliers.dfy`, `imputation.dfy`, `encoding.dfy`, `preparation.dfy` (the pipeline),
`bench.dfy`, `quality.dfy`, `describe.dfy`, `barcharts.dfy` and `session.dfy`.

## Model

| member | source | states |
|---|---|---|
| Outliers.OutlierPolicyName | pages/11_procesare.py:60-71 | each recognised policy string parses back to its policy |
| Outliers.Fences | pages/11_procesare.py:54-58 | Tukey's fences enclose [Q1, Q3] when Q1 <= Q3 |
| Outliers.Clip | pages/11_procesare.py:66-69 | clipping keeps a missing cell missing, puts a number inside [lo, hi] and leaves a number already inside unchanged |
| Outliers.FencedRows | pages/11_procesare.py:61 | the rows kept by the boolean mask are exactly those whose value lies in the closed fence interval, in increasing order |
| Outliers.OutliersUpTo | pages/11_procesare.py:51-72 | after any number of columns the table keeps its number of columns and never gains rows, and keeps its index under every policy but row removal |
| Outliers.OutliersUpToWidens | pages/11_procesare.py:51-72 | after any number of columns the table keeps its column names and order and every dtype, except that a treated int64 column may have become float64 |
| Outliers.TreatOutliers | pages/11_procesare.py:29-72 | the loop over the int64/float64 columns other than Target computes the specification HandleOutliers |
| Outliers.TreatedUpTo | pages/11_procesare.py:51-69 | under a row-keeping policy, the first k columns are treated and the rest untouched |
| Outliers.OutliersColumnwise | pages/11_procesare.py:51-72 | under a row-keeping policy every column is treated on its own with fences from the input column, index unchanged |
| Outliers.TreatColumn | pages/11_procesare.py:51-71 | one pass of the column loop: an int64/float64 column other than Target is treated under the policy (new cells, and float64 where pandas gives it), any other column leaves the table as it was |
| Outliers.TreatedStep | pages/11_procesare.py:51-69 | under a row-keeping policy, one more iteration treats column j and leaves every other column as it was |
| Outliers.LogTransformMakesFloat | pages/11_procesare.py:64-65 | "Transformare logaritmică" replaces each value of a treated column by its log1p and makes the column float64; other columns and rows stay |
| Outliers.KeepIsIdentity | pages/11_procesare.py:70-72 | "Păstrare" and any unrecognised policy string return the input table unchanged |
| Outliers.MaskingMissesExactlyOutliers | pages/11_procesare.py:62-63 | "Înlocuire cu NaN" makes missing exactly the values strictly outside their column's fences, and a column with such a value float64; every other cell, dtype and row stays |
| Outliers.CappingStaysWithinPercentiles | pages/11_procesare.py:66-69 | capping leaves every numeric value within the 1st and 99th percentiles, changes none already within them, keeps missing cells and rows, and makes each treated column float64 |
| Outliers.Survivors | pages/11_procesare.py:60-61 | the input positions of the surviving rows are increasing and as many as the rows left |
| Outliers.GatherTwice | pages/11_procesare.py:61 | filtering an already filtered table is one filter by the composed positions |
| Outliers.GatherAllRows | pages/11_procesare.py:70-72 | selecting every row in order gives the table back |
| Outliers.SurvivorsStep | pages/11_procesare.py:60-61 | one more removal step selects the survivors after that column from the input table |
| Outliers.RemovalSelectsSurvivors | pages/11_procesare.py:60-61 | row removal only selects input rows, in order, and changes no value |
| Outliers.RemovalStepKeepsExactlyFencedRows | pages/11_procesare.py:54-61 | one removal step keeps exactly the rows within the fences recomputed on the already filtered table; a missing value is dropped |
| Outliers.RemovalStepKeepsFenced | pages/11_procesare.py:61 | a column whose values all lie in an interval still does after a later removal step |
| Outliers.FencedStaysFenced | pages/11_procesare.py:51-61 | a column treated by removal stays within its fences while the later columns are treated |
| Outliers.FencedFrom | pages/11_procesare.py:51-61 | a column within its fences after its own removal step stays within them after every later step |
| Outliers.RemovalKeepsOnlyFencedRows | pages/11_procesare.py:54-61 | after row removal the row count never grew and every treated value lies within the fences its column had when the loop reached it |
| Outliers.KeptRows | pages/11_procesare.py:51-72 | the rows the stage keeps are increasing input positions |
| Outliers.OutliersNeverTouchTargetOrNonNumeric | pages/11_procesare.py:51-53 | under every policy, Target and every column that is not int64/float64 keep their values, only losing the rows the stage drops |
| Imputation.FillStrategyName | pages/11_procesare.py:102-107 | each recognised strategy string parses back to its strategy |
| Imputation.FillMissing | pages/11_procesare.py:103 | fillna puts the value in every missing cell and keeps every present one |
| Imputation.ImputeColumn | pages/11_procesare.py:100-110 | only a selected non-Target column with a missing cell changes; present cells never change; the fill is the mean, the median or the first mode; a mode fill of a column without values fails |
| Imputation.PassUpTo | pages/11_procesare.py:100-110 | a pass keeps schema and index |
| Imputation.FailurePersists | pages/11_procesare.py:107-110 | the first failure of a pass ends it |
| Imputation.RunPass | pages/11_procesare.py:100-110 | each loop computes its specification pass |
| Imputation.PassColumn | pages/11_procesare.py:100-110 | the body of a loop: column j is imputed in place, or its failure is returned |
| Imputation.TreatMissingValues | pages/11_procesare.py:75-111 | the stage runs the numeric loop and then the categorical loop |
| Imputation.PassColumnwise | pages/11_procesare.py:100-110 | a pass succeeds exactly when every column's imputation does, each column then holding its own |
| Imputation.HandleMissingColumnwise | pages/11_procesare.py:99-111 | the stage fails exactly when some column fails; otherwise each column holds its own imputation |
| Imputation.PassColumnwiseStep | pages/11_procesare.py:100-110 | one more iteration succeeds exactly when column j's imputation does, and then holds it in column j only |
| Imputation.SecondPassColumn | pages/11_procesare.py:100-110 | the categorical loop, run after the numeric one, imputes a column as the pass chosen by its dtype would on the input column |
| Imputation.NoMissingLeft | pages/11_procesare.py:99-111 | afterwards Target and all present cells are unchanged, and no filled column has a missing cell |
| ValueOrder.MostFrequent | pages/11_procesare.py:107 | `mode()[0]` exists exactly when the column has a value, and it is a mode |
| ValueOrder.MostFrequentIsTheMode | pages/11_procesare.py:107 | the chosen value is the most frequent, the smallest among ties |
| ValueOrder.ValueCountsFacts | pages/7_bar_charts.py:14 | value_counts lists present values with their counts, by count descending, and lists every present value |
| ValueOrder.ValueCountsListEachValueOnce | pages/7_bar_charts.py:14 | value_counts lists each value once |
| ValueOrder.TopValuesAreMostFrequent | pages/7_bar_charts.py:14 | the top values are at most k present values, most frequent first |
| ValueOrder.TopValuesOmitNoMoreFrequent | pages/7_bar_charts.py:14 | a present value left out is no more frequent than any kept, and is left out only when k values are kept |
| Encoding.Assign | pages/11_procesare.py:297 | setting a dict key updates its entry in place or adds it last, keys stay unique, nothing else changes |
| Encoding.LastPosition | pages/11_procesare.py:143-144 | a cell gets a code exactly when it is in the order, and the code points at it |
| Encoding.EncodeCells | pages/11_procesare.py:144 | transform fails exactly when a cell is not in the order; every code decodes to its cell |
| Encoding.CodesAreOrderPositions | pages/11_procesare.py:143-144 | with an order listing each value once, each value is encoded by its 0-based position |
| Encoding.LabelFailurePersists | pages/11_procesare.py:140-144 | the first unseen label stops the label loop; later entries change nothing |
| Encoding.LabelEncodeUpTo | pages/11_procesare.py:140-144 | the label loop keeps index and column names |
| Encoding.LabelEncodingColumnwise | pages/11_procesare.py:138-144 | label encoding fails exactly when a listed non-Target column holds a value absent from its order; otherwise only the listed present columns change, to decodable codes |
| Encoding.LabelStep | pages/11_procesare.py:140-144 | one more entry of the label loop succeeds exactly when its column's values are in its order, failing with that column's name otherwise, and encodes only that column |
| Encoding.LabelStepUpTo | pages/11_procesare.py:140-144 | the same step for the loop's own table after the earlier entries |
| Encoding.LabelEncodeColumnwiseUpTo | pages/11_procesare.py:140-144 | after k entries the loop succeeds exactly when each of them applies, then each column is as those entries make it; a failure names an entry that does not apply |
| Encoding.LabelledColumnMeaning | pages/11_procesare.py:140-144 | after the whole loop a listed non-Target column holds int64 codes that decode to its original cells, and every other column is unchanged |
| Encoding.OneHotCandidates | pages/11_procesare.py:147-149 | the candidates are exactly the object columns other than Target and the listed ones, each once, sorted |
| Encoding.NoLimitChoosesAll | pages/11_procesare.py:151-153 | without a limit every candidate is chosen |
| Encoding.ChosenMembers | pages/11_procesare.py:150-153 | a name is chosen exactly when it is a candidate whose flag is set |
| Encoding.AllFitChoosesAll | pages/11_procesare.py:150-153 | with every flag set, every candidate is chosen in order |
| Encoding.ChosenAreWithinLimit | pages/11_procesare.py:150-153 | a name is chosen exactly when it is a candidate within the limit on distinct values |
| Encoding.KeepFlagged | pages/11_procesare.py:150-153 | the loop keeps, in order, the candidates whose flag is set |
| Encoding.Levels | pages/11_procesare.py:156 | the dummy levels are the distinct present values, as many as nunique() counts |
| Encoding.LevelsAreSortedAndDistinct | pages/11_procesare.py:156 | the levels are sorted and each is listed once |
| Encoding.Indicator | pages/11_procesare.py:156 | an indicator column is named column, "_", level, is bool, and is true exactly in the rows holding the level |
| Encoding.DummyColumns | pages/11_procesare.py:156 | drop_first gives one bool indicator per level but the first, true exactly in that level's rows |
| Encoding.GetDummies | pages/11_procesare.py:156 | get_dummies keeps the index and row count |
| Encoding.EncodeCategoricals | pages/11_procesare.py:114-158 | the encoding stage keeps the index |
| Encoding.LabelEncodeColumns | pages/11_procesare.py:138-144 | the label loop computes its specification |
| Encoding.ChooseOneHotColumns | pages/11_procesare.py:150-153 | the loop gathering cols_one_hot computes its specification |
| Encoding.EncodeCategoricalColumns | pages/11_procesare.py:136-158 | the stage computes EncodeCategoricals |
| Encoding.DummiesIdentifyTheLevel | pages/11_procesare.py:156 | a row's indicator for a level is true exactly when the row holds that level; some indicator is true exactly when the value is present and not the first level |
| Encoding.DummiesAreExclusiveFlags | pages/11_procesare.py:156 | every indicator cell of a row is a present flag, and at most one of them is true |
| Encoding.DummyNamesAreLevels | pages/11_procesare.py:156 | an indicator is named column, "_", level, and is never Target |
| Encoding.OneHotShape | pages/11_procesare.py:155-156 | expansion keeps the other columns unchanged and first, removes the expanded ones and adds distinct-1 indicators each |
| Encoding.DummiesCount | pages/11_procesare.py:156 | the number of indicators is the sum of distinct-1 over the expanded columns |
| Encoding.EncodingKeepsTarget | pages/11_procesare.py:138-148 | the Target column survives the encoding stage unchanged |
| Encoding.EncodingAddsNoTarget | pages/11_procesare.py:138-156 | when the input has one Target column, every column of the encoded table named Target is that column: no code or indicator column takes the name |
| Encoding.DummiesAreNotTarget | pages/11_procesare.py:156 | no indicator column of the chosen columns is named Target |
| Encoding.ChosenColumnsObeyTheLimit | pages/11_procesare.py:151-153 | without a limit, as the pipeline calls it, every remaining object column is expanded; with one, exactly those within it |
| Preparation.ScalingChoiceName | pages/11_procesare.py:181-188 | each scaling string parses back to its choice |
| Preparation.CountFloatOrInt | pages/11_procesare.py:191 | the number of int64/float64 columns |
| Preparation.ScaleFrame | pages/11_procesare.py:161-194 | a successful scaling keeps the index and the number of columns |
| Preparation.ScalingTouchesOnlyNumericColumns | pages/11_procesare.py:181-194 | "Niciuna" is the identity; otherwise exactly the int64/float64 columns change, to float64 |
| Preparation.TestCount | pages/11_procesare.py:235 | ceil(test_size * n): the least integer at or above test_size * n, never negative for a positive fraction |
| Preparation.SplitSizes | pages/11_procesare.py:235 | n_test = TestCount and the rest train, refused exactly when either part would be empty |
| Preparation.SplitRows | pages/11_procesare.py:234-235 | a successful split gives row positions, as many in the two parts together as there are rows |
| Preparation.SplitPartitionsRows | pages/11_procesare.py:235 | the two parts have the promised sizes, share no row and together hold every row once |
| Preparation.DropTarget | pages/11_procesare.py:229 | drop keeps exactly the columns not named Target |
| Preparation.Transformed | pages/11_procesare.py:225-227 | outliers, then missing values, then encoding, keeping a well-formed table |
| Preparation.SplitOff | pages/11_procesare.py:229-235 | the features, the labels and the split positions fit together: y is as long as X and every position is a row of X |
| Preparation.CastObjectColumns | pages/11_procesare.py:237-239 | the loop casts the object columns of X_train, in both parts, to category |
| Preparation.PrepareData | pages/11_procesare.py:197-249 | the stages in the order outliers, missing values, encoding, scaling, split, cast, renumber compute Prepare |
| Preparation.SplitAndAssemble | pages/11_procesare.py:229-248 | the steps after the three stages compute SplitOff followed by the assembly of the four parts, failing as SplitOff does |
| Preparation.AssembledPartsAreAligned | pages/11_procesare.py:237-248 | X and y stay row-aligned, all four parts are renumbered 0..n-1, df_final is X_train plus Target = y_train |
| Preparation.LabelsAndFeaturesComeFromTheTable | pages/11_procesare.py:229-232 | y is the transformed Target column and X the scaled rest, without Target |
| Preparation.SplitPartitionsTheTable | pages/11_procesare.py:234-235 | every transformed row lands in exactly one part, ceil(test_size * n) in the test part |
| Preparation.ScaledFeaturesHaveNoTarget | pages/11_procesare.py:229-232 | scaling a frame without Target adds no Target |
| Preparation.NoScalingKeepsFeatures | pages/11_procesare.py:181-182 | under "Niciuna" the features are the transformed table without Target |
| ModelBench.SkipRun | pages/12_modele_ml.py:99-100 | skipping a run leaves a suffix that starts with an allowed character or is empty |
| ModelBench.Sanitise | pages/12_modele_ml.py:99-100 | a sanitised name is never longer than the original |
| ModelBench.SanitisedNameIsAllowed | pages/12_modele_ml.py:99-100 | a sanitised name holds only [A-Za-z0-9_] |
| ModelBench.SanitiseConcat | pages/12_modele_ml.py:99-100 | a prefix is sanitised independently of text that follows it from an allowed character on |
| ModelBench.SanitiseFixesExactlyAllowedNames | pages/12_modele_ml.py:99-100 | a name is left unchanged exactly when it holds only allowed characters |
| ModelBench.SanitiseIsIdempotent | pages/12_modele_ml.py:99-100 | sanitising twice is sanitising once |
| ModelBench.RunBecomesOneUnderscore | pages/12_modele_ml.py:99-100 | a maximal run of disallowed characters becomes a single underscore |
| ModelBench.SkipRunOfRun | pages/12_modele_ml.py:99-100 | a run of disallowed characters is skipped entirely |
| ModelBench.SanitiseSplitsAtAllowed | pages/12_modele_ml.py:99-100 | an allowed character is kept in place and splits the name into independently sanitised halves |
| ModelBench.SkipRunBeforeAllowed | pages/12_modele_ml.py:99-100 | a run ends at the first allowed character |
| ModelBench.RenamingChangesOnlyNames | pages/12_modele_ml.py:99-100 | renaming the columns changes names only, all allowed, is idempotent and keeps equal column lists of X_train and X_test equal |
| ModelBench.LabelMap | pages/12_modele_ml.py:102-103 | label_map has exactly the three classes as keys, each mapped to its position |
| ModelBench.InverseLabelMap | pages/12_modele_ml.py:104 | inverse_label_map has exactly the keys 0, 1, 2 and maps each back to the class at that position |
| ModelBench.LabelMapsAreInverse | pages/12_modele_ml.py:102-104 | Dropout->0, Enrolled->1, Graduate->2, and the two maps are inverse in both directions |
| ModelBench.MapLabels | pages/12_modele_ml.py:105-106 | y.map keeps the name and the length |
| ModelBench.MappedLabelsDecode | pages/12_modele_ml.py:104-106 | a class cell becomes an integer code the inverse map turns back into the class; any other cell becomes missing |
| ModelBench.CatFeatures | pages/12_modele_ml.py:67 | cat_features are exactly the object, category and bool columns of X_train |
| ModelBench.Attempt | pages/12_modele_ml.py:65-79 | antrenare_model yields a row for the model exactly when fit and predict succeed |
| ModelBench.RunResults | pages/12_modele_ml.py:108-112 | a run adds no more rows than models selected |
| ModelBench.OnlyCatBoostGetsCatFeatures | pages/12_modele_ml.py:66-70 | only CatBoost receives cat_features, and they are X_train's object-like columns |
| ModelBench.RunsCompose | pages/12_modele_ml.py:108-112 | a failing model does not stop the later ones: the run over a + b is the run over a then over b |
| ModelBench.RowsForConcat | pages/12_modele_ml.py:77 | appending rows adds their per-model counts |
| ModelBench.RunResultsAreTheSuccessfulModels | pages/12_modele_ml.py:108-112 | every row is a selected, available model with its library scores; at most one row per selection; every available selected model that trains gets a row |
| ModelBench.RunRowsComeFromSuccesses | pages/12_modele_ml.py:108-112 | every row of a run is a selected, available model with the scores the libraries gave it |
| ModelBench.RunRowsPerModel | pages/12_modele_ml.py:108-112 | a model gets no more rows than times selected, and at least one when it is available, selected and trains |
| ModelBench.Leaderboard | pages/12_modele_ml.py:114-120 | the leaderboard shows up exactly when there are results, with every field but the confusion matrix |
| ModelBench.Reverse | pages/12_modele_ml.py:128-129 | `[::-1]` reverses a sequence |
| ModelBench.AsWrittenMatchesWithAllClasses | pages/12_modele_ml.py:125-134 | with all three classes in the matrix, the reversed columns and labels line up |
| ModelBench.AsWrittenMislabelsMissingClass | pages/12_modele_ml.py:125-134 | with Enrolled absent from the test labels and predictions, the 2x2 matrix fails to match its labels: the Dropout column and the Graduate row are both titled Enrolled |
| ModelBench.ClassNames | pages/12_modele_ml.py:125 | the name of each class code of the matrix |
| ModelBench.HeatmapFor | pages/12_modele_ml.py:125-134 | the heatmap labelled from the matrix's own classes matches every cell with its actual and predicted class |
| ModelBench.ReversedHeatmapMatches | pages/12_modele_ml.py:125-134 | names that follow the matrix's own classes label every cell right once the columns and the x labels are reversed |
| DataQuality.SampleSize | pages/10_duplicate_nan.py:47 | int(n * p) is the floor of n * p |
| DataQuality.SampleSizeIsMonotone | pages/10_duplicate_nan.py:46-47 | a larger fraction never samples fewer rows |
| DataQuality.BlankRows | pages/10_duplicate_nan.py:49 | the drawn rows become missing and every other cell stays |
| DataQuality.Injected | pages/10_duplicate_nan.py:43-50 | the copy keeps index and column count |
| DataQuality.InjectMissingValues | pages/10_duplicate_nan.py:25-50 | the loop over the copy's columns computes Injected |
| DataQuality.DistinctElementsBound | pages/10_duplicate_nan.py:48 | n drawn positions name at most n rows |
| DataQuality.BlankRowsChangesAtMostTheRows | pages/10_duplicate_nan.py:49 | blanking changes no more cells than rows drawn |
| DataQuality.InjectionTouchesOnlyDrawnCells | pages/10_duplicate_nan.py:43-49 | Target, names and index are kept; each other column loses exactly its drawn cells, between floor(n * procent_min) and floor(n * procent_max) of them |
| DataQuality.RoundHalfEven | pages/10_duplicate_nan.py:74 | rounding lands within one half of the value |
| DataQuality.RoundHalfEvenIsMonotone | pages/10_duplicate_nan.py:74 | rounding is monotone |
| DataQuality.Round3 | pages/10_duplicate_nan.py:74 | rounding to three decimals moves a value by at most 0.0005 |
| DataQuality.PercentIsMonotone | pages/10_duplicate_nan.py:69-74 | more missing cells never give a smaller rounded percentage, and strictly more give a strictly larger one below 100000 rows |
| DataQuality.ShareIsMonotone | pages/10_duplicate_nan.py:69 | a larger count never gives a smaller count / n * 100 |
| DataQuality.ShareGap | pages/10_duplicate_nan.py:69-74 | below 100000 rows, two different counts give percentages more than 0.001 apart |
| DataQuality.MissingTable | pages/10_duplicate_nan.py:68-75 | one row per column with its missing count and rounded percentage |
| DataQuality.WithMissing | pages/10_duplicate_nan.py:77 | the filter keeps exactly the rows with a positive count |
| DataQuality.MissingReportRowsAreSortedColumns | pages/10_duplicate_nan.py:77-78 | the report holds at most five columns with missing values, percentage descending |
| DataQuality.MissingReportOmitsNoWorseColumn | pages/10_duplicate_nan.py:78 | a column left out has no larger percentage than any shown, and only when five are shown |
| DataQuality.LeftOutRanksLast | pages/10_duplicate_nan.py:77-78 | from a list sorted by percentage descending, a row left out of head(n) has no larger percentage than any kept, and n rows are kept |
| DataQuality.MissingReportEmptyExactlyWithoutMissing | pages/10_duplicate_nan.py:77-81 | the report is empty exactly when no column has a missing value |
| DataQuality.ReportRowPercent | pages/10_duplicate_nan.py:68-69 | a report row's count is at most the row count and its percentage is count / n * 100 rounded |
| DataQuality.MissingReportFollowsCounts | pages/10_duplicate_nan.py:69-78 | below 100000 rows the report is also ordered by missing count |
| DataQuality.NoMissingExactlyWhenTotalIsZero | pages/10_duplicate_nan.py:118-121 | the total is zero, and success shown, exactly when no cell is missing |
| DataQuality.DuplicateMask | pages/10_duplicate_nan.py:131 | a row is marked exactly when an equal row comes before it |
| DataQuality.Rows | pages/10_duplicate_nan.py:131 | the table's rows, one per index entry |
| DataQuality.MarkedPlusDistinct | pages/10_duplicate_nan.py:131 | marked rows plus distinct rows make all rows |
| DataQuality.DuplicateCountIsRowsLessDistinct | pages/10_duplicate_nan.py:131 | the duplicate count is the number of rows less the number of distinct rows |
| DataQuality.DuplicateRowsAreTheRepeats | pages/10_duplicate_nan.py:131-137 | the rows shown are exactly those equal to an earlier row, in order, as many as the count |
| Describe.VariableKind | pages/3_descriere_date.py:44-52 | bool is "booleană", other numbers "numerică", object or category "categorială", everything else "-", each if and only if |
| Describe.EveryDtypeHasOneKind | pages/3_descriere_date.py:44-52 | the classifier is total, the four labels differ, and bool is boolean although numeric |
| Describe.ColumnPage | pages/3_descriere_date.py:55-100 | the page fails exactly when the column has no description; otherwise it shows the dictionary's text and the kind |
| Describe.CategoricalSummaryListsTheMostFrequent | pages/3_descriere_date.py:114-117 | a categorical summary gives the distinct count and at most five values with their counts, most frequent first, none left out more frequent |
| Describe.TakeOfValueCounts | pages/3_descriere_date.py:114-117 | the first n value counts are by count descending, and a present value left out is no more frequent than any shown, only when n are shown |
| Describe.BooleanSummaryCountsTrue | pages/3_descriere_date.py:103-104 | a boolean summary counts the True cells |
| BarCharts.KeptRows | pages/7_bar_charts.py:16 | isin keeps exactly the rows whose value is among the top values |
| BarCharts.Pairs | pages/7_bar_charts.py:18 | the group keys are exactly the (value, Target) pairs of kept rows with both present |
| BarCharts.PairCount | pages/7_bar_charts.py:18 | a pair's count is positive exactly when the pair occurs |
| BarCharts.GroupsOver | pages/7_bar_charts.py:18 | one group row per key, holding the key's count |
| BarCharts.Merged | pages/7_bar_charts.py:20-21 | each group row gets the total of its value |
| BarCharts.SortedGroups | pages/7_bar_charts.py:23 | the merged rows reordered by total descending |
| BarCharts.StackedBarChart | pages/7_bar_charts.py:13-25 | the chart fails exactly when the column or Target is missing, or the column is Target itself (`reset_index` cannot insert a second Target) |
| BarCharts.OfferedColumns | pages/7_bar_charts.py:40-41 | the selectbox offers exactly the names of the object and category columns |
| BarCharts.AsWrittenOffersTarget | pages/7_bar_charts.py:18-42 | a categorical Target is offered and gives no chart, and when it is the only categorical column it is the default selection |
| BarCharts.ChartColumns | pages/7_bar_charts.py:40-41 | the corrected choice: exactly the offered columns other than Target |
| BarCharts.EveryChartColumnCharts | pages/7_bar_charts.py:13-42 | with a Target column, every column of the corrected choice gives a chart |
| BarCharts.TotalOfGroupsIsKeyTotal | pages/7_bar_charts.py:20 | summing group rows is summing key counts |
| BarCharts.KeyTotalAfterOneMoreKey | pages/7_bar_charts.py:18-20 | one more row raises the total of its value by one when its pair is among the group keys |
| BarCharts.PairCountOfOneMore | pages/7_bar_charts.py:18 | one more kept row raises the count of its own pair by one and no other |
| BarCharts.KeyTotalOfOneMoreRow | pages/7_bar_charts.py:18-20 | one more kept row raises its value's total by one |
| BarCharts.KeyTotalCountsKeysWithValue | pages/7_bar_charts.py:18-20 | a value's total over the distinct keys is its number of kept rows |
| BarCharts.TotalCountsKeysWithValue | pages/7_bar_charts.py:20-21 | total_count of a value is the sum of its group counts, which is its number of kept rows |
| BarCharts.MergedGroupFacts | pages/7_bar_charts.py:18-21 | a merged row's key occurs, its count is that key's, and its total that value's |
| BarCharts.ChartRowsCountTheKeptRows | pages/7_bar_charts.py:14-21 | every chart row holds a top-five value, counts the kept rows of its pair, is never empty, and carries its value's total |
| BarCharts.ChartCoversEveryKeptRow | pages/7_bar_charts.py:16-18 | every kept row with a present Target is counted in its pair's row |
| BarCharts.KeptRowHasAPair | pages/7_bar_charts.py:16-18 | a kept row's pair is a group key |
| BarCharts.EveryPairHasARow | pages/7_bar_charts.py:18-23 | every key has a row after sorting |
| BarCharts.ChartRowsHaveDistinctKeys | pages/7_bar_charts.py:18 | no (value, Target) pair has two rows |
| BarCharts.MergedKeysAreDistinct | pages/7_bar_charts.py:18-21 | merging the group rows with the totals keeps one row per (value, Target) pair |
| BarCharts.PermutationKeepsDistinctKeys | pages/7_bar_charts.py:23 | reordering the rows by total keeps one row per pair |
| BarCharts.ChartOrderFollowsTotals | pages/7_bar_charts.py:23-25 | rows are by total descending; the axis lists each shown value once, at most five, more frequent first |
| BarCharts.AxisFollowsTotals | pages/7_bar_charts.py:25 | unique() of rows sorted by total lists each value once in non-increasing total |
| Seqs.DistinctKeepsOrder | pages/7_bar_charts.py:25 | unique() keeps the order of first appearance: of two listed values, the earlier one occurs before every occurrence of the later one |
| AppState.Session.constructor | pages/11_procesare.py:25-26 | a new session has no NaN flag, no label orders, no config, no sets and no results |
| AppState.Session.PressInjectButton | pages/10_duplicate_nan.py:103-113 | injection replaces the table and sets has_nan_values only while it is False, so it happens at most once per session |
| AppState.Session.ChooseLabelOrder | pages/11_procesare.py:288-297 | the column's order is set in label_sort_orders, which is only ever added to, and a stored config sees it |
| AppState.Session.ApplySettings | pages/11_procesare.py:315-332 | the config carries the whole label-order dict; pregatire_date runs; sets and config are stored only when it returns |
| AppState.Session.StoreOutcome | pages/11_procesare.py:327-332 | after pregatire_date returns, the four sets and the config are stored; the label orders and everything else stay |
| AppState.Session.TrainModels | pages/12_modele_ml.py:82-112 | results start empty, the stored X_train and X_test are renamed in place, and the results are the run over the selected models |
| AppState.RetrainingIsStable | pages/12_modele_ml.py:92-112 | renaming the stored sets is idempotent, so a second run trains on the same sets; equal results then follow because the libraries are a function of their inputs |

## Left out

- Streamlit widgets, layout, navigation, CSV upload and chart rendering: UI and I/O with no logic.
  A widget's value is a method parameter.
- Floating-point arithmetic: quantile interpolation, mean, median, `log1p`, the three scalers and
  the `str()` of a float are uninterpreted fields of `Numerics`. Values are exact reals.
- Capping assumes the quantile routine is monotone in its probability (`MonotoneQuantile`). The
  library promises this; the model does not derive it.
- Fitting, predicting, accuracy, F1 and `confusion_matrix` are opaque (`Trainer`). Only the
  bookkeeping around them is modelled.
- Randomness is a parameter. `random.uniform` and `DataFrame.sample` are a `Draw` per column.
  `train_test_split`'s order is a `Shuffle`. The class balance of a stratified split is not
  modelled: only its preconditions (every class twice, room for every class on both sides) are.
- `DataQuality.InjectMissingValues` requires `0 <= procent_min <= procent_max`, which holds for the
  defaults the page uses. `random.uniform` also accepts reversed bounds, which the model does not
  cover.
- `sample(n)` draws row labels. The model draws row positions, which agree on the loaded table
  (index 0..n-1).
- The dtype after NaN is written: int64 becomes float64 and bool becomes object. Other numeric
  dtypes (`OtherNumeric`) keep their dtype in the model, although pandas may upcast them too.
- The outlier stage's dtypes follow the usual pandas result: `np.log1p` and `np.clip` by the float
  percentiles give float64, and `.mask` gives float64 once it writes a NaN. pandas' finer casting
  rules (for instance, clip bounds that happen to be whole numbers) are not modelled.
- `Describe.Summarise`: the numeric statistics (min, max, mean, std, median, quartiles) and the
  percentage of True values are float library calls and are not modelled.
- `sort_values` uses an unstable sort. The model sorts stably, so rows with equal totals or equal
  percentages keep their prior order. Every proved property holds for any order of such ties.
- The groupby key order before the sort (pandas sorts the keys) is not modelled. The sort by
  total and the order of first appearance decide what the chart shows.
- `ValueOrder.MostFrequent`: pandas sorts the modes of mixed types its own way. The model breaks
  ties by a fixed order (booleans, then numbers, then strings, each by its natural order).
- `ModelBench.RunResults` keys models by name; the model objects are not modelled, so a model
  refitted by a later run is just the same `Trainer` call again.
- The stored sets' columns are renamed in place. `Session.TrainModels` models that aliasing by
  writing the renamed sets back to `splits`. `y_train.map` makes new objects, which the model
  keeps local.
- The config dict shares `label_sort_orders` with the session. `Session.StoredConfig()` models
  this by reading the live orders.
- `Preparation.TestCount`: `test_size` is a float (0.1 to 0.4 in steps of 0.1) and scikit-learn
  rounds `test_size * n` up in floating point. The model takes the exact real, so a product that
  floating point puts just above an integer may round differently.
- `df_final.head(20)` shown after "Aplicare setări" is display only.
- `DataQuality.PercentIsMonotone`: strict monotonicity is stated only below 100000 rows. At
  larger sizes, rounding to three decimals can merge two different counts.

## Findings

| source | as written | input that shows it | evidently intended | confidence | as-written member | corrected member |
|---|---|---|---|---|---|---|
| pages/12_modele_ml.py:75, 125-134 | the heatmap always labels three classes (Dropout, Enrolled, Graduate), but `confusion_matrix(y_test, y_pred)` without `labels=` covers only the classes present among the true or predicted labels | a test part where no row is Enrolled and none is predicted Enrolled: the matrix is 2x2 over Dropout and Graduate, and the Dropout column (predicted Dropout) and the Graduate row (actual Graduate) are both titled Enrolled | label the heatmap with the classes the matrix covers, or pass `labels=[0, 1, 2]` | low, not executed (small test parts only) | ModelBench.AsWrittenMislabelsMissingClass | ModelBench.HeatmapFor |
| pages/7_bar_charts.py:18-42 | the selectbox offers every object or category column, Target included, but `groupby([coloana, "Target"]).size().reset_index(name="count")` with `coloana == "Target"` names both index levels Target and `reset_index` raises ValueError | the student table, whose features are numeric codes and whose only text column is Target: Target is the only option, so the default selection fails as the page opens | offer the object and category columns other than Target | medium, not executed | BarCharts.AsWrittenOffersTarget | BarCharts.ChartColumns |
