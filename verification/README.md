# House-price pipeline: column transforms, in Dafny

A model of the table-cleaning core of a house-price analysis pipeline written
with pandas and scikit-learn, with proofs of what each step promises.

A table is a row count plus a sequence of named columns (`Frames.Table`). Each
column carries a dtype tag (int, float, bool, complex, object, category,
datetime) and a sequence of cells: a number, a missing value (NaN/NaT), or
text. Bool cells are the numbers 0 and 1. pandas' `empty` is "no rows or no
columns" (`Frames.IsEmpty`). An exception the source raises becomes a
`Failure` carrying an `Error`. The modelled steps are:

- `DeleteColumns`: `delete_columns_with_zero_data`. It validates its
  arguments in a fixed order. Then it drops each numeric column whose zeros
  plus NaNs exceed the threshold.
- `DropColumns`: `drop_columns_with_zero_threshold`. Among the int, float and
  bool columns it drops those whose exact zeros exceed the threshold.
- `NullCensus`: `count_null_data`. The function returns nothing, so it is
  modelled as the sequence of lines it prints.
- `Separate`: `separate_categorical_numerical`, a three-way partition of the
  columns by dtype.
- `LogTransform`: `apply_1_plus_log_transformation`. `log1p` is a parameter
  about which nothing is assumed.
- `Tuning`: `hyperparameter_tuning`. The grid search is an oracle parameter
  that returns a fitted model and its parameters, or raises an exception of
  some kind.
- `Preprocess`: the column steps of `preprocess_data`. These are dropping
  `Id`, the ordinal quality mapping, deriving `Age` with its column
  reordering, and `fillna(0)`.
- `Legacy`: the earlier drafts in `modules/modules.py`. Lemmas compare them
  with the current versions.

Every operation is a pure function, so "the input table is not modified"
holds by construction. The same goes for "nothing is returned": the census
returns only its printed lines.

## Model

| member | source | states |
|---|---|---|
| DeleteColumns.DeleteColumnsWithZeroData | modules/delete_columns_with_zero_data.py:44-73 | Validation order: non-int threshold, then empty table, then negative threshold, so an empty table with a negative threshold reports "empty". It succeeds exactly when none of these applies. A column is dropped iff it is numeric and its zeros plus NaNs exceed the threshold, so non-numeric columns are never dropped. Survivors keep their order and cells, and the row count is kept. |
| DeleteColumns.CleanTableUnchanged | modules/delete_columns_with_zero_data.py:55-67 | With threshold 0 and no zero or NaN in any numeric column, the output is the input. |
| DeleteColumns.AllFalseBoolColumnDropped | modules/delete_columns_with_zero_data.py:56-59 | A bool column counts as numeric with False equal to 0, so an all-False column longer than the threshold is dropped. |
| DeleteColumns.AllColumnsDropped | modules/delete_columns_with_zero_data.py:69-71 | When every column qualifies, the result has no columns and the original row count. |
| DeleteColumns.DeleteMonotone | modules/delete_columns_with_zero_data.py:58 | Raising the threshold never drops more: the survivors at a lower threshold are a subsequence of those at a higher one. |
| DropColumns.DropColumnsWithZeroThreshold | modules/drop_columns_with_zero_threshold.py:37-59 | An empty table is an error, checked before a negative threshold. Among int, float and bool columns, a column is dropped iff its exact zeros exceed the threshold (NaN is not counted). Other dtypes are always kept. A table with no such column comes back unchanged. Survivors keep their order and cells. |
| DropColumns.DropMonotone | modules/drop_columns_with_zero_threshold.py:50-51 | Raising the threshold never removes more columns. |
| DropColumns.AllFalseBoolColumnDropped | modules/drop_columns_with_zero_threshold.py:44-51 | An all-False bool column counts as all zeros and is dropped once longer than the threshold. |
| DropColumns.AllNaNColumnKept | modules/drop_columns_with_zero_threshold.py:50-51 | A column holding only NaNs has no zeros and is always kept. |
| DropColumns.AllColumnsDropped | modules/drop_columns_with_zero_threshold.py:53-59 | When every column is selected and has too many zeros, the result has zero columns and the original row count. |
| NullCensus.SortByZeros | modules/count_null_data.py:38-39 | The visiting order is a permutation of the columns, in non-increasing zero count. |
| NullCensus.CensusLines | modules/count_null_data.py:42-55 | A line is printed for a column exactly when it is non-numeric (skipped) or numeric with a positive total, and each line is that column's line. There are exactly as many lines as such columns. |
| NullCensus.TallyLinesCount | modules/count_null_data.py:44-53 | The visit prints exactly one tally per visited column with a zero or NaN. |
| NullCensus.CountNullData | modules/count_null_data.py:38-58 | Each tally belongs to a numeric column and has total = zeros + NaNs > 0. The summary line is printed iff no numeric column has a zero or NaN, and then it is last and printed once. |
| NullCensus.EveryMissingColumnTallied | modules/count_null_data.py:44-53 | Every numeric column with a zero or NaN gets its tally with the zero and NaN counts. |
| NullCensus.SkippedExactlyNonNumeric | modules/count_null_data.py:54-55 | Non-numeric columns, and only they, are reported as skipped. |
| NullCensus.SkippedOncePerColumn | modules/count_null_data.py:42-58 | The number of "skipped" lines equals the number of non-numeric columns. |
| NullCensus.CensusLinesOrdered | modules/count_null_data.py:42-53 | Visiting a zero-sorted sequence prints tallies in non-increasing zero order. |
| NullCensus.TalliesInZeroOrder | modules/count_null_data.py:38-42 | Tallies, compared among themselves, appear in non-increasing order of zero count alone, NaNs excluded. |
| NullCensus.TalliedOncePerColumn | modules/count_null_data.py:38-58 | The census prints as many tallies as there are numeric columns with a zero or NaN: one each. |
| NullCensus.VisitsInZeroOrder | modules/count_null_data.py:38-58 | The printout starts with the lines of a visit of all columns, a permutation in non-increasing zero count, so skipped lines and tallies both sit at their column's sorted place; only the summary may follow. |
| NullCensus.NoRowsPrintsSummary | modules/count_null_data.py:40-58 | A table without rows has no zeros or NaNs, so its printout is nonempty and its last line is the summary. |
| NullCensus.BoolColumnCounted | modules/count_null_data.py:44-53 | A bool column holding False is tallied and never skipped. |
| Separate.NamesOfKind | modules/separate_categorical_numerical.py:45-59 | The names of one kind are exactly the columns of that kind, in column order. |
| Separate.SeparateCategoricalNumerical | modules/separate_categorical_numerical.py:36-61 | It fails iff the table has no rows or no columns. Category, object, bool and datetime columns are categorical; int and float columns are numerical; complex columns are in neither list and are reported. Each list follows the column order. |
| Separate.KindsCoverColumns | modules/separate_categorical_numerical.py:45-59 | The three lists together are as long as the column list. |
| Separate.SeparationPartitions | modules/separate_categorical_numerical.py:45-61 | With unique names, every column lands in exactly one list and the lists are disjoint. |
| Separate.NumericCategoryIsCategorical | modules/separate_categorical_numerical.py:48-52 | A category column with numeric values is categorical, not numerical. |
| LogTransform.IterateAdd | modules/apply_1_plus_log_transformation.py:57 | Applying log1p a times and then b times is applying it a + b times. |
| LogTransform.TransformedAdd | modules/apply_1_plus_log_transformation.py:57 | Transforming a column a times and then b times is transforming it a + b times. |
| LogTransform.ApplyOncePreservesOffends | modules/apply_1_plus_log_transformation.py:49-57 | Transforming a numeric column changes no name's absent or non-numeric verdict. |
| LogTransform.OffendersAfterStep | modules/apply_1_plus_log_transformation.py:48-57 | After a successful first step, the remaining names see the same verdicts and errors as on the input. |
| LogTransform.FirstOffenderAfterStep | modules/apply_1_plus_log_transformation.py:48-57 | A failure of the remaining loop is the first offending name of the whole list. |
| LogTransform.CellsAfterStep | modules/apply_1_plus_log_transformation.py:48-57 | A column's transform count after the first step plus the rest is its number of occurrences in the list. |
| LogTransform.TransformEach | modules/apply_1_plus_log_transformation.py:48-57 | The loop fails iff some listed name is absent or non-numeric, and the first such name decides the error. On success each column has log1p applied as many times as it is listed. |
| LogTransform.Apply1PlusLogTransformation | modules/apply_1_plus_log_transformation.py:43-59 | An empty table comes back unchanged even when names are absent. Otherwise it fails exactly when some listed name is absent or non-numeric, and the first such name decides the error. On success the names and their order stay, unlisted columns are untouched, and each number x of a listed column becomes log1p(x). |
| LogTransform.ListedTwice | modules/apply_1_plus_log_transformation.py:48-57 | A name listed twice gives log1p(log1p(x)). |
| LogTransform.MissingColumnRejected | modules/apply_1_plus_log_transformation.py:49-50 | An absent listed column is an error even after a valid one. |
| Tuning.TuneOne | modules/hyperparameter_tuning.py:65-83 | A non-estimator, or a search raising ValueError, NotFittedError or TypeError, records None in both maps. A completed search records its model and parameters. Any other exception ends the call. |
| Tuning.TuneBefore | modules/hyperparameter_tuning.py:59-83 | After the first k models, the maps hold exactly their names, each with its last entry's outcome. The loop stops at the first uncaught exception. |
| Tuning.LastWinsStep | modules/hyperparameter_tuning.py:76-83 | Writing one more entry keeps the last-wins property for every earlier name. |
| Tuning.HyperparameterTuning | modules/hyperparameter_tuning.py:51-85 | An empty list, then unequal lengths, are errors before any search. Otherwise the call succeeds iff no search raises an uncaught exception, and the first such model decides the error. Both maps have exactly the model names as keys, and each name holds its last entry's outcome. |
| Tuning.FailureIsolated | modules/hyperparameter_tuning.py:66-83 | A failing model is None in both maps while another model is still searched and recorded. |
| Tuning.LaterDuplicateWins | modules/hyperparameter_tuning.py:62-83 | With a duplicated name, the later entry's result is what is returned. |
| Tuning.RecordedParamsAssignGrid | modules/hyperparameter_tuning.py:70-77 | With a search that reports points of its grid, recorded parameters assign one candidate to each grid key. |
| Tuning.EmptyGridEmptyAssignment | tests/test_model_evaluation.py:115-127 | When a model's grid is empty, its name is the last entry of that name, it is an estimator and the search completes, the tuner records the empty parameter assignment for it. |
| Preprocess.DropId | workflow/scripts/preprocess_data.py:88 | It fails iff there is no Id column. Otherwise exactly the non-Id columns survive, in order, with the row count. |
| Preprocess.QualityCodes | workflow/scripts/preprocess_data.py:90-96 | Ex→5, Gd→4, TA→3, Fa→2, Po→1, and any other value becomes missing. |
| Preprocess.MappedDType | workflow/scripts/preprocess_data.py:96 | A mapped column is int exactly when every value was a code, and float otherwise. |
| Preprocess.MapOnce | workflow/scripts/preprocess_data.py:96 | Mapping one column keeps the row count, the names and well-formedness. |
| Preprocess.MapEach | workflow/scripts/preprocess_data.py:95-96 | It fails iff a listed column is absent, and the first absent one decides the error. Unlisted columns are untouched, and each listed column is mapped once. |
| Preprocess.AbsentAfterStep | workflow/scripts/preprocess_data.py:95-96 | Mapping a present column changes no name's presence, so the rest of the list fails exactly when, and where, the whole list does. |
| Preprocess.MapEachStep | workflow/scripts/preprocess_data.py:95-96 | Mapping the first column and then the rest leaves unlisted columns untouched and maps each listed one. |
| Preprocess.MapQuality | workflow/scripts/preprocess_data.py:90-96 | Mapping the quality columns keeps the row count, the names and well-formedness. |
| Preprocess.MapQualityErrors | workflow/scripts/preprocess_data.py:95-96 | It fails iff one of the ten quality columns is absent, and the first absent one in list order decides the error. |
| Preprocess.MapQualityColumns | workflow/scripts/preprocess_data.py:90-96 | When all ten quality columns are present the mapping succeeds; each of them is mapped once, and every other column is unchanged. |
| Preprocess.AgeColumn | workflow/scripts/preprocess_data.py:102 | Age is the row-wise difference YrSold − YearBuilt, with NaN where either side is NaN. |
| Preprocess.InsertBeforeLast | workflow/scripts/preprocess_data.py:101 | `insert(-1, x)` places x just before the last name and keeps the rest. |
| Preprocess.RemoveFirst | workflow/scripts/preprocess_data.py:103-104 | `remove(x)` drops one occurrence, keeps the order, and keeps every other name. |
| Preprocess.RemoveFirstTakesFirst | workflow/scripts/preprocess_data.py:103-104 | The occurrence removed is the first: the result is the names before the first x followed by those after it. |
| Preprocess.RemoveFirstNoDups | workflow/scripts/preprocess_data.py:103-104 | From unique names, the removed name is gone and the rest stay unique. |
| Preprocess.AgeOrder | workflow/scripts/preprocess_data.py:100-104 | The new order is the old names plus Age minus the two year columns, as a subsequence of the list after the insertion. |
| Preprocess.AgeOrderNoDups | workflow/scripts/preprocess_data.py:100-104 | With unique names and no existing Age, the new order has unique names. |
| Preprocess.SelectWithAge | workflow/scripts/preprocess_data.py:105 | `data[columns]` yields the listed names in that order, each column being Age or a column of the table. |
| Preprocess.SelectKeeps | workflow/scripts/preprocess_data.py:105 | Every listed column of the table is selected. |
| Preprocess.DeriveAge | workflow/scripts/preprocess_data.py:100-105 | YrSold is looked up before YearBuilt, and a missing one is an error. It succeeds iff both exist and can be subtracted. Then Age is present, both year columns are gone, every other column is kept, and the row count stays. |
| Preprocess.AgeColumnCells | workflow/scripts/preprocess_data.py:102 | The computed column is the row-wise difference, with NaN where either side is NaN. |
| Preprocess.AgeIsYearDifference | workflow/scripts/preprocess_data.py:102 | Row by row, Age = YrSold − YearBuilt, and it is missing when either side is missing. |
| Preprocess.AgeOrderMembers | workflow/scripts/preprocess_data.py:100-104 | With unique names, the new order holds Age and every old name except the two year columns. |
| Preprocess.AgeOrderBeforeLast | workflow/scripts/preprocess_data.py:100-104 | When the last name is neither year, the order is the other names, then Age, then that last name. |
| Preprocess.AgeBeforeLastColumn | workflow/scripts/preprocess_data.py:100-105 | When the last column is neither year column, the result's columns are the others in order, then Age, then the original last column. |
| Preprocess.FillNa | workflow/scripts/preprocess_data.py:107 | No missing cell remains. A missing cell becomes 0 and every other cell is kept. Names and row count stay. |
| Preprocess.FillNaIdempotent | workflow/scripts/preprocess_data.py:107 | Filling twice is filling once. |
| Preprocess.FilledZeros | workflow/scripts/preprocess_data.py:107 | After filling, a column's zeros are its former zeros plus NaNs, and its NaNs are 0. |
| Preprocess.DropAndMap | workflow/scripts/preprocess_data.py:88-96 | A missing Id is an error; after it, the first absent quality column in list order. It succeeds iff Id and all ten quality columns are present, and then the names are the input's without Id, in order. |
| Preprocess.LookupAfterDropAndMap | workflow/scripts/preprocess_data.py:88-96 | After the drop and the mapping, a quality column holds its mapped values and any other column but Id is as it was. |
| Preprocess.YearsAfterDropAndMap | workflow/scripts/preprocess_data.py:88-102 | The two year columns reach the subtraction unchanged, and present exactly when they were. |
| Preprocess.AgeAndFill | workflow/scripts/preprocess_data.py:100-107 | YrSold is looked up before YearBuilt; it succeeds iff both exist and can be subtracted. Then Age is present, both years are gone, no cell is missing, and no Id appears that was not there. |
| Preprocess.PreprocessSteps | workflow/scripts/preprocess_data.py:88-107 | It succeeds iff Id, the ten quality columns and both years are present and the years can be subtracted. A missing Id is an error. On success there is no Id, YearBuilt or YrSold, Age is present, no cell is missing, and the row count stays. |
| Preprocess.PreprocessQualityError | workflow/scripts/preprocess_data.py:88-96 | With Id present, the first absent quality column in list order is the error. |
| Preprocess.PreprocessYearErrors | workflow/scripts/preprocess_data.py:100-102 | With Id and the quality columns present, a missing YrSold is the error, then a missing YearBuilt, then unsubtractable years. |
| Preprocess.PreprocessIsFilledAgeTable | workflow/scripts/preprocess_data.py:88-107 | On success the result is the filled Age table of the dropped and mapped table, whose year columns are the input's. |
| Preprocess.UntouchedFilled | workflow/scripts/preprocess_data.py:88-107 | A column that is not Id, a year or a quality column reaches the output only filled. |
| Preprocess.QualityFilled | workflow/scripts/preprocess_data.py:90-107 | A quality column reaches the output mapped and then filled. |
| Preprocess.AgeFilled | workflow/scripts/preprocess_data.py:102-107 | The output's Age column is the filled row-wise difference of the input's YrSold and YearBuilt. |
| Preprocess.PreprocessValues | workflow/scripts/preprocess_data.py:88-107 | Every untouched column appears filled, every quality column mapped then filled, and Age is the filled year difference. |
| Preprocess.DropAndMapBeforeLast | workflow/scripts/preprocess_data.py:88-96 | A last column other than Id stays last, after the others without Id. |
| Preprocess.PreprocessOrder | workflow/scripts/preprocess_data.py:88-105 | When the last column is neither Id nor a year, the output's names are the surviving others in order, then Age, then that last name. |
| Legacy.LegacyLines | modules/modules.py:13-19 | A line is printed for each visited column whose count is nonzero, one per such column, and none is printed iff every count is zero. |
| Legacy.LegacyCountNullData | modules/modules.py:9-21 | Any column with a nonzero count is reported, numeric or not. The summary is printed iff no column was reported, and then it is the only line. |
| Legacy.LegacyReportedOncePerColumn | modules/modules.py:12-19 | The draft prints one count line per column with a nonzero count. |
| Legacy.NumericCountsAgree | modules/modules.py:14-16 | For a numeric column the draft's count is zeros + NaNs, the current census total. |
| Legacy.LegacyReportsNonNumericZeros | modules/modules.py:10-19 | A non-numeric column with zeros is reported by the draft but skipped by the current census. |
| Legacy.LegacyDelete | modules/modules.py:23-28 | A column of any dtype is dropped iff its exact zeros exceed the threshold, with no validation. Survivors keep their order and contents, and the row count stays. |
| Legacy.DeleteAgreesWithLegacy | modules/modules.py:23-28 | On a nonempty table of NaN-free numeric columns with threshold ≥ 0, the draft and the current pruner agree. |
| Legacy.DropAgreesWithLegacy | modules/modules.py:23-28 | On a nonempty table of int, float and bool columns with threshold ≥ 0, the draft and the zero-threshold pruner agree. |
| Legacy.NaNColumnKeptByLegacyOnly | modules/modules.py:25-27 | A numeric column with no zeros but too many NaNs is kept by the draft and dropped by the current pruner. |
| Legacy.NegativeThresholdDropsAll | modules/modules.py:23-28 | Without validation, a negative threshold drops every column. |
| Legacy.NamesWhere | modules/modules.py:34-39 | The names with a given categorical verdict are exactly those columns, in column order. |
| Legacy.LegacySeparate | modules/modules.py:31-40 | Object and category columns are categorical; everything else (bool, datetime, complex included) is numerical. Both lists follow the column order. |
| Legacy.NamesWhereCover | modules/modules.py:34-39 | The two lists together are as long as the column list. |
| Legacy.LegacySeparationPartitions | modules/modules.py:34-40 | With unique names, the two lists partition the columns. |
| Legacy.SeparateAgreesOnCommonDTypes | modules/modules.py:35-39 | On int, float, object and category columns, the draft and the current partitioner agree. |
| Legacy.BoolAndDatetimeDisagree | modules/modules.py:35-39 | Bool and datetime columns are categorical now but numerical in the draft. |

## Left out

- Printed messages other than the census lines are not modelled (the pruners' "Dropped columns", the tuner's progress lines, the partitioner's "unrecognized" message). The partitioner's reported names are kept as a third list.
- The runtime checks that the input is a DataFrame raise TypeError; Dafny's types rule that input out.
- `Separate.SeparateCategoricalNumerical`: the "no columns" check at modules/separate_categorical_numerical.py:39-40 cannot be reached, because `data.empty` already covers a table without columns. Both cases give the same `EmptyTable` error.
- `NullCensus.SortByZeros`: `sort_values` uses an unstable sort, so the order of columns with equal zero counts is unspecified. The model keeps ties in column order. Every proved property holds for any tie order, except the exact sequence of lines.
- `DropColumns.DropColumnsWithZeroThreshold`: the threshold is an integer. The source accepts any value comparable with a count (a float, say) and does not check its type.
- `LogTransform.Apply1PlusLogTransformation`: requires unique column names. With duplicate names pandas selects several columns at once, which is not modelled.
- `LogTransform.LogDType`: a complex column stays complex, and its cells are modelled like real ones (complex arithmetic is not modelled). log1p of a negative number or of −1 (NaN, −inf) is whatever the `log1p` parameter returns.
- Duplicate column names are not modelled: every operation on whole tables below requires unique names, the DataFrame invariant the pipeline keeps. With duplicates, `data[column]` selects a DataFrame rather than a column, and the source behaves as follows, one line per member:
- `DeleteColumns.DeleteColumnsWithZeroData`: with a duplicated name, `is_numeric_dtype` of the selected DataFrame is false, so every column of that name is reported as skipped and kept (modules/delete_columns_with_zero_data.py:56-61).
- `DropColumns.DropColumnsWithZeroThreshold`: `drop(columns=...)` removes every column carrying a dropped name, including a same-named column with few zeros (modules/drop_columns_with_zero_threshold.py:56).
- `NullCensus.CountNullData`: each column of a duplicated name is printed as skipped (modules/count_null_data.py:44,54), not tallied.
- `Separate.SeparateCategoricalNumerical`: `data[column].dtype` raises AttributeError on a duplicated name (modules/separate_categorical_numerical.py:46).
- `Legacy.LegacyDelete`: at a duplicated name, `(data[column] == 0).sum()` is a Series, and using it in `if` raises ValueError (modules/modules.py:25-26).
- `Legacy.LegacyCountNullData`: at a duplicated name the numeric test on the selected DataFrame is false, so the NaNs of a numeric column are not added to its count (modules/modules.py:14-16).
- `Legacy.LegacySeparate`: at a duplicated name `data[column].dtype` raises AttributeError (modules/modules.py:35).
- `Tuning.TuneOne`: the exception hierarchy is reduced to four kinds. A subclass of a caught exception counts as caught only if the oracle reports it as one of the three caught kinds.
- GridSearchCV internals (cross-validation, scoring, parallel fitting on the training data) are the oracle `search`, and its result is taken as given.
- `Preprocess.DeriveAge`: an object, category or datetime operand of the subtraction, or two bool columns, is reported as `UnsupportedOperands`. In pandas these pairs behave in three ways. Category operands, datetime minus a number, a number minus a datetime, two bool columns, and an object column of strings raise TypeError. An object column of numbers gives an object-dtype column. Datetime minus datetime gives a timedelta64 column, and the model has no dtype for that.
- `Preprocess.FillNa`: `fillna(0)` on a category column without 0 among its categories raises in pandas. The model fills it like any other column. A datetime column with missing values becomes an object column.
- `Preprocess.MapColumn`: the dtype of a mapped column with no rows is taken as int.
- `Preprocess.MappedDType`: a category column is mapped like any other, so its result is int or float. In pandas `Series.map` on a category column goes through `Categorical.map`: it keeps a category dtype when the scores are distinct, and gives float64 when a category maps to NaN even though every row holds a code. `read_csv` at workflow/scripts/preprocess_data.py:85 never yields a category column.
- `Preprocess.PreprocessSteps`: the two `count_null_data` calls at workflow/scripts/preprocess_data.py:98 and 109 only print. Everything from line 109 onward (pruning, log transform, partition, CSV writing, plots) is the pipeline composition and is not modelled, and neither is reading the CSV at line 85.
- Plotting, `model_evaluation`, `evaluate_models`, `analyze_data` and every `main()` are not part of this model. They do file I/O, plotting and floating-point scoring in external libraries.
- Floating-point behaviour: cells hold exact reals, so rounding and infinities are not modelled.

Where the tests disagree with the code, the model follows the code:

- `count_null_data` returns nothing, although tests/test_count_null_data.py indexes a returned dictionary.
- `separate_categorical_numerical` returns a pair of lists, although its tests treat the result as the numerical list.
- A bool column passes the numeric check, so the census tallies it and does not skip it (`NullCensus.BoolColumnCounted`). The tests expect it to be skipped.
