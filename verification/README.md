# Housing data cleaning — a Dafny model

This project models the cleaning and validation stage of a property
assessment pipeline. Its input is a CSV of houses with columns `meters`,
`garage`, `firepl`, `bsmt`, `bdevl` and `assess_2022`. The model covers three parts:

- the checks that the cleaning script's `main` performs before it splits the data:
  - the `.csv` extension guard;
  - the selection of the six columns and the comparison of column names;
  - the empty-row, missingness and dtype reports;
  - duplicate removal;
- `drop_outliers`, the interquartile-range (IQR) outlier filter;
- the categorical-level check, both inline in `main` on the training split and as
  the library function `validate_categorical_levels`.

A table is a header of named, typed columns plus a sequence of rows. A cell is
a number (an exact `real`), a string, or `Null`, which stands for pandas' NaN.
The diagnostics the script prints become values in a report. The exceptions it
raises become `Err` results.

Modules:

- `Tables`: cells, columns, rows and tables, and looking a column up by name.
- `Subsequences`: "keeps some rows, in order" and "no repeats", with their algebra.
- `Quantiles`: sorting, and linear-interpolation quantiles at multiples of 1/4
  (numpy/pandas' default method).
- `Outliers`: `drop_outliers` and a per-column trace of what it did.
- `Duplicates`: `duplicated().sum()` and `drop_duplicates()` with keep-first semantics.
- `Categorical`: `validate_categorical_levels`.
- `CleanData`: `main`'s checks in their order, the train-split category check,
  and the column-check finding.

## Model

| member | source | states |
|---|---|---|
| Tables.IndexOf | src/clean_data.py:84 | a column lookup by name finds the first column so named, and fails exactly when no column has that name |
| Outliers.NumericFrom | src/clean_data.py:151 | the columns `select_dtypes(include=["float64", "int64"])` visits: every float64/int64 column, and only those, in header order |
| Quantiles.SortAscending | src/clean_data.py:152-153 | the values a quantile is read from: sorted, and a permutation of the column's values |
| Quantiles.SortedUnique | src/clean_data.py:152-153 | two sorted permutations of the same values are equal, so the quantile does not depend on how the values were sorted |
| Quantiles.Interpolate | src/clean_data.py:152-153 | the value at a fractional position lies between the two neighbouring sorted values, and equals the value there at whole positions |
| Quantiles.Quantile | src/clean_data.py:152-153 | `quantile(k/4)` lies between the column's minimum and maximum |
| Quantiles.QuantileMonotone | src/clean_data.py:152-154 | a larger probability never gives a smaller quantile |
| Quantiles.LowerQuartile | src/clean_data.py:152 | `quantile(0.25)` of a non-empty column lies between two of the column's own values |
| Quantiles.UpperQuartile | src/clean_data.py:153 | `quantile(0.75)` of a non-empty column lies between two of the column's own values |
| Quantiles.QuartilesOrdered | src/clean_data.py:152-154 | Q1 <= Q3, so the IQR is never negative, and both quartiles lie within the observed values |
| Outliers.ColumnValues | src/clean_data.py:152-153 | the values a quantile is read from include a number exactly when some row holds it in the column (NaN cells left out), and there are at most as many as rows |
| Outliers.ColumnValuesCounts | src/clean_data.py:152-153 | each number occurs among the values exactly as often as rows hold it in the column, so the quantiles see every copy |
| Outliers.IqrFence | src/clean_data.py:152-156 | no fences for a column with no values (NaN quantiles); otherwise lower <= Q1 <= Q3 <= upper |
| Outliers.CountOutside | src/clean_data.py:158-159 | `len(outliers)` is at most the row count, and 0 exactly when no row is outside the fences |
| Outliers.CountOutsideCounts | src/clean_data.py:158-159 | `len(outliers)` is exactly the number of rows outside the fences |
| Outliers.StepOn | src/clean_data.py:152-166 | one loop iteration on the rows that reach it: the column has no fences exactly when none of its cells is a number, at most every row is counted, and rows are dropped exactly when the count exceeds the threshold |
| Outliers.KeepInside | src/clean_data.py:158-165 | the filter keeps, in order, exactly the rows not strictly outside the fences, and the number removed is the outlier count |
| Outliers.ApplyHarmless | src/clean_data.py:158-165 | a column's step leaves the rows unchanged if it drops nothing or finds nothing; otherwise it removes at least one row |
| Outliers.Survivors | src/clean_data.py:151-166 | after a series of column steps, the rows left are a subsequence of the input, and a row survives exactly when it is inside the fences of every step that dropped rows |
| Outliers.FilterCounts | src/clean_data.py:165 | the single-pass filter keeps every copy of a row that passes all dropping steps and no copy of any other row |
| Outliers.FilterApply | src/clean_data.py:158-165 | applying one column's step and then filtering by the remaining steps is the same as filtering by all of them at once |
| Outliers.SurvivorsIsFilter | src/clean_data.py:151-166 | dropping column by column, as the loop does, leaves exactly the rows of the single-pass filter by all the steps, in order and with their copies |
| Outliers.Sweep | src/clean_data.py:151-168 | the loop's k-th column step is computed on the rows that survived the steps before it |
| Outliers.DropOutliers | src/clean_data.py:139-175 | the result keeps the header and a subsequence of the rows; there is one step per numeric column; a column drops rows exactly when its count exceeds the threshold; a row survives exactly when every dropping step passes it; the rows left are exactly the single-pass filter of the input by those steps, in order and with all their copies; with no drop the table is returned as is |
| Outliers.DropOutliersKeepsCopies | src/clean_data.py:139-175 | every row that passes all dropping steps keeps as many copies as it had in the input, and every other row keeps none |
| Outliers.NoDropKeepsAll | src/clean_data.py:161-168 | when no column exceeds the threshold, only warnings result and no row is removed |
| Outliers.SweepUnchangedIff | src/clean_data.py:151-168 | the loop returns its rows unchanged exactly when every column is harmless to them |
| Outliers.DropOutliersUnchangedIff | src/clean_data.py:139-175 | `drop_outliers` returns its input unchanged exactly when no numeric column of the input has outliers that it would drop |
| Outliers.WithinThresholdUnchanged | src/clean_data.py:161-168 | at most `threshold` outliers in every numeric column means the table comes back unchanged |
| Outliers.SurvivorsWithinFences | src/clean_data.py:155-165 | after a column dropped rows, every surviving value in it lies within that column's fences |
| Outliers.InjectedExtremesAreDropped | tests/test_clean_data.py:12-42 | a two-column float table with injected extremes (150, -100, 200 among ordinary values), at threshold 2, comes back changed |
| Duplicates.DuplicateCount | src/clean_data.py:91 | `duplicated().sum()` plus the number of distinct rows is the number of rows |
| Duplicates.DropDuplicates | src/clean_data.py:98 | the result has no repeated row, the same set of rows, keeps row order, and is shorter by the duplicate count |
| Duplicates.KeepsFirstOccurrences | src/clean_data.py:98 | the kept rows appear in the order of their first occurrence |
| Duplicates.NoDuplicatesIffDistinct | src/clean_data.py:91-93 | `duplicated().sum()` is 0 exactly when no row repeats |
| Duplicates.DropDuplicatesUnchangedIff | src/clean_data.py:91-98 | dropping duplicates changes nothing exactly when the duplicate count is 0 |
| Duplicates.DropDuplicatesIdempotent | src/clean_data.py:98 | dropping duplicates twice equals dropping them once |
| Categorical.LevelsLoop | src/preprocess_utils.py:34-40 | the loop raises only for a listed feature that is not a column; when it finishes, every listed feature was a column, and the map's keys come from the starting map or the list |
| Categorical.LevelsLoopOk | src/preprocess_utils.py:34-40 | when every listed feature is a column, the loop adds to its map exactly the features with unexpected levels, each mapped to those levels |
| Categorical.LevelsLoopErr | src/preprocess_utils.py:35-36 | the loop raises a `KeyError` for the first listed feature that is not a column |
| Categorical.UnexpectedKeys | src/preprocess_utils.py:37-39 | a listed feature is a key exactly when its observed levels are not all expected |
| Categorical.ValidateCategoricalLevels | src/preprocess_utils.py:22-40 | fails exactly when a listed feature is missing, naming the first such feature; otherwise maps exactly the listed features whose non-missing levels escape the expected set, each to the non-empty set of escaping levels |
| Categorical.EmptyIffValid | src/preprocess_utils.py:34-40 | an empty result means every listed feature only takes expected values, and conversely |
| Categorical.DependsOnlyOnLevels | src/preprocess_utils.py:36-39 | only the column names and the observed level sets matter |
| Categorical.RowOrderIrrelevant | src/preprocess_utils.py:36 | reordering or repeating rows does not change the result |
| Categorical.NullsIgnored | src/preprocess_utils.py:36 | a row missing in every listed feature changes nothing (`dropna`) |
| Categorical.FewerRowsFewerLevels | src/preprocess_utils.py:36-37 | a table with a subset of the rows has a subset of the levels |
| Categorical.GarageExample | tests/test_preprocess_utils.py:24-29 | `garage = Y, N, Y, Z` against {Y, N} gives `{garage: {Z}}` |
| CleanData.EndsWithCsv | src/clean_data.py:33-34 | the path passes the guard exactly when it is some stem followed by `.csv` |
| CleanData.Positions | src/clean_data.py:39 | selection finds every requested column, or reports the non-empty set of absent names |
| CleanData.Select | src/clean_data.py:39 | `df[[...]]` raises exactly when a requested name is absent; otherwise it has the requested columns in the requested order, with every row's cells taken from the matching source columns |
| CleanData.CheckColumns | src/clean_data.py:42-54 | the check passes exactly when the column set equals the expected set; on failure it reports exactly the missing and the extra names, at least one of them non-empty |
| CleanData.EmptyRowCount | src/clean_data.py:57-62 | the count is 0 exactly when no row is entirely missing, and equals the row count exactly when every row is |
| CleanData.MissingnessFrom | src/clean_data.py:65-73 | a column is reported exactly when some row misses it, which is when its share of missing values exceeds the threshold 0 |
| CleanData.MissingnessFailures | src/clean_data.py:64-75 | the report lists exactly the columns with a missing value, and is empty exactly when no column has one |
| CleanData.MissingnessEmptyIff | src/clean_data.py:74-75 | the "passed for all columns" message appears exactly when no column has a missing value |
| CleanData.DTypeMismatchesFrom | src/clean_data.py:83-86 | a name is reported exactly when its column's dtype differs from the expected one |
| CleanData.DTypeMismatches | src/clean_data.py:79-88 | on the selected table, exactly the positions whose dtype differs from `expected_dtypes` are reported |
| CleanData.DuplicateStep | src/clean_data.py:91-98 | the count is `duplicated().sum()`; the table keeps its header, loses exactly its repeated rows and ends with no repeats; the count is 0 exactly when the table is unchanged |
| CleanData.Clean | src/clean_data.py:29-102 | a non-`.csv` path fails first; otherwise the run succeeds exactly when every expected column is present, and fails naming the absent ones. On success: `columns` is `main`'s column check as written (the result of `ColumnCheckAfterSelection`), which always passes (see Findings); `fileColumns` is the check on the file's own columns (`CheckColumns`), which passes exactly when the file has precisely the expected columns and otherwise names the missing and extra ones; the whole report is `Report` on the selected table, so the empty-row, missingness, dtype and duplicate reports are those of the selected table; the cleaned table is `drop_outliers(…, 5000)` of the deduplicated selection, a subsequence of the selected rows, with the six columns in order, no repeated row, and no more rows than the input minus the duplicates |
| CleanData.Report | src/clean_data.py:42-102 | after the selection: the column check passes with nothing missing or extra; the empty-row, missingness, dtype and duplicate reports are those of the selected table; the outlier report is `drop_outliers(…, 5000)` on the deduplicated table and the cleaned table is its result; the cleaned rows are a subsequence of the selected rows, a row is kept exactly when it is among them and passes every dropping step, there is no repeated row, and there are at most as many as the selected rows minus the duplicates |
| CleanData.SelectAllIsIdentity | src/clean_data.py:39 | selecting the expected columns from a table that already has exactly them, in order, returns it unchanged |
| CleanData.CleanIsNoOpOnCleanData | src/clean_data.py:33-102 | on data that is already clean (expected columns in order, no repeated row, no column over the outlier threshold) the cleaning returns it unchanged |
| CleanData.ColumnCheckAfterSelection | src/clean_data.py:38-54 | the column check as written, run after the selection: it raises or passes, and never reports a missing or extra column |
| CleanData.ExtraColumnGoesUnreported | src/clean_data.py:39-54 | a file with an extra `year` column passes the check as written, while the check on the file's own columns reports `year` as extra |
| CleanData.CategoryFlagLoop | src/clean_data.py:112-121 | the loop raises only for a listed feature that is not a column; when it finishes, every listed feature was a column, and a flag that ends true started true and saw only expected levels in every feature |
| CleanData.FlagLoopMatchesValidator | src/clean_data.py:112-121 | the flag loop ends true exactly when the validator's loop ends with an empty map, and raises for the same feature |
| CleanData.TrainCategoriesValid | src/clean_data.py:107-129 | `all_categories_valid` holds exactly when `validate_categorical_levels(train, features, {Y, N})` is empty, that is, when every categorical feature only takes Y or N |
| CleanData.TrainSplitOfValidTableIsValid | src/clean_data.py:105-121 | whichever rows the split puts into the training set, it passes the categorical check if the cleaned table does |

## Left out

- Reading and writing CSV files, the command-line options and `np.random.seed`: these are I/O and global state. The model takes the already-read table.
- `read_csv`'s dtype inference: each column's dtype is given in the header instead of being inferred from its text.
- `train_test_split` (line 105): the seeded random 70/30 split is not modelled. `CleanData.TrainSplitOfValidTableIsValid` holds for any choice of training rows.
- `create_preprocessor` (src/preprocess_utils.py:4-19): it only builds scikit-learn objects, which are foreign code.
- Floating point: values are exact reals. The float64 rounding of the quantile interpolation, of `q3 - q1` and of `1.5 * iqr` is not modelled, so pandas may classify a value right next to a fence differently from the model.
- Quantiles.Quantile: only probabilities k/4 are modelled, which are the only ones `drop_outliers` uses.
- The printed messages: every diagnostic is returned as a value, such as a count, a list of names, or a per-column outlier step.
- Duplicate column names: `read_csv` renames them (`a`, `a.1`). The model's lookup takes the first column with the name.
- CleanData.DTypeMismatches: requires the header to be exactly the six expected columns. This always holds at that point, since the selection at line 39 produced the table.
- Missing values in int64 columns: pandas stores such a column as float64. The model does not tie the dtype to the presence of `Null`.
- The guard `if __name__ == '__main__': main()` at line 137 runs before `drop_outliers` is defined at line 139. Run as a script, line 102 would therefore fail with a `NameError`. The model treats `drop_outliers` as defined, as happens when the module is imported.
- The code only reports missingness (lines 64-75) and never removes rows with missing values; the model does the same.
- Outliers.InjectedExtremesAreDropped: the repository's test draws 100 random normal values per column. The model uses five fixed ordinary rows instead, since a random draw cannot be stated. Its low extreme is -100 rather than -10 so that the first column's own step drops rows: with -10, that column's fences stay at -57.5 and 100.5 and only two of its values lie outside, which does not exceed the threshold 2. The table would still change through the second column, but the lemma states the first column's step.
- CleanData.CleanIsNoOpOnCleanData: idempotence holds only under its stated preconditions. A second run on cleaned data may compute new fences from the remaining rows and drop again, so `Clean` applied twice is not claimed to equal `Clean` applied once.

## Findings

| source | as written | input that shows it | evidently intended | confidence | as-written member | corrected member |
|---|---|---|---|---|---|---|
| src/clean_data.py:39-54 | the column-name check compares the columns of the table that line 39 has already cut down to the six expected ones | a CSV with the six expected columns plus `year`: the check prints that all expected columns are present and never reports `year` as extra. A missing column raises `KeyError` at line 39 before the check can report it | compare the columns of the file as read, so that extra columns are reported | high, not executed | CleanData.ColumnCheckAfterSelection (counterexample: CleanData.ExtraColumnGoesUnreported) | CleanData.CheckColumns, reported by CleanData.Clean as `fileColumns`, the check on the file's own columns |
