/**
 * The checks of the cleaning script's `main`, in its order: the file
 * extension guard, the selection of the six expected columns, the column
 * name comparison, empty rows, missingness, dtypes, duplicate removal and
 * outlier removal; then, on the training split, the categorical levels.
 * Every diagnostic the script prints is returned as a value instead.
 */
module CleanData {
  import opened Results
  import opened Tables
  import opened Subsequences
  import opened Outliers
  import opened Duplicates
  import opened Categorical

  /** The columns the script keeps, in the order it selects them. */
  const ExpectedColumns: seq<string> := ["meters", "garage", "firepl", "bsmt", "bdevl", "assess_2022"]

  /** `expected_cols`, the set the column check compares against. */
  const ExpectedColumnSet: set<string> := {"meters", "garage", "firepl", "bsmt", "bdevl", "assess_2022"}

  /** `expected_dtypes`, in its insertion order. */
  const ExpectedDTypes: seq<(string, DType)> :=
    [("meters", Float64), ("garage", Object), ("firepl", Object), ("bsmt", Object), ("bdevl", Object), ("assess_2022", Int64)]

  /** The threshold `main` passes to `drop_outliers`. */
  const OutlierThreshold: int := 5000

  const CategoricalFeatures: seq<string> := ["garage", "firepl", "bsmt", "bdevl"]

  const YesNo: set<Cell> := {Str("Y"), Str("N")}

  datatype CleanError =
    | UnsupportedFormat                     // the `ValueError` for a path not ending in ".csv"
    | MissingColumns(names: set<string>)    // the `KeyError` of selecting absent columns

  /** The column name check: passed, or the missing and the unexpected names. */
  datatype ColumnReport = ColumnReport(passed: bool, missing: set<string>, extra: set<string>)

  /**
   * Everything `main` reports, and the cleaned table it writes. `columns` is
   * the column check as `main` makes it, on the already selected table;
   * `fileColumns` is the same check on the file's own columns.
   */
  datatype CleanReport = CleanReport(
    columns: ColumnReport,
    fileColumns: ColumnReport,
    emptyRows: nat,
    missingness: seq<string>,
    dtypeMismatches: seq<string>,
    duplicates: nat,
    outliers: OutlierReport,
    cleaned: Table)

  /**
   * `file_path.endswith(".csv")`: case-sensitive, and ".csv" alone
   * qualifies. A path passes exactly when it is some stem followed by ".csv".
   */
  predicate EndsWithCsv(path: string)
    ensures EndsWithCsv(path) <==> exists stem :: path == stem + ".csv"
  {
    CsvSuffix(path);
    |path| >= 4 && path[|path| - 4..] == ".csv"
  }

  lemma CsvSuffix(path: string)
    ensures (|path| >= 4 && path[|path| - 4..] == ".csv") <==> exists stem :: path == stem + ".csv"
  {
    if |path| >= 4 && path[|path| - 4..] == ".csv" {
      var stem := path[..|path| - 4];
      assert path == stem + ".csv";
    }
    if exists stem :: path == stem + ".csv" {
      var stem :| path == stem + ".csv";
      assert path[|path| - 4..] == ".csv";
    }
  }

  /** The comparison of `actual_cols` with `expected_cols`. */
  function CheckColumns(actual: set<string>): (r: ColumnReport)
    ensures r.passed <==> actual == ExpectedColumnSet
    ensures r.passed <==> r.missing == {} && r.extra == {}
    ensures !r.passed ==> r.missing == ExpectedColumnSet - actual && r.extra == actual - ExpectedColumnSet
  {
    if actual == ExpectedColumnSet then ColumnReport(true, {}, {})
    else ColumnReport(false, ExpectedColumnSet - actual, actual - ExpectedColumnSet)
  }

  /** The positions of `names` in the header, or the names that are not columns. */
  function Positions(header: seq<Column>, names: seq<string>): (r: Result<seq<nat>, set<string>>)
    ensures r.Ok? <==> forall n :: n in names ==> n in NameSet(header)
    ensures r.Ok? ==> |r.value| == |names|
    ensures r.Ok? ==> forall k :: 0 <= k < |names| ==> r.value[k] == IndexOf(header, names[k]).value
    ensures r.Err? ==> r.error == (set n | n in names && n !in NameSet(header)) && r.error != {}
  {
    if !(forall n :: n in names ==> n in NameSet(header)) then
      SomeMissing(header, names);
      Err(set n | n in names && n !in NameSet(header))
    else
      Ok(seq(|names|, k requires 0 <= k < |names| => IndexOf(header, names[k]).value))
  }

  lemma SomeMissing(header: seq<Column>, names: seq<string>)
    requires exists n :: n in names && n !in NameSet(header)
    ensures (set n | n in names && n !in NameSet(header)) != {}
  {
    var x :| x in names && x !in NameSet(header);
    var missing := set n | n in names && n !in NameSet(header);
    assert x in missing;
    assert missing != {};
  }

  function ProjectRow(row: Row, positions: seq<nat>): (r: Row)
    ensures |r| == |positions|
    ensures forall k :: 0 <= k < |positions| ==> r[k] == CellAt(row, positions[k])
  {
    seq(|positions|, k requires 0 <= k < |positions| => CellAt(row, positions[k]))
  }

  /** `df[names]`: the named columns in the given order, or a `KeyError` listing the absent ones. */
  function Select(t: Table, names: seq<string>): (r: Result<Table, CleanError>)
    ensures r.Err? <==> exists n :: n in names && n !in NameSet(t.header)
    ensures r.Err? ==> r.error == MissingColumns(set n | n in names && n !in NameSet(t.header))
    ensures r.Err? ==> r.error.names != {}
    ensures r.Ok? ==> Names(r.value.header) == names
    ensures r.Ok? ==> forall k :: 0 <= k < |names| ==>
      r.value.header[k] == t.header[IndexOf(t.header, names[k]).value]
    ensures r.Ok? ==> |r.value.rows| == |t.rows|
    ensures r.Ok? ==> forall i, k :: 0 <= i < |t.rows| && 0 <= k < |names| ==>
      |r.value.rows[i]| == |names| && r.value.rows[i][k] == CellAt(t.rows[i], IndexOf(t.header, names[k]).value)
  {
    match Positions(t.header, names)
    case Err(missing) => Err(MissingColumns(missing))
    case Ok(positions) =>
      var header := seq(|names|, k requires 0 <= k < |names| => t.header[positions[k]]);
      var rows := seq(|t.rows|, i requires 0 <= i < |t.rows| => ProjectRow(t.rows[i], positions));
      assert Names(header) == names;
      Ok(Table(header, rows))
  }

  /** Every cell of the row is missing (`isna().all(axis=1)`). */
  predicate AllMissing(row: Row, width: nat)
  {
    forall k :: 0 <= k < width ==> CellAt(row, k) == Null
  }

  /** `housing_df.isna().all(axis=1).sum()`. */
  function EmptyRowCount(rows: seq<Row>, width: nat): (n: nat)
    ensures n <= |rows|
    ensures n == 0 <==> forall row :: row in rows ==> !AllMissing(row, width)
    ensures n == |rows| <==> forall row :: row in rows ==> AllMissing(row, width)
    decreases |rows|
  {
    if |rows| == 0 then 0
    else
      var init := rows[..|rows| - 1];
      assert rows == init + [rows[|rows| - 1]];
      EmptyRowCount(init, width) + (if AllMissing(rows[|rows| - 1], width) then 1 else 0)
  }

  /** Some row misses column `j`, so its share of missing values is above the threshold 0. */
  predicate HasMissing(rows: seq<Row>, j: nat)
  {
    exists row :: row in rows && CellAt(row, j) == Null
  }

  /** The columns from position `j` on that fail the missingness check, in header order. */
  function MissingnessFrom(t: Table, j: nat): (names: seq<string>)
    ensures forall n :: n in names <==>
      exists k :: j <= k < |t.header| && t.header[k].name == n && HasMissing(t.rows, k)
    decreases |t.header| - j
  {
    if j >= |t.header| then []
    else
      var rest := MissingnessFrom(t, j + 1);
      if HasMissing(t.rows, j) then [t.header[j].name] + rest else rest
  }

  /** The missingness check: every column whose share of missing values exceeds 0. */
  function MissingnessFailures(t: Table): (names: seq<string>)
    ensures forall n :: n in names <==>
      exists k :: 0 <= k < |t.header| && t.header[k].name == n && HasMissing(t.rows, k)
    ensures names == [] <==> forall k :: 0 <= k < |t.header| ==> !HasMissing(t.rows, k)
  {
    var names := MissingnessFrom(t, 0);
    MissingnessEmptyIff(t, names);
    names
  }

  lemma MissingnessEmptyIff(t: Table, names: seq<string>)
    requires forall n :: n in names <==>
      exists k :: 0 <= k < |t.header| && t.header[k].name == n && HasMissing(t.rows, k)
    ensures names == [] <==> forall k :: 0 <= k < |t.header| ==> !HasMissing(t.rows, k)
  {
    if k :| 0 <= k < |t.header| && HasMissing(t.rows, k) {
      assert t.header[k].name in names;
    }
    if names != [] {
      assert names[0] in names;
    }
  }

  /** The dtype check over `expected[j..]`: the names whose column has another dtype. */
  function DTypeMismatchesFrom(t: Table, expected: seq<(string, DType)>, j: nat): (names: seq<string>)
    requires forall p :: p in expected ==> p.0 in NameSet(t.header)
    ensures forall n :: n in names <==>
      exists k :: j <= k < |expected| && expected[k].0 == n
        && t.header[IndexOf(t.header, n).value].dtype != expected[k].1
    decreases |expected| - j
  {
    if j >= |expected| then []
    else
      var rest := DTypeMismatchesFrom(t, expected, j + 1);
      var (name, dtype) := expected[j];
      assert expected[j] in expected;
      if t.header[IndexOf(t.header, name).value].dtype != dtype then [name] + rest else rest
  }

  /** The dtype check; the selected table always has every expected column. */
  function DTypeMismatches(t: Table): (names: seq<string>)
    requires Names(t.header) == ExpectedColumns
    ensures forall n :: n in names <==>
      exists k :: 0 <= k < |ExpectedColumns| && ExpectedColumns[k] == n && t.header[k].dtype != ExpectedDTypes[k].1
  {
    assert forall p :: p in ExpectedDTypes ==> p.0 in ExpectedColumns;
    assert forall n :: n in ExpectedColumns ==> n in NameSet(t.header);
    var names := DTypeMismatchesFrom(t, ExpectedDTypes, 0);
    DTypeMismatchesByPosition(t, names);
    names
  }

  /** In a header that is exactly the expected columns, looking a name up finds its own position. */
  lemma ExpectedPositions(t: Table)
    requires Names(t.header) == ExpectedColumns
    ensures forall k :: 0 <= k < |ExpectedColumns| ==> IndexOf(t.header, ExpectedColumns[k]) == Some(k)
  {
    forall k | 0 <= k < |ExpectedColumns|
      ensures IndexOf(t.header, ExpectedColumns[k]) == Some(k)
    {
      assert t.header[k].name == ExpectedColumns[k];
    }
  }

  lemma DTypeLookup(t: Table, k: nat)
    requires Names(t.header) == ExpectedColumns && k < |ExpectedDTypes|
    ensures ExpectedDTypes[k].0 == ExpectedColumns[k]
    ensures IndexOf(t.header, ExpectedDTypes[k].0) == Some(k)
  {
    ExpectedPositions(t);
  }

  lemma DTypeMismatchesByPosition(t: Table, names: seq<string>)
    requires Names(t.header) == ExpectedColumns
    requires forall n :: n in names <==>
      exists k :: 0 <= k < |ExpectedDTypes| && ExpectedDTypes[k].0 == n
        && IndexOf(t.header, n).Some?
        && t.header[IndexOf(t.header, n).value].dtype != ExpectedDTypes[k].1
    ensures forall n :: n in names <==>
      exists k :: 0 <= k < |ExpectedColumns| && ExpectedColumns[k] == n && t.header[k].dtype != ExpectedDTypes[k].1
  {
    forall n
      ensures n in names <==>
        exists k :: 0 <= k < |ExpectedColumns| && ExpectedColumns[k] == n && t.header[k].dtype != ExpectedDTypes[k].1
    {
      if n in names {
        var k :| 0 <= k < |ExpectedDTypes| && ExpectedDTypes[k].0 == n
          && IndexOf(t.header, n).Some? && t.header[IndexOf(t.header, n).value].dtype != ExpectedDTypes[k].1;
        DTypeLookup(t, k);
      }
      if k :| 0 <= k < |ExpectedColumns| && ExpectedColumns[k] == n && t.header[k].dtype != ExpectedDTypes[k].1 {
        DTypeLookup(t, k);
      }
    }
  }

  /** The duplicate check: how many rows repeat an earlier one, and the table without them. */
  function DuplicateStep(t: Table): (r: (nat, Table))
    ensures r.0 == DuplicateCount(t.rows)
    ensures r.1.header == t.header
    ensures r.1.rows == DropDuplicates(t.rows)
    ensures Distinct(r.1.rows)
    ensures r.0 == 0 <==> r.1 == t
  {
    var duplicates := DuplicateCount(t.rows);
    DropDuplicatesUnchangedIff(t.rows);
    if duplicates == 0 then (0, t)
    else (duplicates, Table(t.header, DropDuplicates(t.rows)))
  }

  /**
   * `main` up to the split. Besides `main`'s own column check, the report
   * carries the check on the file's own columns (see
   * `ColumnCheckAfterSelection` for why the former always passes).
   */
  function Clean(path: string, raw: Table): (r: Result<CleanReport, CleanError>)
    ensures !EndsWithCsv(path) ==> r == Err(UnsupportedFormat)
    ensures r.Ok? <==> EndsWithCsv(path) && ExpectedColumnSet <= NameSet(raw.header)
    ensures EndsWithCsv(path) && r.Err? ==>
      r.error == MissingColumns(ExpectedColumnSet - NameSet(raw.header)) && r.error.names != {}
    ensures r.Ok? ==> Select(raw, ExpectedColumns).Ok?
    ensures r.Ok? ==> ColumnCheckAfterSelection(raw) == Ok(r.value.columns)
    ensures r.Ok? ==> r.value.columns == ColumnReport(true, {}, {})
    ensures r.Ok? ==> r.value.fileColumns == CheckColumns(NameSet(raw.header))
    ensures r.Ok? ==> (r.value.fileColumns.passed <==> NameSet(raw.header) == ExpectedColumnSet)
    ensures r.Ok? ==> r.value == Report(CheckColumns(NameSet(raw.header)), Select(raw, ExpectedColumns).value)
    ensures r.Ok? ==> var df := Select(raw, ExpectedColumns).value;
      && r.value.emptyRows == EmptyRowCount(df.rows, |ExpectedColumns|)
      && r.value.missingness == MissingnessFailures(df)
      && r.value.dtypeMismatches == DTypeMismatches(df)
      && r.value.duplicates == DuplicateCount(df.rows)
      && r.value.outliers == DropOutliers(Table(df.header, DropDuplicates(df.rows)), OutlierThreshold)
      && r.value.cleaned == r.value.outliers.table
      && IsSubseq(r.value.cleaned.rows, df.rows)
    ensures r.Ok? ==> Names(r.value.cleaned.header) == ExpectedColumns
    ensures r.Ok? ==> Distinct(r.value.cleaned.rows)
    ensures r.Ok? ==> |r.value.cleaned.rows| + r.value.duplicates <= |raw.rows|
  {
    if !EndsWithCsv(path) then Err(UnsupportedFormat)
    else
      var fileColumns := CheckColumns(NameSet(raw.header));
      assert (set n | n in ExpectedColumns && n !in NameSet(raw.header)) == ExpectedColumnSet - NameSet(raw.header);
      match Select(raw, ExpectedColumns)
      case Err(e) => Err(e)
      case Ok(df) => Ok(Report(fileColumns, df))
  }

  /**
   * The checks after the selection, on the selected table `df`: the column
   * check as written (which passes), the reports, duplicate removal, and
   * `drop_outliers` on the deduplicated table, whose result is the cleaned table.
   */
  function Report(fileColumns: ColumnReport, df: Table): (r: CleanReport)
    requires Names(df.header) == ExpectedColumns
    ensures r.columns == ColumnReport(true, {}, {})
    ensures r.fileColumns == fileColumns
    ensures r.emptyRows == EmptyRowCount(df.rows, |ExpectedColumns|)
    ensures r.missingness == MissingnessFailures(df)
    ensures r.dtypeMismatches == DTypeMismatches(df)
    ensures r.duplicates == DuplicateCount(df.rows)
    ensures r.outliers == DropOutliers(Table(df.header, DropDuplicates(df.rows)), OutlierThreshold)
    ensures r.cleaned == r.outliers.table
    ensures r.cleaned.header == df.header
    ensures IsSubseq(r.cleaned.rows, df.rows)
    ensures forall row :: row in r.cleaned.rows <==> row in df.rows && Passes(row, r.outliers.steps)
    ensures Distinct(r.cleaned.rows)
    ensures |r.cleaned.rows| + r.duplicates <= |df.rows|
  {
    NameSetOfNames(df.header, ExpectedColumns);
    var columns := CheckColumns(NameSet(df.header));
    var (duplicates, deduplicated) := DuplicateStep(df);
    assert deduplicated == Table(df.header, DropDuplicates(df.rows));
    var outliers := DropOutliers(deduplicated, OutlierThreshold);
    SubseqMultiset(outliers.table.rows, deduplicated.rows);
    SubseqDistinct(outliers.table.rows, deduplicated.rows);
    SubseqTrans(outliers.table.rows, deduplicated.rows, df.rows);
    CleanReport(
      columns,
      fileColumns,
      EmptyRowCount(df.rows, |df.header|),
      MissingnessFailures(df),
      DTypeMismatches(df),
      duplicates,
      outliers,
      outliers.table)
  }

  lemma NameSetOfNames(header: seq<Column>, names: seq<string>)
    requires Names(header) == names
    ensures NameSet(header) == set n | n in names
  {
    assert forall k :: 0 <= k < |header| ==> header[k].name == names[k];
  }

  /**
   * The column check as the script writes it: on the table that line 39 has
   * already cut down to the expected columns. It either raises there or
   * passes; it can never report a missing or an extra column.
   */
  function ColumnCheckAfterSelection(raw: Table): (r: Result<ColumnReport, CleanError>)
    ensures r.Err? <==> !(ExpectedColumnSet <= NameSet(raw.header))
    ensures r.Ok? ==> r.value.passed && r.value.missing == {} && r.value.extra == {}
  {
    match Select(raw, ExpectedColumns)
    case Err(e) => Err(e)
    case Ok(df) =>
      NameSetOfNames(df.header, ExpectedColumns);
      Ok(CheckColumns(NameSet(df.header)))
  }

  /** A file with one column too many: the check as written passes, the corrected one names it. */
  const WithYear: seq<Column> := [
    Column("meters", Float64), Column("garage", Object), Column("firepl", Object),
    Column("bsmt", Object), Column("bdevl", Object), Column("assess_2022", Int64), Column("year", Int64)]

  lemma ExtraColumnGoesUnreported()
    ensures ColumnCheckAfterSelection(Table(WithYear, [])) == Ok(ColumnReport(true, {}, {}))
    ensures CheckColumns(NameSet(WithYear)) == ColumnReport(false, {}, {"year"})
  {
    WithYearNames();
    assert "year" !in ExpectedColumnSet;
    assert ExpectedColumnSet - NameSet(WithYear) == {};
    assert NameSet(WithYear) - ExpectedColumnSet == {"year"};
  }

  lemma WithYearNames()
    ensures NameSet(WithYear) == ExpectedColumnSet + {"year"}
  {
    var names := NameSet(WithYear);
    assert forall k :: 0 <= k < |WithYear| ==> WithYear[k].name in ExpectedColumnSet + {"year"};
    assert WithYear[0].name in names && WithYear[1].name in names && WithYear[2].name in names;
    assert WithYear[3].name in names && WithYear[4].name in names && WithYear[5].name in names;
    assert WithYear[6].name in names;
  }

  /** The loop at the end of `main`: `all_categories_valid` after the features in `features`. */
  function CategoryFlagLoop(t: Table, features: seq<string>, expected: set<Cell>, valid: bool)
    : (r: Result<bool, KeyError>)
    ensures r.Err? ==> r.error.name in features && r.error.name !in NameSet(t.header)
    ensures r.Ok? ==> PresentBefore(t, features, |features|)
    ensures r.Ok? && r.value ==> valid && forall f :: f in features ==> Levels(t, f) <= expected
    decreases |features|
  {
    if |features| == 0 then Ok(valid)
    else
      match IndexOf(t.header, features[0])
      case None => Err(KeyError(features[0]))
      case Some(j) =>
        var unexpected := Observed(t.rows, j) - expected;
        assert Levels(t, features[0]) == Observed(t.rows, j);
        assert unexpected == {} ==> Observed(t.rows, j) <= expected by {
          forall x | x in Observed(t.rows, j) && unexpected == {}
            ensures x in expected
          {
            assert x !in unexpected;
          }
        }
        var r := CategoryFlagLoop(t, features[1..], expected, if unexpected != {} then false else valid);
        PresentBeforeCons(t, features);
        assert forall f :: f in features ==> f == features[0] || f in features[1..];
        r
  }

  /** The validator's map, reduced to "is it empty?". */
  function IsEmptyMap(r: Result<map<string, set<Cell>>, KeyError>): Result<bool, KeyError>
  {
    match r
    case Ok(m) => Ok(m == map[])
    case Err(e) => Err(e)
  }

  lemma {:induction false} FlagLoopMatchesValidator(t: Table, features: seq<string>, expected: set<Cell>,
                                                    acc: map<string, set<Cell>>, valid: bool)
    requires valid <==> acc == map[]
    ensures CategoryFlagLoop(t, features, expected, valid) == IsEmptyMap(LevelsLoop(t, features, expected, acc))
    decreases |features|
  {
    if |features| > 0 {
      match IndexOf(t.header, features[0])
      case None =>
      case Some(j) =>
        var unexpected := Observed(t.rows, j) - expected;
        var acc' := if unexpected != {} then acc[features[0] := unexpected] else acc;
        assert features[0] in acc'.Keys || acc' == acc;
        FlagLoopMatchesValidator(t, features[1..], expected, acc', if unexpected != {} then false else valid);
    }
  }

  /**
   * `all_categories_valid` on the training split: true exactly when every
   * categorical feature's non-missing values lie in {'Y', 'N'}, which is
   * exactly when `validate_categorical_levels` returns an empty map.
   */
  function TrainCategoriesValid(train: Table): (r: Result<bool, KeyError>)
    ensures r == IsEmptyMap(ValidateCategoricalLevels(train, CategoricalFeatures, YesNo))
    ensures r.Ok? ==> (r.value <==> forall f :: f in CategoricalFeatures ==> Levels(train, f) <= YesNo)
  {
    FlagLoopMatchesValidator(train, CategoricalFeatures, YesNo, map[], true);
    if ValidateCategoricalLevels(train, CategoricalFeatures, YesNo).Ok? then
      EmptyIffValid(train, CategoricalFeatures, YesNo);
      CategoryFlagLoop(train, CategoricalFeatures, YesNo, true)
    else
      CategoryFlagLoop(train, CategoricalFeatures, YesNo, true)
  }

  /**
   * Whatever rows the split puts into the training set, if the cleaned
   * table passes the categorical check then so does the training set.
   */
  lemma TrainSplitOfValidTableIsValid(cleaned: Table, train: Table)
    requires train.header == cleaned.header
    requires forall row :: row in train.rows ==> row in cleaned.rows
    requires TrainCategoriesValid(cleaned) == Ok(true)
    ensures TrainCategoriesValid(train) == Ok(true)
  {
    forall f | f in CategoricalFeatures
      ensures Levels(train, f) <= YesNo
    {
      FewerRowsFewerLevels(train, cleaned, f);
    }
  }

  lemma SelectAllIsIdentity(t: Table)
    requires Names(t.header) == ExpectedColumns
    requires forall row :: row in t.rows ==> |row| == |ExpectedColumns|
    ensures Select(t, ExpectedColumns) == Ok(t)
  {
    ExpectedPositions(t);
    var df := Select(t, ExpectedColumns).value;
    assert df.header == t.header;
    forall i | 0 <= i < |t.rows|
      ensures df.rows[i] == t.rows[i]
    {
      assert t.rows[i] in t.rows;
    }
    assert df.rows == t.rows;
  }

  /**
   * Running the cleaning on data that is already clean (the expected
   * columns in order, no duplicate row, no numeric column with more than
   * 5000 outliers) returns it unchanged.
   */
  lemma CleanIsNoOpOnCleanData(path: string, t: Table)
    requires EndsWithCsv(path)
    requires Names(t.header) == ExpectedColumns
    requires forall row :: row in t.rows ==> |row| == |ExpectedColumns|
    requires Distinct(t.rows)
    requires forall j :: 0 <= j < |t.header| && IsNumeric(t.header[j].dtype) ==> Harmless(t.rows, j, OutlierThreshold)
    ensures Clean(path, t).Ok? && Clean(path, t).value.cleaned == t
  {
    SelectAllIsIdentity(t);
    NoDuplicatesIffDistinct(t.rows);
    assert DuplicateStep(t) == (0, t);
    DropOutliersUnchangedIff(t, OutlierThreshold);
  }
}
