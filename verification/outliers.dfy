/**
 * `drop_outliers`: for every numeric column, in header order, compute the
 * interquartile-range fences on the rows that survived the earlier columns,
 * count the rows strictly outside them, and drop those rows only when the
 * count strictly exceeds the threshold (otherwise `drop_outliers` only warns).
 */
module Outliers {
  import opened Results
  import opened Tables
  import opened Subsequences
  import opened Quantiles

  /** The fences of one column: a value strictly below `lower` or above `upper` is an outlier. */
  datatype Fence = Fence(lower: real, upper: real)

  /**
   * What happened to one numeric column: its fences (`None` when the column
   * has no value, where pandas' quantile is NaN), the number of rows outside
   * them, and whether those rows were dropped.
   */
  datatype ColumnStep = ColumnStep(column: nat, fence: Option<Fence>, outliers: nat, dropped: bool)

  /** The filtered table, and one step per numeric column in header order. */
  datatype OutlierReport = OutlierReport(table: Table, steps: seq<ColumnStep>)

  /** Positions `j..` of the header that `select_dtypes(include=["float64", "int64"])` keeps. */
  function NumericFrom(header: seq<Column>, j: nat): (cols: seq<nat>)
    ensures forall k :: 0 <= k < |cols| ==> j <= cols[k] < |header| && IsNumeric(header[cols[k]].dtype)
    ensures forall c :: j <= c < |header| && IsNumeric(header[c].dtype) ==> c in cols
    ensures forall a, b :: 0 <= a < b < |cols| ==> cols[a] < cols[b]
    decreases |header| - j
  {
    if j >= |header| then []
    else if IsNumeric(header[j].dtype) then [j] + NumericFrom(header, j + 1)
    else NumericFrom(header, j + 1)
  }

  /** The numeric columns, in header order. */
  function NumericColumns(header: seq<Column>): seq<nat>
  {
    NumericFrom(header, 0)
  }

  /** The non-missing values of column `j`, in row order (what `quantile` looks at). */
  function ColumnValues(rows: seq<Row>, j: nat): (values: seq<real>)
    ensures |values| <= |rows|
    ensures forall v :: v in values <==> exists row :: row in rows && CellAt(row, j) == Num(v)
    decreases |rows|
  {
    if |rows| == 0 then []
    else
      var last := rows[|rows| - 1];
      assert rows == rows[..|rows| - 1] + [last];
      var init := ColumnValues(rows[..|rows| - 1], j);
      match CellAt(last, j)
      case Num(v) => init + [v]
      case _ => init
  }

  /** Each value occurs in the column's values as often as rows hold it in column `j`. */
  lemma {:induction false} ColumnValuesCounts(rows: seq<Row>, j: nat, v: real)
    ensures multiset(ColumnValues(rows, j))[v] == |set i | 0 <= i < |rows| && CellAt(rows[i], j) == Num(v)|
    decreases |rows|
  {
    var b := set i | 0 <= i < |rows| && CellAt(rows[i], j) == Num(v);
    if |rows| == 0 {
      assert b == {};
    } else {
      var init := rows[..|rows| - 1];
      var last := rows[|rows| - 1];
      assert rows == init + [last];
      ColumnValuesCounts(init, j, v);
      ColumnValuesLast(init, last, j);
      HoldingSnoc(init, last, j, v);
    }
  }

  /** A last row contributes its number, if it has one, at the end. */
  lemma ColumnValuesLast(init: seq<Row>, last: Row, j: nat)
    ensures ColumnValues(init + [last], j) ==
      ColumnValues(init, j) + (if CellAt(last, j).Num? then [CellAt(last, j).value] else [])
  {
    assert (init + [last])[..|init|] == init;
  }

  lemma HoldingSnoc(init: seq<Row>, last: Row, j: nat, v: real)
    ensures |set i | 0 <= i < |init + [last]| && CellAt((init + [last])[i], j) == Num(v)| ==
      |set i | 0 <= i < |init| && CellAt(init[i], j) == Num(v)| + (if CellAt(last, j) == Num(v) then 1 else 0)
  {
    var rows := init + [last];
    var a := set i | 0 <= i < |init| && CellAt(init[i], j) == Num(v);
    var b := set i | 0 <= i < |rows| && CellAt(rows[i], j) == Num(v);
    if CellAt(last, j) == Num(v) {
      assert b == a + {|init|};
    } else {
      assert b == a;
    }
  }

  /** `q1 - 1.5 * iqr` and `q3 + 1.5 * iqr`; no fences for a column without values. */
  function IqrFence(values: seq<real>): (f: Option<Fence>)
    ensures f.None? <==> |values| == 0
    ensures f.Some? ==> f.value.lower <= LowerQuartile(values) <= UpperQuartile(values) <= f.value.upper
  {
    if |values| == 0 then None
    else
      var q1 := LowerQuartile(values);
      var q3 := UpperQuartile(values);
      QuartilesOrdered(values);
      var iqr := q3 - q1;
      Some(Fence(q1 - 1.5 * iqr, q3 + 1.5 * iqr))
  }

  /**
   * `(df[col] < lower_bound) | (df[col] > upper_bound)`: both comparisons are
   * strict, and a missing value (NaN) or a NaN fence compares false.
   */
  predicate Outside(row: Row, j: nat, fence: Option<Fence>)
  {
    match fence
    case None => false
    case Some(f) =>
      match CellAt(row, j)
      case Num(v) => v < f.lower || v > f.upper
      case _ => false
  }

  /** `len(outliers)`: the number of rows outside the fences. */
  function CountOutside(rows: seq<Row>, j: nat, fence: Option<Fence>): (n: nat)
    ensures n <= |rows|
    ensures n == 0 <==> forall row :: row in rows ==> !Outside(row, j, fence)
    decreases |rows|
  {
    if |rows| == 0 then 0
    else
      assert rows == rows[..|rows| - 1] + [rows[|rows| - 1]];
      CountOutside(rows[..|rows| - 1], j, fence) + (if Outside(rows[|rows| - 1], j, fence) then 1 else 0)
  }

  /** `len(outliers)` is the number of positions whose row lies outside the fences. */
  lemma {:induction false} CountOutsideCounts(rows: seq<Row>, j: nat, fence: Option<Fence>)
    ensures CountOutside(rows, j, fence) == |set i | 0 <= i < |rows| && Outside(rows[i], j, fence)|
    decreases |rows|
  {
    var b := set i | 0 <= i < |rows| && Outside(rows[i], j, fence);
    if |rows| == 0 {
      assert b == {};
    } else {
      var init := rows[..|rows| - 1];
      var last := rows[|rows| - 1];
      CountOutsideCounts(init, j, fence);
      var a := set i | 0 <= i < |init| && Outside(init[i], j, fence);
      if Outside(last, j, fence) {
        assert b == a + {|rows| - 1};
        assert |rows| - 1 !in a;
      } else {
        assert b == a;
      }
    }
  }

  /** `df[~((df[col] < lower_bound) | (df[col] > upper_bound))]`. */
  function KeepInside(rows: seq<Row>, j: nat, fence: Option<Fence>): (r: seq<Row>)
    ensures IsSubseq(r, rows)
    ensures |r| + CountOutside(rows, j, fence) == |rows|
    ensures forall row :: row in r <==> row in rows && !Outside(row, j, fence)
    decreases |rows|
  {
    if |rows| == 0 then []
    else
      var init := rows[..|rows| - 1];
      var last := rows[|rows| - 1];
      var kept := KeepInside(init, j, fence);
      assert rows == init + [last];
      if Outside(last, j, fence) then
        SubseqSnoc(kept, init, last);
        kept
      else
        SubseqSnocBoth(kept, init, last);
        kept + [last]
  }

  /** The body of the loop for column `j` on the rows that reach it. */
  function StepOn(rows: seq<Row>, j: nat, threshold: int): (step: ColumnStep)
    ensures step.column == j
    ensures step.fence.None? <==> forall row :: row in rows ==> !CellAt(row, j).Num?
    ensures step.outliers <= |rows|
    ensures step.dropped <==> step.outliers > threshold
  {
    assert ColumnValues(rows, j) != [] ==> ColumnValues(rows, j)[0] in ColumnValues(rows, j);
    var fence := IqrFence(ColumnValues(rows, j));
    var n := CountOutside(rows, j, fence);
    ColumnStep(j, fence, n, n > threshold)
  }

  function Apply(rows: seq<Row>, step: ColumnStep): seq<Row>
  {
    if step.dropped then KeepInside(rows, step.column, step.fence) else rows
  }

  /** The row is inside the fences of every step that dropped rows. */
  predicate Passes(row: Row, steps: seq<ColumnStep>)
  {
    forall k :: 0 <= k < |steps| && steps[k].dropped ==> !Outside(row, steps[k].column, steps[k].fence)
  }

  /**
   * The reference for what the sweep leaves: one pass over the rows that
   * keeps, in order and with all its copies, every row passing every
   * dropping step.
   */
  function Filter(rows: seq<Row>, steps: seq<ColumnStep>): seq<Row>
    decreases |rows|
  {
    if |rows| == 0 then []
    else Filter(rows[..|rows| - 1], steps) + (if Passes(rows[|rows| - 1], steps) then [rows[|rows| - 1]] else [])
  }

  /** Every passing row keeps all its copies, and no other row keeps any. */
  lemma {:induction false} FilterCounts(rows: seq<Row>, steps: seq<ColumnStep>, row: Row)
    ensures multiset(Filter(rows, steps))[row] == if Passes(row, steps) then multiset(rows)[row] else 0
    decreases |rows|
  {
    if |rows| > 0 {
      var init := rows[..|rows| - 1];
      assert rows == init + [rows[|rows| - 1]];
      FilterCounts(init, steps, row);
    }
  }

  lemma FilterSnoc(rows: seq<Row>, x: Row, steps: seq<ColumnStep>)
    ensures Filter(rows + [x], steps) == Filter(rows, steps) + (if Passes(x, steps) then [x] else [])
  {
    assert (rows + [x])[..|rows|] == rows;
  }

  /** Passing a list of steps is passing its first step and then the rest. */
  lemma PassesCons(row: Row, steps: seq<ColumnStep>)
    requires |steps| > 0
    ensures Passes(row, steps) <==>
      (steps[0].dropped ==> !Outside(row, steps[0].column, steps[0].fence)) && Passes(row, steps[1..])
  {
    if Passes(row, steps) {
      forall k | 0 <= k < |steps[1..]| && steps[1..][k].dropped
        ensures !Outside(row, steps[1..][k].column, steps[1..][k].fence)
      {
        assert steps[1..][k] == steps[k + 1];
      }
    }
    if (steps[0].dropped ==> !Outside(row, steps[0].column, steps[0].fence)) && Passes(row, steps[1..]) {
      forall k | 0 <= k < |steps| && steps[k].dropped
        ensures !Outside(row, steps[k].column, steps[k].fence)
      {
        if k > 0 {
          assert steps[k] == steps[1..][k - 1];
        }
      }
    }
  }

  /** Applying one step and then filtering by the rest is filtering by all of them at once. */
  lemma {:induction false} FilterApply(rows: seq<Row>, step: ColumnStep, rest: seq<ColumnStep>)
    ensures Filter(Apply(rows, step), rest) == Filter(rows, [step] + rest)
    decreases |rows|
  {
    var steps := [step] + rest;
    assert steps[0] == step && steps[1..] == rest;
    if |rows| > 0 {
      var init := rows[..|rows| - 1];
      var last := rows[|rows| - 1];
      assert rows == init + [last];
      FilterApply(init, step, rest);
      PassesCons(last, steps);
      if step.dropped {
        var kept := KeepInside(init, step.column, step.fence);
        if !Outside(last, step.column, step.fence) {
          FilterSnoc(kept, last, rest);
        }
      }
    }
  }

  /** With no steps every row passes. */
  lemma {:induction false} FilterNoSteps(rows: seq<Row>)
    ensures Filter(rows, []) == rows
    decreases |rows|
  {
    if |rows| > 0 {
      var init := rows[..|rows| - 1];
      var last := rows[|rows| - 1];
      FilterNoSteps(init);
      assert Passes(last, []);
      assert Filter(rows, []) == Filter(init, []) + [last];
      assert rows == init + [last];
    }
  }

  /** The rows left after applying `steps` in order. */
  function Survivors(rows: seq<Row>, steps: seq<ColumnStep>): (r: seq<Row>)
    ensures IsSubseq(r, rows)
    ensures forall row :: row in r <==> row in rows && Passes(row, steps)
    decreases |steps|
  {
    if |steps| == 0 then
      SubseqRefl(rows);
      rows
    else
      var next := Apply(rows, steps[0]);
      SubseqRefl(rows);
      var r := Survivors(next, steps[1..]);
      SubseqTrans(r, next, rows);
      assert forall row :: Passes(row, steps) <==>
        (steps[0].dropped ==> !Outside(row, steps[0].column, steps[0].fence)) && Passes(row, steps[1..]) by {
        forall row
          ensures Passes(row, steps) <==>
            (steps[0].dropped ==> !Outside(row, steps[0].column, steps[0].fence)) && Passes(row, steps[1..])
        {
          PassesCons(row, steps);
        }
      }
      r
  }

  /** Dropping column by column, as the loop does, equals a single filter by all the dropping steps. */
  lemma {:induction false} SurvivorsIsFilter(rows: seq<Row>, steps: seq<ColumnStep>)
    ensures Survivors(rows, steps) == Filter(rows, steps)
    decreases |steps|
  {
    if |steps| == 0 {
      FilterNoSteps(rows);
    } else {
      SurvivorsIsFilter(Apply(rows, steps[0]), steps[1..]);
      FilterApply(rows, steps[0], steps[1..]);
      assert [steps[0]] + steps[1..] == steps;
    }
  }

  /**
   * The loop over `cols`: each column's step is computed on the rows that
   * survived the steps before it, and the result is what survives them all.
   */
  function Sweep(rows: seq<Row>, cols: seq<nat>, threshold: int): (r: (seq<Row>, seq<ColumnStep>))
    ensures |r.1| == |cols|
    ensures r.0 == Survivors(rows, r.1)
    ensures forall k :: 0 <= k < |cols| ==> r.1[k] == StepOn(Survivors(rows, r.1[..k]), cols[k], threshold)
    decreases |cols|
  {
    if |cols| == 0 then (rows, [])
    else
      var step := StepOn(rows, cols[0], threshold);
      var rest := Sweep(Apply(rows, step), cols[1..], threshold);
      var steps := [step] + rest.1;
      assert forall k :: 0 < k <= |rest.1| ==> steps[..k] == [step] + rest.1[..k - 1];
      assert steps[1..] == rest.1;
      assert steps[..0] == [];
      (rest.0, steps)
  }

  /** `drop_outliers(df, threshold)`, together with what it found per column. */
  function DropOutliers(t: Table, threshold: int): (r: OutlierReport)
    ensures r.table.header == t.header
    ensures IsSubseq(r.table.rows, t.rows)
    ensures |r.steps| == |NumericColumns(t.header)|
    ensures forall k :: 0 <= k < |r.steps| ==>
      r.steps[k].column < |t.header| && IsNumeric(t.header[r.steps[k].column].dtype)
    ensures forall k :: 0 <= k < |r.steps| ==> (r.steps[k].dropped <==> r.steps[k].outliers > threshold)
    ensures forall k :: 0 <= k < |r.steps| ==>
      r.steps[k] == StepOn(Survivors(t.rows, r.steps[..k]), NumericColumns(t.header)[k], threshold)
    ensures forall row :: row in r.table.rows <==> row in t.rows && Passes(row, r.steps)
    ensures r.table.rows == Filter(t.rows, r.steps)
    ensures (forall k :: 0 <= k < |r.steps| ==> !r.steps[k].dropped) ==> r.table == t
  {
    var cols := NumericColumns(t.header);
    var (rows, steps) := Sweep(t.rows, cols, threshold);
    NoDropKeepsAll(t.rows, steps);
    SurvivorsIsFilter(t.rows, steps);
    OutlierReport(Table(t.header, rows), steps)
  }

  lemma {:induction false} NoDropKeepsAll(rows: seq<Row>, steps: seq<ColumnStep>)
    ensures (forall k :: 0 <= k < |steps| ==> !steps[k].dropped) ==> Survivors(rows, steps) == rows
    decreases |steps|
  {
    if |steps| > 0 {
      NoDropKeepsAll(rows, steps[1..]);
      assert forall k :: 1 <= k < |steps| ==> steps[k] == steps[1..][k - 1];
    }
  }

  /** `drop_outliers` keeps every copy of a passing row and no copy of any other. */
  lemma DropOutliersKeepsCopies(t: Table, threshold: int, row: Row)
    ensures var r := DropOutliers(t, threshold);
      multiset(r.table.rows)[row] == if Passes(row, r.steps) then multiset(t.rows)[row] else 0
  {
    var r := DropOutliers(t, threshold);
    FilterCounts(t.rows, r.steps, row);
  }

  /** A column leaves the rows as they are: nothing dropped, or nothing outside. */
  predicate Harmless(rows: seq<Row>, j: nat, threshold: int)
  {
    var step := StepOn(rows, j, threshold);
    !step.dropped || step.outliers == 0
  }

  lemma ApplyHarmless(rows: seq<Row>, j: nat, threshold: int)
    ensures Harmless(rows, j, threshold) ==> Apply(rows, StepOn(rows, j, threshold)) == rows
    ensures !Harmless(rows, j, threshold) ==> |Apply(rows, StepOn(rows, j, threshold))| < |rows|
  {
    var step := StepOn(rows, j, threshold);
    if step.dropped {
      var kept := KeepInside(rows, j, step.fence);
      if step.outliers == 0 {
        SubseqSameLength(kept, rows);
      }
    }
  }

  /** The sweep returns its rows unchanged exactly when every column is harmless to them. */
  lemma {:induction false} SweepUnchangedIff(rows: seq<Row>, cols: seq<nat>, threshold: int)
    ensures Sweep(rows, cols, threshold).0 == rows <==>
      forall k :: 0 <= k < |cols| ==> Harmless(rows, cols[k], threshold)
    decreases |cols|
  {
    if |cols| > 0 {
      var step := StepOn(rows, cols[0], threshold);
      var next := Apply(rows, step);
      ApplyHarmless(rows, cols[0], threshold);
      SweepFirst(rows, cols, threshold);
      if Harmless(rows, cols[0], threshold) {
        SweepUnchangedIff(rows, cols[1..], threshold);
        assert forall k :: 1 <= k < |cols| ==> cols[k] == cols[1..][k - 1];
      } else {
        SweepShrinks(next, cols[1..], threshold);
      }
    }
  }

  /** The sweep's rows after its first column are the sweep of the rest on what that column left. */
  lemma SweepFirst(rows: seq<Row>, cols: seq<nat>, threshold: int)
    requires |cols| > 0
    ensures Sweep(rows, cols, threshold).0 == Sweep(Apply(rows, StepOn(rows, cols[0], threshold)), cols[1..], threshold).0
  {
  }

  lemma SweepShrinks(rows: seq<Row>, cols: seq<nat>, threshold: int)
    ensures |Sweep(rows, cols, threshold).0| <= |rows|
  {
    var r := Sweep(rows, cols, threshold);
    SubseqMultiset(r.0, rows);
  }

  /**
   * `drop_outliers` returns its input unchanged exactly when no numeric
   * column of the INPUT has more outliers than the threshold (or none at
   * all): the first column that has would drop at least one row.
   */
  lemma DropOutliersUnchangedIff(t: Table, threshold: int)
    ensures DropOutliers(t, threshold).table == t <==>
      forall j :: 0 <= j < |t.header| && IsNumeric(t.header[j].dtype) ==> Harmless(t.rows, j, threshold)
  {
    SweepUnchangedIff(t.rows, NumericColumns(t.header), threshold);
    DropOutliersIsSweep(t, threshold);
    HarmlessNumericColumns(t, threshold);
  }

  lemma DropOutliersIsSweep(t: Table, threshold: int)
    ensures DropOutliers(t, threshold).table == Table(t.header, Sweep(t.rows, NumericColumns(t.header), threshold).0)
  {
  }

  /** Every numeric column is harmless exactly when every column the loop visits is. */
  lemma HarmlessNumericColumns(t: Table, threshold: int)
    ensures var cols := NumericColumns(t.header);
      (forall k :: 0 <= k < |cols| ==> Harmless(t.rows, cols[k], threshold)) <==>
      forall j :: 0 <= j < |t.header| && IsNumeric(t.header[j].dtype) ==> Harmless(t.rows, j, threshold)
  {
    var cols := NumericColumns(t.header);
    if forall k :: 0 <= k < |cols| ==> Harmless(t.rows, cols[k], threshold) {
      forall j | 0 <= j < |t.header| && IsNumeric(t.header[j].dtype)
        ensures Harmless(t.rows, j, threshold)
      {
        assert j in cols;
        var k :| 0 <= k < |cols| && cols[k] == j;
      }
    }
  }

  /** With no column over the threshold, the table comes back as it went in. */
  lemma WithinThresholdUnchanged(t: Table, threshold: int)
    requires forall j :: 0 <= j < |t.header| && IsNumeric(t.header[j].dtype) ==>
      CountOutside(t.rows, j, IqrFence(ColumnValues(t.rows, j))) <= threshold
    ensures DropOutliers(t, threshold).table == t
  {
    DropOutliersUnchangedIff(t, threshold);
  }

  /**
   * Every value that survives in a column that dropped rows lies within
   * that column's fences, the fences themselves included.
   */
  lemma SurvivorsWithinFences(t: Table, threshold: int, k: nat, row: Row, v: real)
    ensures var r := DropOutliers(t, threshold);
      (k < |r.steps| && r.steps[k].dropped && r.steps[k].fence.Some? && row in r.table.rows
        && CellAt(row, r.steps[k].column) == Num(v))
      ==> (r.steps[k].fence.value.lower <= v <= r.steps[k].fence.value.upper
        && r.steps[k].fence.value.lower <= r.steps[k].fence.value.upper)
  {
    var r := DropOutliers(t, threshold);
    if k < |r.steps| && r.steps[k].dropped && r.steps[k].fence.Some? && row in r.table.rows {
      assert Passes(row, r.steps);
      var before := Survivors(t.rows, r.steps[..k]);
      var values := ColumnValues(before, r.steps[k].column);
      assert r.steps[k].fence == IqrFence(values);
    }
  }

  /** Rows of two numeric cells, `xs[i]` and `ys[i]`. */
  function PairRows(xs: seq<real>, ys: seq<real>): (rows: seq<Row>)
    requires |xs| == |ys|
    ensures |rows| == |xs|
  {
    if |xs| == 0 then []
    else PairRows(xs[..|xs| - 1], ys[..|ys| - 1]) + [[Num(xs[|xs| - 1]), Num(ys[|ys| - 1])]]
  }

  lemma {:induction false} PairRowsFirstColumn(xs: seq<real>, ys: seq<real>)
    requires |xs| == |ys|
    ensures ColumnValues(PairRows(xs, ys), 0) == xs
    decreases |xs|
  {
    if |xs| > 0 {
      var xi, yi := xs[..|xs| - 1], ys[..|ys| - 1];
      var x, y := xs[|xs| - 1], ys[|ys| - 1];
      assert xs == xi + [x];
      var init := PairRows(xi, yi);
      var last: Row := [Num(x), Num(y)];
      assert PairRows(xs, ys) == init + [last];
      PairRowsFirstColumn(xi, yi);
      ColumnValuesSnoc(init, last, x);
    }
  }

  lemma {:induction false} ColumnValuesAppend(a: seq<Row>, b: seq<Row>, j: nat)
    ensures ColumnValues(a + b, j) == ColumnValues(a, j) + ColumnValues(b, j)
    decreases |b|
  {
    if |b| > 0 {
      var b' := b[..|b| - 1];
      var last := b[|b| - 1];
      assert b == b' + [last];
      assert (a + b)[..|a + b| - 1] == a + b';
      assert (a + b)[|a + b| - 1] == last;
      ColumnValuesAppend(a, b', j);
      match CellAt(last, j)
      case Num(v) =>
        assert ColumnValues(a, j) + ColumnValues(b', j) + [v] == ColumnValues(a, j) + (ColumnValues(b', j) + [v]);
      case _ =>
    } else {
      assert a + b == a;
    }
  }

  lemma {:induction false} CountOutsideAppend(a: seq<Row>, b: seq<Row>, j: nat, fence: Option<Fence>)
    ensures CountOutside(a + b, j, fence) == CountOutside(a, j, fence) + CountOutside(b, j, fence)
    decreases |b|
  {
    if |b| > 0 {
      var b' := b[..|b| - 1];
      assert b == b' + [b[|b| - 1]];
      assert (a + b)[..|a + b| - 1] == a + b';
      assert (a + b)[|a + b| - 1] == b[|b| - 1];
      CountOutsideAppend(a, b', j, fence);
    } else {
      assert a + b == a;
    }
  }

  /** The repository's test in miniature: five ordinary rows, then three extreme rows appended. */
  function OrdinaryRows(): seq<Row>
  {
    PairRows([1.0, 2.0, 3.0, 4.0, 5.0], [31.0, 28.0, 30.0, 27.0, 33.0])
  }

  function InjectedTable(): Table
  {
    Table([Column("Feature1", Float64), Column("Feature2", Float64)],
          OrdinaryRows() + [[Num(150.0), Num(80.0)]] + [[Num(-100.0), Num(-20.0)]] + [[Num(200.0), Num(100.0)]])
  }

  lemma InjectedFirstColumn()
    ensures ColumnValues(InjectedTable().rows, 0) == [1.0, 2.0, 3.0, 4.0, 5.0, 150.0, -100.0, 200.0]
  {
    var base := OrdinaryRows();
    var e0, e1, e2 := [Num(150.0), Num(80.0)], [Num(-100.0), Num(-20.0)], [Num(200.0), Num(100.0)];
    var r1, r2, r3 := base + [e0], base + [e0] + [e1], base + [e0] + [e1] + [e2];
    assert InjectedTable().rows == r3;
    OrdinaryFirstColumn();
    ColumnValuesSnoc(base, e0, 150.0);
    ColumnValuesSnoc(r1, e1, -100.0);
    ColumnValuesSnoc(r2, e2, 200.0);
    InjectedColumnLiteral();
  }

  // The literal facts below (splits and joins of the eight-value column) are
  // separate lemmas because, stated inline, the solver spends its budget on
  // the literal sequences before reaching the step that uses them.

  lemma InjectedColumnLiteral()
    ensures [1.0, 2.0, 3.0, 4.0, 5.0] + [150.0] + [-100.0] + [200.0] == [1.0, 2.0, 3.0, 4.0, 5.0, 150.0, -100.0, 200.0]
  {
  }

  lemma OrdinaryFirstColumn()
    ensures ColumnValues(OrdinaryRows(), 0) == [1.0, 2.0, 3.0, 4.0, 5.0]
  {
    PairRowsFirstColumn([1.0, 2.0, 3.0, 4.0, 5.0], [31.0, 28.0, 30.0, 27.0, 33.0]);
  }

  lemma ColumnValuesSnoc(rows: seq<Row>, row: Row, v: real)
    requires CellAt(row, 0) == Num(v)
    ensures ColumnValues(rows + [row], 0) == ColumnValues(rows, 0) + [v]
  {
    assert (rows + [row])[..|rows|] == rows;
  }

  lemma InjectedSorted()
    ensures SortAscending([1.0, 2.0, 3.0, 4.0, 5.0, 150.0, -100.0, 200.0])
         == [-100.0, 1.0, 2.0, 3.0, 4.0, 5.0, 150.0, 200.0]
  {
    InjectedOrdered();
    InjectedPermutation();
    SortedUnique(SortAscending([1.0, 2.0, 3.0, 4.0, 5.0, 150.0, -100.0, 200.0]),
                 [-100.0, 1.0, 2.0, 3.0, 4.0, 5.0, 150.0, 200.0]);
  }

  lemma InjectedOrdered()
    ensures Sorted([-100.0, 1.0, 2.0, 3.0, 4.0, 5.0, 150.0, 200.0])
  {
  }

  lemma InjectedPermutation()
    ensures multiset([-100.0, 1.0, 2.0, 3.0, 4.0, 5.0, 150.0, 200.0])
         == multiset([1.0, 2.0, 3.0, 4.0, 5.0, 150.0, -100.0, 200.0])
  {
    InjectedSortedSplit();
    InjectedColumnSplit();
    SwapFront([-100.0], [1.0, 2.0, 3.0, 4.0, 5.0, 150.0], [200.0]);
  }

  lemma InjectedSortedSplit()
    ensures [-100.0, 1.0, 2.0, 3.0, 4.0, 5.0, 150.0, 200.0] == [-100.0] + [1.0, 2.0, 3.0, 4.0, 5.0, 150.0] + [200.0]
  {
  }

  lemma InjectedColumnSplit()
    ensures [1.0, 2.0, 3.0, 4.0, 5.0, 150.0, -100.0, 200.0] == [1.0, 2.0, 3.0, 4.0, 5.0, 150.0] + [-100.0] + [200.0]
  {
  }

  lemma SwapFront(x: seq<real>, o: seq<real>, y: seq<real>)
    ensures multiset(x + o + y) == multiset(o + x + y)
  {
    assert multiset(x + o + y) == multiset(x) + multiset(o) + multiset(y);
    assert multiset(o + x + y) == multiset(o) + multiset(x) + multiset(y);
  }

  lemma InjectedQuartiles()
    ensures Quantile([-100.0, 1.0, 2.0, 3.0, 4.0, 5.0, 150.0, 200.0], 1) == 1.75
    ensures Quantile([-100.0, 1.0, 2.0, 3.0, 4.0, 5.0, 150.0, 200.0], 3) == 41.25
  {
  }

  lemma InjectedFences()
    ensures IqrFence([1.0, 2.0, 3.0, 4.0, 5.0, 150.0, -100.0, 200.0]) == Some(Fence(-57.5, 100.5))
  {
    InjectedSorted();
    InjectedQuartiles();
  }

  lemma InjectedOutliers()
    ensures CountOutside(InjectedTable().rows, 0, Some(Fence(-57.5, 100.5))) >= 3
  {
    var fence := Some(Fence(-57.5, 100.5));
    var base := OrdinaryRows();
    var e0, e1, e2 := [[Num(150.0), Num(80.0)]], [[Num(-100.0), Num(-20.0)]], [[Num(200.0), Num(100.0)]];
    CountOutsideAppend(base, e0, 0, fence);
    CountOutsideAppend(base + e0, e1, 0, fence);
    CountOutsideAppend(base + e0 + e1, e2, 0, fence);
    assert CountOutside(e0, 0, fence) == 1;
    assert CountOutside(e1, 0, fence) == 1;
    assert CountOutside(e2, 0, fence) == 1;
  }

  /**
   * With threshold 2, the first column's fences are -57.5 and 100.5, three
   * rows lie outside them, 3 > 2, and so the result differs from the input.
   */
  lemma InjectedExtremesAreDropped()
    ensures DropOutliers(InjectedTable(), 2).table != InjectedTable()
  {
    var t := InjectedTable();
    InjectedFirstStep();
    assert IsNumeric(t.header[0].dtype);
    DropOutliersUnchangedIff(t, 2);
  }

  /** The first column's step at threshold 2 finds at least three outliers and drops them. */
  lemma InjectedFirstStep()
    ensures !Harmless(InjectedTable().rows, 0, 2)
  {
    var rows := InjectedTable().rows;
    InjectedColumnFence();
    InjectedOutliers();
    var fence := Some(Fence(-57.5, 100.5));
    var n := CountOutside(rows, 0, fence);
    assert StepOn(rows, 0, 2) == ColumnStep(0, fence, n, true);
  }

  lemma InjectedColumnFence()
    ensures IqrFence(ColumnValues(InjectedTable().rows, 0)) == Some(Fence(-57.5, 100.5))
  {
    InjectedFirstColumn();
    InjectedFences();
  }
}
