/**
 * `validate_categorical_levels(df, categorical_features, expected_values)`:
 * for each listed feature, in order, the set of its non-missing observed
 * values minus the expected values; features with a non-empty difference
 * are mapped to it. Looking up a feature that is not a column raises.
 */
module Categorical {
  import opened Results
  import opened Tables

  /** `df[feature]` on a name that is not a column. */
  datatype KeyError = KeyError(name: string)

  /** `set(column.dropna().unique())` for the column at position `j`. */
  function Observed(rows: seq<Row>, j: nat): set<Cell>
  {
    set row | row in rows && CellAt(row, j) != Null :: CellAt(row, j)
  }

  /** The observed levels of the column called `name` (none when there is no such column). */
  function Levels(t: Table, name: string): set<Cell>
  {
    match IndexOf(t.header, name)
    case Some(j) => Observed(t.rows, j)
    case None => {}
  }

  /** The reference answer: each listed feature with levels outside `expected`, mapped to those levels. */
  function Unexpected(t: Table, features: seq<string>, expected: set<Cell>): map<string, set<Cell>>
  {
    NonEmptyOnly(features, f => Levels(t, f) - expected)
  }

  /** Each listed name whose set under `sets` is non-empty, mapped to that set. */
  function NonEmptyOnly(names: seq<string>, sets: string -> set<Cell>): map<string, set<Cell>>
  {
    map f | f in names && sets(f) != {} :: sets(f)
  }

  /** Every name before position `i` is a column. */
  predicate PresentBefore(t: Table, features: seq<string>, i: nat)
    requires i <= |features|
  {
    forall k :: 0 <= k < i ==> features[k] in NameSet(t.header)
  }

  /** The loop of `validate_categorical_levels`: `acc` is `invalid_values` as the features before `features` left it. */
  function LevelsLoop(t: Table, features: seq<string>, expected: set<Cell>, acc: map<string, set<Cell>>)
    : (r: Result<map<string, set<Cell>>, KeyError>)
    ensures r.Err? ==> r.error.name in features && r.error.name !in NameSet(t.header)
    ensures r.Ok? ==> PresentBefore(t, features, |features|)
    ensures r.Ok? ==> forall f :: f in r.value ==> f in acc || f in features
    decreases |features|
  {
    if |features| == 0 then Ok(acc)
    else
      match IndexOf(t.header, features[0])
      case None => Err(KeyError(features[0]))
      case Some(j) =>
        var unexpected := Observed(t.rows, j) - expected;
        var r := LevelsLoop(t, features[1..], expected, if unexpected != {} then acc[features[0] := unexpected] else acc);
        PresentBeforeCons(t, features);
        assert forall f :: f in features[1..] ==> f in features;
        r
  }

  /** Handling the first name and then the rest gives the answer for all of them. */
  lemma NonEmptyOnlyCons(names: seq<string>, sets: string -> set<Cell>, acc: map<string, set<Cell>>)
    requires |names| > 0
    ensures var f := names[0];
      var acc' := if sets(f) != {} then acc[f := sets(f)] else acc;
      acc' + NonEmptyOnly(names[1..], sets) == acc + NonEmptyOnly(names, sets)
  {
    var f := names[0];
    var rest := names[1..];
    assert forall g :: g in names <==> g == f || g in rest;
    var acc' := if sets(f) != {} then acc[f := sets(f)] else acc;
    var left := acc' + NonEmptyOnly(rest, sets);
    var right := acc + NonEmptyOnly(names, sets);
    forall g | g in left
      ensures g in right && left[g] == right[g]
    {
    }
    assert left.Keys == right.Keys;
  }

  lemma {:induction false} LevelsLoopOk(t: Table, features: seq<string>, expected: set<Cell>, acc: map<string, set<Cell>>)
    requires PresentBefore(t, features, |features|)
    ensures LevelsLoop(t, features, expected, acc) == Ok(acc + Unexpected(t, features, expected))
    decreases |features|
  {
    if |features| == 0 {
      assert Unexpected(t, features, expected) == map[];
      assert acc + map[] == acc;
    } else {
      var f := features[0];
      var rest := features[1..];
      assert f in NameSet(t.header);
      assert PresentBefore(t, rest, |rest|) by {
        assert forall k :: 0 <= k < |rest| ==> rest[k] == features[k + 1];
      }
      var unexpected := Observed(t.rows, IndexOf(t.header, f).value) - expected;
      var acc' := if unexpected != {} then acc[f := unexpected] else acc;
      LevelsLoopOk(t, rest, expected, acc');
      assert unexpected == Levels(t, f) - expected;
      NonEmptyOnlyCons(features, f => Levels(t, f) - expected, acc);
    }
  }

  /** The first feature is a column and so is every later one, so all of them are. */
  lemma PresentBeforeCons(t: Table, features: seq<string>)
    requires |features| > 0
    ensures features[0] in NameSet(t.header) && PresentBefore(t, features[1..], |features| - 1)
      ==> PresentBefore(t, features, |features|)
  {
    if features[0] in NameSet(t.header) && PresentBefore(t, features[1..], |features| - 1) {
      forall k | 0 <= k < |features|
        ensures features[k] in NameSet(t.header)
      {
        if k > 0 { assert features[k] == features[1..][k - 1]; }
      }
    }
  }

  lemma {:induction false} LevelsLoopErr(t: Table, features: seq<string>, expected: set<Cell>, acc: map<string, set<Cell>>)
    requires !PresentBefore(t, features, |features|)
    ensures var r := LevelsLoop(t, features, expected, acc);
      && r.Err?
      && (exists i :: 0 <= i < |features| && features[i] == r.error.name
            && r.error.name !in NameSet(t.header) && PresentBefore(t, features, i))
    decreases |features|
  {
    var f := features[0];
    var rest := features[1..];
    var r := LevelsLoop(t, features, expected, acc);
    match IndexOf(t.header, f)
    case None =>
      assert features[0] == r.error.name && PresentBefore(t, features, 0);
    case Some(j) =>
      PresentBeforeCons(t, features);
      var unexpected := Observed(t.rows, j) - expected;
      var acc' := if unexpected != {} then acc[f := unexpected] else acc;
      LevelsLoopErr(t, rest, expected, acc');
      assert r == LevelsLoop(t, rest, expected, acc');
      var i :| 0 <= i < |rest| && rest[i] == r.error.name
               && r.error.name !in NameSet(t.header) && PresentBefore(t, rest, i);
      assert features[i + 1] == r.error.name;
      assert PresentBefore(t, features, i + 1) by {
        forall k | 0 <= k < i + 1
          ensures features[k] in NameSet(t.header)
        {
          if k > 0 { assert features[k] == rest[k - 1]; }
        }
      }
  }

  lemma UnexpectedKeys(t: Table, features: seq<string>, expected: set<Cell>)
    ensures forall f :: f in features ==> (f in Unexpected(t, features, expected) <==> !(Levels(t, f) <= expected))
  {
    forall f | f in features
      ensures f in Unexpected(t, features, expected) <==> !(Levels(t, f) <= expected)
    {
      if !(Levels(t, f) <= expected) {
        var v :| v in Levels(t, f) && v !in expected;
        assert v in Levels(t, f) - expected;
      }
    }
  }

  /**
   * The validator: a `KeyError` naming the first listed feature that is
   * not a column, or the map of every listed feature whose non-missing
   * levels escape `expected` to exactly the escaping levels.
   */
  function ValidateCategoricalLevels(t: Table, features: seq<string>, expected: set<Cell>)
    : (r: Result<map<string, set<Cell>>, KeyError>)
    ensures r.Err? <==> exists f :: f in features && f !in NameSet(t.header)
    ensures r.Err? ==> exists i :: 0 <= i < |features| && features[i] == r.error.name
                         && r.error.name !in NameSet(t.header) && PresentBefore(t, features, i)
    ensures r.Ok? ==> forall f :: f in r.value ==> f in features
    ensures r.Ok? ==> forall f :: f in features ==> (f in r.value <==> !(Levels(t, f) <= expected))
    ensures r.Ok? ==> forall f :: f in r.value ==> r.value[f] == Levels(t, f) - expected && r.value[f] != {}
  {
    var r := LevelsLoop(t, features, expected, map[]);
    if PresentBefore(t, features, |features|) then
      LevelsLoopOk(t, features, expected, map[]);
      assert map[] + Unexpected(t, features, expected) == Unexpected(t, features, expected);
      UnexpectedKeys(t, features, expected);
      r
    else
      LevelsLoopErr(t, features, expected, map[]);
      r
  }

  /** The result is empty exactly when every listed feature stays within `expected`. */
  lemma EmptyIffValid(t: Table, features: seq<string>, expected: set<Cell>)
    requires ValidateCategoricalLevels(t, features, expected).Ok?
    ensures ValidateCategoricalLevels(t, features, expected).value == map[] <==>
      forall f :: f in features ==> Levels(t, f) <= expected
  {
    var m := ValidateCategoricalLevels(t, features, expected).value;
    if m != map[] {
      var f :| f in m;
      assert f in features && !(Levels(t, f) <= expected);
    }
  }

  lemma {:induction false} LoopDependsOnlyOnLevels(t1: Table, t2: Table, features: seq<string>,
                                                   expected: set<Cell>, acc: map<string, set<Cell>>)
    requires NameSet(t1.header) == NameSet(t2.header)
    requires forall f :: f in features ==> Levels(t1, f) == Levels(t2, f)
    ensures LevelsLoop(t1, features, expected, acc) == LevelsLoop(t2, features, expected, acc)
    decreases |features|
  {
    if |features| > 0 {
      var f := features[0];
      assert f in features;
      match IndexOf(t1.header, f)
      case None =>
      case Some(j1) =>
        var j2 := IndexOf(t2.header, f).value;
        assert Observed(t1.rows, j1) == Levels(t1, f) == Levels(t2, f) == Observed(t2.rows, j2);
        var unexpected := Observed(t1.rows, j1) - expected;
        var acc' := if unexpected != {} then acc[f := unexpected] else acc;
        assert forall g :: g in features[1..] ==> g in features;
        LoopDependsOnlyOnLevels(t1, t2, features[1..], expected, acc');
    }
  }

  /**
   * Only the per-feature level sets matter: two tables with the same
   * column names and the same levels in every listed feature get the same answer.
   */
  lemma DependsOnlyOnLevels(t1: Table, t2: Table, features: seq<string>, expected: set<Cell>)
    requires NameSet(t1.header) == NameSet(t2.header)
    requires forall f :: f in features ==> Levels(t1, f) == Levels(t2, f)
    ensures ValidateCategoricalLevels(t1, features, expected) == ValidateCategoricalLevels(t2, features, expected)
  {
    LoopDependsOnlyOnLevels(t1, t2, features, expected, map[]);
  }

  /** Row order and repetition do not matter: only which rows occur. */
  lemma RowOrderIrrelevant(t1: Table, t2: Table, features: seq<string>, expected: set<Cell>)
    requires t1.header == t2.header
    requires forall row :: row in t1.rows <==> row in t2.rows
    ensures ValidateCategoricalLevels(t1, features, expected) == ValidateCategoricalLevels(t2, features, expected)
  {
    forall f | f in features
      ensures Levels(t1, f) == Levels(t2, f)
    {
    }
    DependsOnlyOnLevels(t1, t2, features, expected);
  }

  /** Missing cells are ignored: adding a row that is missing in every listed feature changes nothing. */
  lemma NullsIgnored(t: Table, row: Row, features: seq<string>, expected: set<Cell>)
    requires forall f :: f in features && f in NameSet(t.header) ==> CellAt(row, IndexOf(t.header, f).value) == Null
    ensures ValidateCategoricalLevels(Table(t.header, t.rows + [row]), features, expected)
         == ValidateCategoricalLevels(t, features, expected)
  {
    var t' := Table(t.header, t.rows + [row]);
    forall f | f in features
      ensures Levels(t', f) == Levels(t, f)
    {
      match IndexOf(t.header, f)
      case None =>
      case Some(j) =>
        assert Observed(t'.rows, j) == Observed(t.rows, j);
    }
    DependsOnlyOnLevels(t', t, features, expected);
  }

  /** Fewer rows can only show fewer unexpected levels. */
  lemma FewerRowsFewerLevels(small: Table, big: Table, name: string)
    requires small.header == big.header
    requires forall row :: row in small.rows ==> row in big.rows
    ensures Levels(small, name) <= Levels(big, name)
  {
  }

  /** The repository's test: `garage = ['Y', 'N', 'Y', 'Z']` against {'Y', 'N'} reports {'garage': {'Z'}}. */
  lemma GarageExample()
    ensures ValidateCategoricalLevels(
              Table([Column("garage", Object)], [[Str("Y")], [Str("N")], [Str("Y")], [Str("Z")]]),
              ["garage"], {Str("Y"), Str("N")})
         == Ok(map["garage" := {Str("Z")}])
  {
    var t := Table([Column("garage", Object)], [[Str("Y")], [Str("N")], [Str("Y")], [Str("Z")]]);
    var expected := {Str("Y"), Str("N")};
    assert IndexOf(t.header, "garage") == Some(0);
    assert Observed(t.rows, 0) == {Str("Y"), Str("N"), Str("Z")} by {
      assert t.rows[0] in t.rows && t.rows[1] in t.rows && t.rows[3] in t.rows;
      assert CellAt(t.rows[3], 0) == Str("Z");
    }
    assert Levels(t, "garage") - expected == {Str("Z")};
    var r := ValidateCategoricalLevels(t, ["garage"], expected);
    assert "garage" in NameSet(t.header);
    assert r.Ok?;
    assert r.value.Keys == {"garage"};
  }
}
