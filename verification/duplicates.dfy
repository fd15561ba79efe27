/**
 * `df.duplicated().sum()` and `df.drop_duplicates()` with pandas' default
 * `keep="first"`: a row is a duplicate when an equal row (all cells equal,
 * missing equal to missing) occurs earlier; dropping keeps the first
 * occurrence of every distinct row, in the original order.
 */
module Duplicates {
  import opened Tables
  import opened Subsequences

  /** The distinct rows of `s`. */
  function RowSet(s: seq<Row>): set<Row>
  {
    set x | x in s
  }

  /**
   * The number of positions holding a value already seen earlier: the
   * number of rows minus the number of distinct rows.
   */
  function DuplicateCount(s: seq<Row>): (n: nat)
    ensures n + |RowSet(s)| == |s|
    decreases |s|
  {
    if |s| == 0 then 0
    else
      var init := s[..|s| - 1];
      var last := s[|s| - 1];
      assert s == init + [last];
      assert RowSet(s) == RowSet(init) + {last};
      assert last in init <==> last in RowSet(init);
      DuplicateCount(init) + (if last in init then 1 else 0)
  }

  /** Where `x` occurs first in `s`. */
  function FirstIndex(s: seq<Row>, x: Row): (i: nat)
    requires x in s
    ensures i < |s| && s[i] == x && x !in s[..i]
  {
    if s[0] == x then 0
    else
      var i := FirstIndex(s[1..], x);
      assert s[..i + 1] == [s[0]] + s[1..][..i];
      i + 1
  }

  /** The rows of `s` that do not repeat an earlier row, in order. */
  function DropDuplicates(s: seq<Row>): (r: seq<Row>)
    ensures Distinct(r)
    ensures forall x :: x in r <==> x in s
    ensures IsSubseq(r, s)
    ensures |r| + DuplicateCount(s) == |s|
    decreases |s|
  {
    if |s| == 0 then []
    else
      var init := s[..|s| - 1];
      var last := s[|s| - 1];
      var kept := DropDuplicates(init);
      assert s == init + [last];
      assert forall x :: x in s <==> x in init || x == last;
      if last in init then
        SubseqSnoc(kept, init, last);
        kept
      else
        SubseqSnocBoth(kept, init, last);
        DistinctSnoc(kept, last);
        kept + [last]
  }

  lemma FirstIndexUnique(s: seq<Row>, x: Row, i: nat)
    requires i < |s| && s[i] == x && x !in s[..i]
    ensures FirstIndex(s, x) == i
  {
  }

  lemma FirstIndexPrefix(a: seq<Row>, b: seq<Row>, x: Row)
    requires x in a
    ensures FirstIndex(a + b, x) == FirstIndex(a, x)
  {
    var i := FirstIndex(a, x);
    assert (a + b)[..i] == a[..i];
    FirstIndexUnique(a + b, x, i);
  }

  /**
   * The kept rows appear in the order of their first occurrence: the copy
   * that survives is always the earliest one.
   */
  lemma {:induction false} KeepsFirstOccurrences(s: seq<Row>)
    ensures forall m, n :: 0 <= m < n < |DropDuplicates(s)| ==>
      FirstIndex(s, DropDuplicates(s)[m]) < FirstIndex(s, DropDuplicates(s)[n])
    decreases |s|
  {
    if |s| > 0 {
      var init := s[..|s| - 1];
      var last := s[|s| - 1];
      var kept := DropDuplicates(init);
      var r := DropDuplicates(s);
      assert s == init + [last];
      KeepsFirstOccurrences(init);
      forall x | x in init
        ensures FirstIndex(s, x) == FirstIndex(init, x)
      {
        FirstIndexPrefix(init, [last], x);
      }
      if last !in init {
        FirstIndexUnique(s, last, |init|);
        forall m, n | 0 <= m < n < |r|
          ensures FirstIndex(s, r[m]) < FirstIndex(s, r[n])
        {
          assert r == kept + [last];
          assert r[m] == kept[m] && r[m] in init;
          assert FirstIndex(s, r[m]) == FirstIndex(init, r[m]) < |init|;
          if n < |kept| {
            assert r[n] == kept[n] && r[n] in init;
            assert FirstIndex(init, kept[m]) < FirstIndex(init, kept[n]);
          } else {
            assert r[n] == last;
          }
        }
      }
    }
  }

  /** No duplicate is counted exactly when no row repeats. */
  lemma {:induction false} NoDuplicatesIffDistinct(s: seq<Row>)
    ensures DuplicateCount(s) == 0 <==> Distinct(s)
    decreases |s|
  {
    if |s| > 0 {
      var init := s[..|s| - 1];
      NoDuplicatesIffDistinct(init);
      assert s == init + [s[|s| - 1]];
      if Distinct(s) {
        assert Distinct(init);
      }
    }
  }

  /** `drop_duplicates` changes nothing exactly when `duplicated().sum()` is 0. */
  lemma DropDuplicatesUnchangedIff(s: seq<Row>)
    ensures DropDuplicates(s) == s <==> DuplicateCount(s) == 0
    ensures DropDuplicates(s) == s <==> Distinct(s)
  {
    NoDuplicatesIffDistinct(s);
    if DuplicateCount(s) == 0 {
      SubseqSameLength(DropDuplicates(s), s);
    }
  }

  /** Dropping duplicates twice is dropping them once. */
  lemma DropDuplicatesIdempotent(s: seq<Row>)
    ensures DropDuplicates(DropDuplicates(s)) == DropDuplicates(s)
  {
    DropDuplicatesUnchangedIff(DropDuplicates(s));
  }
}
