/**
 * Quantiles of a numeric column as pandas computes them by default
 * (`Series.quantile(q)`, numpy's "linear" method): on the values sorted
 * ascending, position `q * (n - 1)` is split into an integer index and a
 * fraction, and the result interpolates linearly between the two
 * neighbouring values. Probabilities are multiples of 1/4, since the
 * cleaning stage only asks for 0.25 and 0.75. The arithmetic is on exact
 * reals: the rounding of float64 interpolation, of `q3 - q1` and of
 * `1.5 * iqr` is not modelled, so a value next to a fence may be
 * classified differently by pandas.
 */
module Quantiles {

  predicate Sorted(s: seq<real>)
  {
    forall i, j :: 0 <= i < j < |s| ==> s[i] <= s[j]
  }

  function Insert(x: real, s: seq<real>): (r: seq<real>)
    requires Sorted(s)
    ensures Sorted(r)
    ensures multiset(r) == multiset(s) + multiset{x}
  {
    if |s| == 0 then [x]
    else if x <= s[0] then [x] + s
    else
      var rest := Insert(x, s[1..]);
      assert s == [s[0]] + s[1..];
      LeastOfMultiset(s[0], rest, s[1..], x);
      SortedCons(s[0], rest);
      [s[0]] + rest
  }

  lemma LeastOfMultiset(h: real, r: seq<real>, t: seq<real>, x: real)
    requires Sorted([h] + t) && h <= x
    requires multiset(r) == multiset(t) + multiset{x}
    ensures forall y :: y in r ==> h <= y
  {
    forall y | y in r
      ensures h <= y
    {
      assert y in multiset(r);
      if y != x {
        assert y in multiset(t);
        assert y in t;
        var k :| 0 <= k < |t| && t[k] == y;
        assert ([h] + t)[k + 1] == y;
        assert ([h] + t)[0] <= ([h] + t)[k + 1];
      }
    }
  }

  lemma SortedCons(h: real, t: seq<real>)
    requires Sorted(t)
    requires forall y :: y in t ==> h <= y
    ensures Sorted([h] + t)
  {
    forall i, j | 0 <= i < j < |[h] + t|
      ensures ([h] + t)[i] <= ([h] + t)[j]
    {
      if i == 0 {
        assert ([h] + t)[j] == t[j - 1];
        assert t[j - 1] in t;
      } else {
        assert ([h] + t)[i] == t[i - 1];
      }
    }
  }

  /** The column's values in ascending order (pandas sorts before interpolating). */
  function SortAscending(s: seq<real>): (r: seq<real>)
    ensures Sorted(r)
    ensures multiset(r) == multiset(s)
  {
    if |s| == 0 then []
    else
      assert s == [s[0]] + s[1..];
      Insert(s[0], SortAscending(s[1..]))
  }

  /** A sorted arrangement of a multiset is unique. */
  lemma {:induction false} SortedUnique(a: seq<real>, b: seq<real>)
    requires Sorted(a) && Sorted(b)
    requires multiset(a) == multiset(b)
    ensures a == b
    decreases |a|
  {
    assert |a| == |multiset(a)| == |multiset(b)| == |b|;
    if |a| > 0 {
      assert a[0] in multiset(b) && b[0] in multiset(a);
      assert b[0] <= a[0] && a[0] <= b[0];
      assert a == [a[0]] + a[1..];
      assert b == [b[0]] + b[1..];
      assert multiset(a) == multiset{a[0]} + multiset(a[1..]);
      assert multiset(b) == multiset{a[0]} + multiset(b[1..]);
      forall z
        ensures multiset(a[1..])[z] == multiset(b[1..])[z]
      {
        assert multiset(a)[z] == multiset{a[0]}[z] + multiset(a[1..])[z];
        assert multiset(b)[z] == multiset{a[0]}[z] + multiset(b[1..])[z];
      }
      assert multiset(a[1..]) == multiset(b[1..]);
      SortedUnique(a[1..], b[1..]);
    }
  }

  /**
   * The value at fractional position `p / 4` of the sorted `s`: the element
   * at the integer part, moved towards its right neighbour by the fraction.
   */
  function Interpolate(s: seq<real>, p: nat): (q: real)
    requires Sorted(s) && p / 4 < |s|
    ensures s[0] <= q <= s[|s| - 1]
    ensures s[p / 4] <= q
    ensures p / 4 + 1 < |s| ==> q <= s[p / 4 + 1]
    ensures p % 4 == 0 ==> q == s[p / 4]
  {
    var i := p / 4;
    var f := (p % 4) as real / 4.0;
    if i + 1 < |s| then
      Lerp(s[i], s[i + 1], f);
      s[i] + f * (s[i + 1] - s[i])
    else
      s[i]
  }

  /**
   * The `k / 4` quantile of the sorted, non-empty `s` by linear
   * interpolation: `Quantile(s, 1)` is `quantile(0.25)` and
   * `Quantile(s, 3)` is `quantile(0.75)`.
   */
  function Quantile(s: seq<real>, k: nat): (q: real)
    requires Sorted(s) && |s| > 0
    requires k <= 4
    ensures s[0] <= q <= s[|s| - 1]
  {
    MulMonotone(k, 4, |s| - 1);
    Interpolate(s, k * (|s| - 1))
  }

  lemma MulMonotone(k1: nat, k2: nat, m: nat)
    requires k1 <= k2
    ensures k1 * m <= k2 * m
  {
    assert k2 * m == k1 * m + (k2 - k1) * m;
  }

  lemma MulNonneg(x: real, y: real)
    requires 0.0 <= x && 0.0 <= y
    ensures 0.0 <= x * y
  {
  }

  /** Linear interpolation stays between its end points. */
  lemma Lerp(a: real, b: real, f: real)
    requires a <= b && 0.0 <= f < 1.0
    ensures a <= a + f * (b - a) <= b
  {
    MulNonneg(f, b - a);
    MulNonneg(1.0 - f, b - a);
    assert (1.0 - f) * (b - a) == (b - a) - f * (b - a);
  }

  lemma LerpMonotone(a: real, b: real, f: real, g: real)
    requires a <= b && 0.0 <= f <= g
    ensures a + f * (b - a) <= a + g * (b - a)
  {
    MulNonneg(g - f, b - a);
    assert (g - f) * (b - a) == g * (b - a) - f * (b - a);
  }

  /** Moving the position right never decreases the interpolated value. */
  lemma InterpolateMonotone(s: seq<real>, p1: nat, p2: nat)
    requires Sorted(s) && p1 <= p2 && p2 / 4 < |s|
    ensures p1 / 4 < |s|
    ensures Interpolate(s, p1) <= Interpolate(s, p2)
  {
    var i1, i2 := p1 / 4, p2 / 4;
    if i1 < i2 {
      assert Interpolate(s, p1) <= s[i1 + 1];
      assert s[i1 + 1] <= s[i2];
    } else if i1 + 1 < |s| {
      var f1 := (p1 % 4) as real / 4.0;
      var f2 := (p2 % 4) as real / 4.0;
      assert Interpolate(s, p1) == s[i1] + f1 * (s[i1 + 1] - s[i1]);
      assert Interpolate(s, p2) == s[i1] + f2 * (s[i1 + 1] - s[i1]);
      LerpMonotone(s[i1], s[i1 + 1], f1, f2);
    }
  }

  /** A larger probability never gives a smaller quantile; in particular Q1 <= Q3. */
  lemma QuantileMonotone(s: seq<real>, k1: nat, k2: nat)
    requires Sorted(s) && |s| > 0
    requires k1 <= k2 <= 4
    ensures Quantile(s, k1) <= Quantile(s, k2)
  {
    var m := |s| - 1;
    MulMonotone(k1, k2, m);
    MulMonotone(k2, 4, m);
    InterpolateMonotone(s, k1 * m, k2 * m);
  }

  /** The first quartile, `quantile(0.25)`, of a non-empty column. */
  function LowerQuartile(values: seq<real>): (q: real)
    requires |values| > 0
    ensures exists v :: v in values && v <= q
    ensures exists v :: v in values && q <= v
  {
    var s := SortAscending(values);
    assert s[0] in multiset(values) && s[|s| - 1] in multiset(values);
    var q := Quantile(s, 1);
    assert s[0] in values && s[0] <= q;
    assert s[|s| - 1] in values && q <= s[|s| - 1];
    q
  }

  /** The third quartile, `quantile(0.75)`, of a non-empty column. */
  function UpperQuartile(values: seq<real>): (q: real)
    requires |values| > 0
    ensures exists v :: v in values && v <= q
    ensures exists v :: v in values && q <= v
  {
    var s := SortAscending(values);
    assert s[0] in multiset(values) && s[|s| - 1] in multiset(values);
    var q := Quantile(s, 3);
    assert s[0] in values && s[0] <= q;
    assert s[|s| - 1] in values && q <= s[|s| - 1];
    q
  }

  /** Both quartiles lie within the column's range, and Q1 <= Q3. */
  lemma QuartilesOrdered(values: seq<real>)
    requires |values| > 0
    ensures LowerQuartile(values) <= UpperQuartile(values)
    ensures exists v :: v in values && v <= LowerQuartile(values)
    ensures exists v :: v in values && UpperQuartile(values) <= v
  {
    var s := SortAscending(values);
    QuantileMonotone(s, 1, 3);
    assert s[0] in multiset(values);
    assert s[|s| - 1] in multiset(values);
    assert s[0] in values && s[0] <= LowerQuartile(values);
    assert s[|s| - 1] in values && UpperQuartile(values) <= s[|s| - 1];
  }
}
