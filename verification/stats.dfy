/** Order statistics as the data-frame library computes them: the linear-interpolation
    quantile of a sample (the default of `Series.quantile`) and the median. */
module Stats {

  predicate Sorted(s: seq<real>)
  {
    forall i, j :: 0 <= i <= j < |s| ==> s[i] <= s[j]
  }

  /** `x` placed into the sorted `s` before the first element larger than it. */
  function Insert(x: real, s: seq<real>): (r: seq<real>)
    requires Sorted(s)
    ensures Sorted(r)
    ensures multiset(r) == multiset(s) + multiset{x}
    ensures |r| == |s| + 1
  {
    if |s| == 0 then [x]
    else if x <= s[0] then [x] + s
    else
      var rest := Insert(x, s[1..]);
      InsertStep(x, s, rest);
      [s[0]] + rest
  }

  /** A lower bound of `x` and of every element of `s` bounds every element of a
      sequence holding `s` and `x`. */
  lemma BoundedByMultiset(r: seq<real>, s: seq<real>, x: real, m: real)
    requires multiset(r) == multiset(s) + multiset{x} && m <= x
    requires forall k :: 0 <= k < |s| ==> m <= s[k]
    ensures forall k :: 0 <= k < |r| ==> m <= r[k]
  {
    forall k | 0 <= k < |r| ensures m <= r[k] {
      assert r[k] in multiset(r);
      assert r[k] == x || r[k] in multiset(s);
    }
  }

  /** Putting the head of `s` back in front of `x` inserted into its tail keeps the
      order and yields `s` with `x` added. */
  lemma InsertStep(x: real, s: seq<real>, rest: seq<real>)
    requires Sorted(s) && |s| > 0 && s[0] < x
    requires Sorted(rest) && multiset(rest) == multiset(s[1..]) + multiset{x}
    ensures Sorted([s[0]] + rest)
    ensures multiset([s[0]] + rest) == multiset(s) + multiset{x}
  {
    assert s == [s[0]] + s[1..];
    BoundedByMultiset(rest, s[1..], x, s[0]);
    ConsSorted(s[0], rest);
  }

  lemma ConsSorted(m: real, r: seq<real>)
    requires Sorted(r)
    requires forall k :: 0 <= k < |r| ==> m <= r[k]
    ensures Sorted([m] + r)
  {
    forall i, j | 0 <= i <= j < |[m] + r| ensures ([m] + r)[i] <= ([m] + r)[j] {
      if i > 0 {
        assert ([m] + r)[i] == r[i - 1] && ([m] + r)[j] == r[j - 1];
      }
    }
  }

  /** The sample in ascending order. */
  function Sort(s: seq<real>): (r: seq<real>)
    ensures Sorted(r)
    ensures multiset(r) == multiset(s)
    ensures |r| == |s|
  {
    if |s| == 0 then []
    else
      assert s == [s[0]] + s[1..];
      Insert(s[0], Sort(s[1..]))
  }

  /** The linear-interpolation quantile of a sorted, non-empty sample at level `q`:
      the fractional rank `h = (n - 1) q` falls between two neighbouring order
      statistics, and the result interpolates linearly between them. */
  function Quantile(s: seq<real>, q: real): (r: real)
    requires |s| > 0 && Sorted(s)
    requires 0.0 <= q <= 1.0
    ensures s[0] <= r <= s[|s| - 1]
    ensures var j := Rank(|s|, q); s[j] <= r && (j + 1 < |s| ==> r <= s[j + 1])
  {
    var j := Rank(|s|, q);
    if j + 1 == |s| then s[j]
    else
      Interpolate(s[j], s[j + 1], Position(|s|, q) - j as real)
  }

  /** The fractional rank `(n - 1) q` of level `q` in a sample of size `n`. */
  function Position(n: nat, q: real): (h: real)
    requires n > 0 && 0.0 <= q <= 1.0
    ensures 0.0 <= h <= (n - 1) as real
  {
    MulNonneg((n - 1) as real, q);
    MulNonneg((n - 1) as real, 1.0 - q);
    (n - 1) as real * q
  }

  /** The index of the order statistic at or just below the fractional rank. */
  function Rank(n: nat, q: real): (j: nat)
    requires n > 0 && 0.0 <= q <= 1.0
    ensures j < n
    ensures j as real <= Position(n, q) < j as real + 1.0
  {
    Position(n, q).Floor
  }

  /** The point a fraction `t` of the way from `a` to `b`. */
  function Interpolate(a: real, b: real, t: real): (r: real)
    requires a <= b && 0.0 <= t < 1.0
    ensures a <= r <= b
    ensures t == 0.0 ==> r == a
  {
    Between(a, b, t);
    a + t * (b - a)
  }

  lemma Between(a: real, b: real, t: real)
    requires a <= b && 0.0 <= t <= 1.0
    ensures a <= a + t * (b - a) <= b
  {
    MulNonneg(t, b - a);
    MulNonneg(1.0 - t, b - a);
  }

  lemma MulNonneg(x: real, y: real)
    requires x >= 0.0 && y >= 0.0
    ensures x * y >= 0.0
  {
  }

  lemma MulPos(x: real, y: real)
    requires x > 0.0 && y > 0.0
    ensures x * y > 0.0
  {
  }

  /** Any level strictly between 0 and 1 puts the quantile of two distinct values
      strictly between them. */
  lemma PairQuantile(a: real, b: real, q: real)
    requires a < b && 0.0 < q < 1.0
    ensures a < Quantile([a, b], q) < b
  {
    assert Quantile([a, b], q) == Interpolate(a, b, q) by {
      assert Position(2, q) == q;
      assert Rank(2, q) == 0;
    }
    InterpolateStrict(a, b, q);
  }

  /** Strictly inside the unit interval, interpolation lands strictly between the
      two distinct ends. */
  lemma InterpolateStrict(a: real, b: real, t: real)
    requires a < b && 0.0 < t < 1.0
    ensures a < Interpolate(a, b, t) < b
  {
    var d := b - a;
    MulPos(t, d);
    MulPos(1.0 - t, d);
    assert (1.0 - t) * d == d - t * d;
    assert Interpolate(a, b, t) == a + t * d;
  }

  /** An order statistic whose index is at or above the fractional rank bounds the
      quantile from above, and one at or below it bounds it from below. */
  lemma QuantileBracket(s: seq<real>, q: real, k: nat)
    requires |s| > 0 && Sorted(s) && 0.0 <= q <= 1.0 && k < |s|
    ensures Position(|s|, q) <= k as real ==> Quantile(s, q) <= s[k]
    ensures k as real <= Position(|s|, q) ==> s[k] <= Quantile(s, q)
  {
    var h := Position(|s|, q);
    var j := Rank(|s|, q);
    if h <= k as real {
      if k == j {
        assert h == j as real;
      } else {
        assert j + 1 <= k;
      }
    }
  }

  /** Raising the level never lowers the quantile. */
  lemma QuantileMonotone(s: seq<real>, q1: real, q2: real)
    requires |s| > 0 && Sorted(s) && 0.0 <= q1 <= q2 <= 1.0
    ensures Quantile(s, q1) <= Quantile(s, q2)
  {
    var n := |s|;
    PositionMonotone(n, q1, q2);
    FloorMonotone(Position(n, q1), Position(n, q2));
    if Rank(n, q1) < Rank(n, q2) {
      QuantileBracket(s, q1, Rank(n, q1) + 1);
      QuantileBracket(s, q2, Rank(n, q2));
    } else {
      SameRankMonotone(s, q1, q2);
    }
  }

  lemma PositionMonotone(n: nat, q1: real, q2: real)
    requires n > 0 && 0.0 <= q1 <= q2 <= 1.0
    ensures Position(n, q1) <= Position(n, q2)
  {
    MulNonneg((n - 1) as real, q2 - q1);
  }

  lemma FloorMonotone(x: real, y: real)
    requires x <= y
    ensures x.Floor <= y.Floor
  {
  }

  lemma SameRankMonotone(s: seq<real>, q1: real, q2: real)
    requires |s| > 0 && Sorted(s) && 0.0 <= q1 <= q2 <= 1.0
    requires Position(|s|, q1) <= Position(|s|, q2)
    requires Rank(|s|, q1) == Rank(|s|, q2)
    ensures Quantile(s, q1) <= Quantile(s, q2)
  {
    var n, j := |s|, Rank(|s|, q1);
    if j + 1 < n {
      InterpolateMonotone(s[j], s[j + 1], Position(n, q1) - j as real, Position(n, q2) - j as real);
    }
  }

  lemma InterpolateMonotone(a: real, b: real, t1: real, t2: real)
    requires a <= b && 0.0 <= t1 <= t2 < 1.0
    ensures Interpolate(a, b, t1) <= Interpolate(a, b, t2)
  {
    MulNonneg(t2 - t1, b - a);
  }

  /** The median as the textbook defines it on a sorted sample: the middle element,
      or the mean of the two middle ones when the size is even. */
  function MiddleValue(s: seq<real>): (r: real)
    requires |s| > 0 && Sorted(s)
    ensures s[0] <= r <= s[|s| - 1]
  {
    var m := (|s| - 1) / 2;
    if |s| % 2 == 1 then s[m] else (s[m] + s[m + 1]) / 2.0
  }

  /** The 50% linear quantile is exactly the textbook median. */
  lemma MedianIsMiddle(s: seq<real>)
    requires |s| > 0 && Sorted(s)
    ensures Quantile(s, 0.5) == MiddleValue(s)
  {
    var n := |s|;
    var m := (n - 1) / 2;
    var h := Position(n, 0.5);
    if n % 2 == 1 {
      assert h == m as real;
    } else {
      assert h == m as real + 0.5;
    }
    assert Rank(n, 0.5) == m;
  }

  /** `Series.quantile(q)` on an unordered sample: sort, then interpolate. */
  function QuantileOf(xs: seq<real>, q: real): (r: real)
    requires |xs| > 0 && 0.0 <= q <= 1.0
    ensures exists i :: 0 <= i < |xs| && xs[i] <= r
    ensures exists i :: 0 <= i < |xs| && r <= xs[i]
  {
    var s := Sort(xs);
    assert s[0] in multiset(xs) && s[|s| - 1] in multiset(xs);
    Quantile(s, q)
  }

  /** `Series.median()`. */
  function Median(xs: seq<real>): (r: real)
    requires |xs| > 0
    ensures r == MiddleValue(Sort(xs))
  {
    MedianIsMiddle(Sort(xs));
    QuantileOf(xs, 0.5)
  }

  /** The 0% and 100% quantiles are the sample's minimum and maximum. */
  lemma QuantileExtremes(xs: seq<real>)
    requires |xs| > 0
    ensures QuantileOf(xs, 0.0) == Sort(xs)[0]
    ensures QuantileOf(xs, 1.0) == Sort(xs)[|xs| - 1]
  {
    var s := Sort(xs);
    QuantileBracket(s, 0.0, 0);
    QuantileBracket(s, 1.0, |s| - 1);
  }
}
