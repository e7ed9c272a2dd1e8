/** The routine-spending filter (`filter_pengeluaran_rutin`): an outlier band built
    from the quartiles and two fixed limits, then the central 20%-80% band of what
    survives. */
module Routine {
  import opened Types
  import opened Stats

  /** Smallest amount counted as daily spending (parking, a bottle of water). */
  const MinDaily: real := 5000.0
  /** Largest amount counted as daily spending. */
  const MaxDaily: real := 100000.0

  function Max(a: real, b: real): (r: real)
    ensures r >= a && r >= b && (r == a || r == b)
  {
    if a >= b then a else b
  }

  function Min(a: real, b: real): (r: real)
    ensures r <= a && r <= b && (r == a || r == b)
  {
    if a <= b then a else b
  }

  /** Inclusive lower and upper limits on an amount. */
  datatype Bounds = Bounds(lo: real, hi: real)

  predicate Within(b: Bounds, t: Transaction)
  {
    b.lo <= t.amount <= b.hi
  }

  /** The rows whose amount lies inside the limits, both ends inclusive, in order. */
  function Band(ts: seq<Transaction>, b: Bounds): (r: seq<Transaction>)
    ensures IsSubseq(r, ts)
    ensures forall t :: t in r <==> t in ts && b.lo <= t.amount <= b.hi
    ensures |r| == Count(ts, InBand(b))
    ensures forall i :: 0 <= i < |r| ==> b.lo <= r[i].amount <= b.hi
  {
    Filter(ts, InBand(b))
  }

  function InBand(b: Bounds): Transaction -> bool
  {
    t => Within(b, t)
  }

  /** A repeated row inside the limits is kept as often as it occurs. */
  lemma BandKeepsDuplicates(t: Transaction, u: Transaction, b: Bounds)
    requires Within(b, t) && !Within(b, u)
    ensures Band([t, t, u], b) == [t, t]
  {
    var r := [t, t];
    assert IsSubseq(r, [t, t, u]) by {
      assert [t, t, u][1..] == [t, u] && [t, u][1..] == [u];
      assert r[1..] == [t] && [t][1..] == [];
    }
    var p := InBand(b);
    assert p(t) && !p(u);
    assert Count([t, t, u], p) == 2 by {
      assert [t, t, u][1..] == [t, u] && [t, u][1..] == [u] && [u][1..] == [];
      assert Count([u], p) == 0;
      assert Count([t, u], p) == 1;
    }
    SelectionIsFilter(r, [t, t, u], p);
  }

  /** No row inside the limits: the band is empty. */
  lemma BandEmpty(ts: seq<Transaction>, b: Bounds)
    requires forall i :: 0 <= i < |ts| ==> !Within(b, ts[i])
    ensures Band(ts, b) == []
  {
    FilterNone(ts, InBand(b));
  }

  /** The first stage's limits: half the first quartile but at least the daily
      minimum, and the upper box-plot whisker (third quartile plus 1.5 times the
      interquartile range) but at most the daily cap. */
  function OutlierBounds(xs: seq<real>): (b: Bounds)
    requires |xs| > 0
    ensures b.lo >= MinDaily && b.lo >= QuantileOf(xs, 0.25) * 0.5
    ensures b.lo == MinDaily || b.lo == QuantileOf(xs, 0.25) * 0.5
    ensures var q3 := QuantileOf(xs, 0.75);
            var whisker := q3 + 1.5 * (q3 - QuantileOf(xs, 0.25));
            b.hi <= MaxDaily && b.hi <= whisker && (b.hi == MaxDaily || b.hi == whisker)
  {
    var q1 := QuantileOf(xs, 0.25);
    var q3 := QuantileOf(xs, 0.75);
    var iqr := q3 - q1;
    Bounds(Max(q1 * 0.5, MinDaily), Min(q3 + 1.5 * iqr, MaxDaily))
  }

  /** The second stage's limits: the 20% and 80% quantiles, which are ordered and
      never outside the sample's range. */
  function CentralBounds(xs: seq<real>): (b: Bounds)
    requires |xs| > 0
    ensures b.lo <= b.hi
    ensures exists i :: 0 <= i < |xs| && xs[i] <= b.lo
    ensures exists i :: 0 <= i < |xs| && b.hi <= xs[i]
  {
    QuantileMonotone(Sort(xs), 0.2, 0.8);
    Bounds(QuantileOf(xs, 0.2), QuantileOf(xs, 0.8))
  }

  /** Stage one: the rows inside the outlier limits computed from all amounts. */
  function Stage1(ts: seq<Transaction>): (r: seq<Transaction>)
    requires |ts| > 0
    ensures IsSubseq(r, ts)
    ensures var b := OutlierBounds(Amounts(ts));
            forall t :: t in r <==> t in ts && b.lo <= t.amount <= b.hi
    ensures |r| == Count(ts, InBand(OutlierBounds(Amounts(ts))))
    ensures forall i :: 0 <= i < |r| ==> MinDaily <= r[i].amount <= MaxDaily
  {
    Band(ts, OutlierBounds(Amounts(ts)))
  }

  /** Stage two: the stage-one rows inside the central band of their own amounts,
      each as often as it occurs. */
  function Stage2(s1: seq<Transaction>): (r: seq<Transaction>)
    requires |s1| > 0
    ensures IsSubseq(r, s1)
    ensures var c := CentralBounds(Amounts(s1));
            forall t :: t in r <==> t in s1 && c.lo <= t.amount <= c.hi
    ensures |r| == Count(s1, InBand(CentralBounds(Amounts(s1))))
  {
    Band(s1, CentralBounds(Amounts(s1)))
  }

  /** The routine spending of a transaction table. An empty table is returned as it
      is; when no row survives stage one its quantiles are undefined (not-a-number)
      and every comparison with them fails, so nothing is kept. */
  function RoutineFilter(ts: seq<Transaction>): (r: seq<Transaction>)
    ensures IsSubseq(r, ts)
    ensures forall i :: 0 <= i < |r| ==> MinDaily <= r[i].amount <= MaxDaily
    ensures |ts| == 0 ==> r == []
    ensures |ts| > 0 && |Stage1(ts)| == 0 ==> r == []
    ensures |ts| > 0 && |Stage1(ts)| > 0 ==>
              var s1 := Stage1(ts);
              var c := CentralBounds(Amounts(s1));
              && IsSubseq(r, s1)
              && (forall t :: t in r <==> t in s1 && c.lo <= t.amount <= c.hi)
              && |r| == Count(s1, InBand(c))
  {
    if |ts| == 0 then ts
    else
      var s1 := Stage1(ts);
      if |s1| == 0 then []
      else
        Inherits(Stage2(s1), s1, ts);
        Stage2(s1)
  }

  /** A selection from a selection is a selection of the original rows, and it keeps
      any bound on the amounts that the intermediate rows satisfy. */
  lemma Inherits(r: seq<Transaction>, s1: seq<Transaction>, ts: seq<Transaction>)
    requires IsSubseq(r, s1) && IsSubseq(s1, ts)
    requires forall i :: 0 <= i < |s1| ==> MinDaily <= s1[i].amount <= MaxDaily
    ensures IsSubseq(r, ts)
    ensures forall i :: 0 <= i < |r| ==> MinDaily <= r[i].amount <= MaxDaily
  {
    SubseqTransitive(r, s1, ts);
    SubseqMembers(r, s1);
    forall i | 0 <= i < |r| ensures MinDaily <= r[i].amount <= MaxDaily {
      assert r[i] in s1;
    }
  }

  /** Every survivor passed both stages: it is one of the input rows and lies inside
      the outlier limits and inside the central band of the stage-one amounts. */
  lemma SurvivorsPassBothStages(ts: seq<Transaction>)
    ensures RoutineFilter(ts) != [] ==>
              && |ts| > 0 && |Stage1(ts)| > 0
              && forall t :: t in RoutineFilter(ts) ==>
                   && t in ts
                   && Within(OutlierBounds(Amounts(ts)), t)
                   && Within(CentralBounds(Amounts(Stage1(ts))), t)
  {
  }

  /** A stage-one set of three or more rows always leaves something: the central band
      spans more than one rank, so it holds at least one order statistic. */
  lemma ThreeOrMoreKeepSome(ts: seq<Transaction>)
    ensures |ts| > 0 && |Stage1(ts)| >= 3 ==> |RoutineFilter(ts)| > 0
  {
    if |ts| > 0 && |Stage1(ts)| >= 3 {
      var s1 := Stage1(ts);
      CentralWitness(s1);
      var i :| 0 <= i < |s1| && Within(CentralBounds(Amounts(s1)), s1[i]);
      assert s1[i] in RoutineFilter(ts);
    }
  }

  /** Some element of a sample of three or more lies in its central band. */
  lemma CentralWitness(ts: seq<Transaction>)
    requires |ts| >= 3
    ensures exists i :: 0 <= i < |ts| && Within(CentralBounds(Amounts(ts)), ts[i])
  {
    var xs := Amounts(ts);
    var s := Sort(xs);
    var k := CentralRank(|s|);
    QuantileBracket(s, 0.2, k);
    QuantileBracket(s, 0.8, k);
    assert s[k] in multiset(xs);
  }

  /** An integer rank between the 20% and the 80% fractional ranks, which are more
      than one apart once there are three elements. */
  function CentralRank(n: nat): (k: nat)
    requires n >= 3
    ensures k < n
    ensures Position(n, 0.2) <= k as real <= Position(n, 0.8)
  {
    var j := Rank(n, 0.2);
    if j as real == Position(n, 0.2) then j else j + 1
  }

  /** With exactly two distinct amounts after stage one, the central band lies strictly
      between them and the filter returns nothing. */
  lemma TwoDistinctEmptied(ts: seq<Transaction>)
    ensures |ts| > 0 && |Stage1(ts)| == 2 && Stage1(ts)[0].amount != Stage1(ts)[1].amount
            ==> RoutineFilter(ts) == []
  {
    if |ts| > 0 && |Stage1(ts)| == 2 && Stage1(ts)[0].amount != Stage1(ts)[1].amount {
      var s1 := Stage1(ts);
      var xs := Amounts(s1);
      TwoOutside(xs);
      BandEmpty(s1, CentralBounds(xs));
    }
  }

  /** Both elements of a two-element sample with distinct values fall outside its
      central band. */
  lemma TwoOutside(xs: seq<real>)
    requires |xs| == 2 && xs[0] != xs[1]
    ensures forall i :: 0 <= i < 2 ==> xs[i] < CentralBounds(xs).lo || CentralBounds(xs).hi < xs[i]
  {
    var s := Sort(xs);
    TwoSorted(xs);
    PairQuantile(s[0], s[1], 0.2);
    PairQuantile(s[0], s[1], 0.8);
    assert s == [s[0], s[1]];
  }

  /** Sorting two values puts the smaller first. */
  lemma TwoSorted(xs: seq<real>)
    requires |xs| == 2
    ensures Sort(xs) == if xs[0] <= xs[1] then xs else [xs[1], xs[0]]
  {
    var a, b := xs[0], xs[1];
    assert xs[1..] == [b];
    assert [b][1..] == [];
    assert Sort([b]) == Insert(b, Sort([])) == [b];
    assert Sort(xs) == Insert(a, [b]);
    assert [b][1..] == [];
  }

  /** Two transactions of 10.000 and 20.000 both pass stage one (its limits are 6.250
      and 25.000), and stage two then keeps neither. */
  lemma TwoTransactionsExample(a: Transaction, b: Transaction)
    requires a.amount == 10000.0 && b.amount == 20000.0
    ensures Stage1([a, b]) == [a, b]
    ensures RoutineFilter([a, b]) == []
  {
    TwoTransactionsStage1(a, b);
    TwoDistinctEmptied([a, b]);
  }

  lemma TwoTransactionsStage1(a: Transaction, b: Transaction)
    requires a.amount == 10000.0 && b.amount == 20000.0
    ensures Stage1([a, b]) == [a, b]
  {
    var ts := [a, b];
    var limits := Bounds(6250.0, 25000.0);
    assert OutlierBounds(Amounts(ts)) == limits by {
      assert Amounts(ts) == [10000.0, 20000.0];
      ExampleLimits();
    }
    assert Band(ts, limits) == ts by {
      assert Within(limits, a) && Within(limits, b);
      FilterAll(ts, InBand(limits));
    }
  }

  /** The outlier limits of the sample 10.000, 20.000: the quartiles are 12.500 and
      17.500, so the limits are 6.250 and 25.000. */
  lemma ExampleLimits()
    ensures OutlierBounds([10000.0, 20000.0]) == Bounds(6250.0, 25000.0)
  {
    var xs := [10000.0, 20000.0];
    assert Sort(xs) == xs by {
      TwoSorted(xs);
    }
    assert Quantile(xs, 0.25) == 12500.0 by {
      assert Position(2, 0.25) == 0.25 && Rank(2, 0.25) == 0;
    }
    assert Quantile(xs, 0.75) == 17500.0 by {
      assert Position(2, 0.75) == 0.75 && Rank(2, 0.75) == 0;
    }
  }
}
