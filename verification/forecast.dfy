/** The arithmetic of the month-end forecast (`prediksi_harian`): the days left in a
    30-day month, a conservative daily estimate from the routine spending's median,
    the projected final balance, its verdict band and the day-by-day trajectory. */
module Forecast {
  import opened Types
  import opened Stats
  import opened Routine

  /** Every month is taken to have 30 days. */
  const MonthDays: int := 30
  /** Below this final balance the month is tight. */
  const TightLimit: real := 100000.0
  /** From this final balance on the month is safe. */
  const SafeLimit: real := 300000.0

  function Abs(x: real): (r: real)
    ensures r >= 0.0 && (r == x || r == -x)
  {
    if x >= 0.0 then x else -x
  }

  /** How far the whole number `m` is from `x`. */
  function Dist(x: real, m: int): (d: real)
    ensures d >= 0.0
  {
    Abs(x - m as real)
  }

  function Thousands(k: int): int
  {
    k * 1000
  }

  /** Python's `round(x, -3)` as an integer: the nearest multiple of 1000, with a tie
      going to the multiple whose thousands count is even. */
  function RoundThousands(x: real): (r: int)
    ensures r % 1000 == 0
    ensures Dist(x, r) <= 500.0
    ensures forall k :: Dist(x, r) <= Dist(x, Thousands(k))
    ensures Dist(x, r) == 500.0 ==> (r / 1000) % 2 == 0
  {
    var y := x / 1000.0;
    var f := y.Floor;
    var frac := y - f as real;
    var n := if frac < 0.5 then f else if frac > 0.5 then f + 1 else if f % 2 == 0 then f else f + 1;
    Nearest(x, f, n);
    n * 1000
  }

  /** Any multiple of 1000 is at least as far from `x` as the one `RoundThousands`
      picks, since `x` lies between the multiples `1000 f` and `1000 (f + 1)`. */
  lemma Nearest(x: real, f: int, n: int)
    requires f as real <= x / 1000.0 < f as real + 1.0
    requires var frac := x / 1000.0 - f as real;
             n == if frac < 0.5 then f else if frac > 0.5 then f + 1 else if f % 2 == 0 then f else f + 1
    ensures (n * 1000) % 1000 == 0
    ensures Dist(x, n * 1000) <= 500.0
    ensures forall k :: Dist(x, n * 1000) <= Dist(x, Thousands(k))
    ensures Dist(x, n * 1000) == 500.0 ==> ((n * 1000) / 1000) % 2 == 0
  {
    assert (n * 1000) / 1000 == n;
    assert (f * 1000) as real <= x < (f * 1000) as real + 1000.0;
    forall k ensures Dist(x, n * 1000) <= Dist(x, Thousands(k)) {
      if k <= f {
        assert (k * 1000) as real <= (f * 1000) as real;
      } else {
        assert (k * 1000) as real >= ((f + 1) * 1000) as real;
      }
    }
  }

  /** The daily estimate: the median plus a 15% buffer, rounded to thousands. */
  function DailyEstimate(median: real): (e: int)
    ensures e % 1000 == 0
    ensures Dist(median * 1.15, e) <= 500.0
  {
    RoundThousands(median * 1.15)
  }

  /** Routine amounts lie between 5.000 and 100.000, so the estimate lies between
      6.000 and 115.000. */
  lemma EstimateRange(median: real)
    requires MinDaily <= median <= MaxDaily
    ensures 6000 <= DailyEstimate(median) <= 115000
  {
    var e := DailyEstimate(median);
    assert 5750.0 <= median * 1.15 <= 115000.0;
    assert e as real >= 5250.0 && e as real <= 115500.0;
  }

  /** Python's `int()` on a float: truncation toward zero. */
  function Truncate(x: real): (n: int)
    ensures Abs(x - n as real) < 1.0
    ensures Abs(n as real) <= Abs(x)
    ensures x >= 0.0 ==> n >= 0
    ensures x <= 0.0 ==> n <= 0
  {
    if x >= 0.0 then x.Floor else -((-x).Floor)
  }

  /** The recommendation printed with each verdict: a shortfall and a daily budget
      (thousands, truncated) when the money runs out, the top-up that would restore a
      100.000 buffer when it is tight, and the amount above 300.000 when it is safe. */
  datatype Verdict =
    | Deficit(shortfall: real, dailyBudget: int)
    | Tight(topUp: real)
    | Adequate
    | Safe(surplus: real)

  /** The four bands of the projected final balance. */
  function Classify(final: real, balance: real, remaining: nat): (v: Verdict)
    requires remaining > 0
    ensures v.Deficit? <==> final < 0.0
    ensures v.Tight? <==> 0.0 <= final < TightLimit
    ensures v.Adequate? <==> TightLimit <= final < SafeLimit
    ensures v.Safe? <==> SafeLimit <= final
    ensures v.Deficit? ==> v.shortfall > 0.0 && final + v.shortfall == 0.0
    ensures v.Deficit? ==> v.dailyBudget % 1000 == 0
                           && Abs(balance / remaining as real - v.dailyBudget as real) < 1000.0
                           && Abs(v.dailyBudget as real) <= Abs(balance / remaining as real)
    ensures v.Tight? ==> 0.0 < v.topUp <= TightLimit && final + v.topUp == TightLimit
    ensures v.Safe? ==> v.surplus >= 0.0 && final == SafeLimit + v.surplus
  {
    if final < 0.0 then
      var budget := Truncate(balance / remaining as real / 1000.0) * 1000;
      BudgetClose(balance / remaining as real);
      Deficit(Abs(final), budget)
    else if final < TightLimit then Tight(TightLimit - final)
    else if final < SafeLimit then Adequate
    else Safe(final - SafeLimit)
  }

  lemma BudgetClose(x: real)
    ensures (Truncate(x / 1000.0) * 1000) % 1000 == 0
    ensures Abs(x - (Truncate(x / 1000.0) * 1000) as real) < 1000.0
    ensures Abs((Truncate(x / 1000.0) * 1000) as real) <= Abs(x)
  {
    var t := Truncate(x / 1000.0);
    assert (t * 1000) as real == t as real * 1000.0;
    assert Abs(x / 1000.0 - t as real) * 1000.0 == Abs(x - t as real * 1000.0);
    assert Abs(t as real) * 1000.0 == Abs(t as real * 1000.0);
    assert Abs(x / 1000.0) * 1000.0 == Abs(x);
  }

  /** The daily budget is truncated, not rounded: 5.000 over two days is 2.500 a day,
      printed as 2.000. */
  lemma BudgetTruncates()
    ensures Classify(-1000.0, 5000.0, 2) == Deficit(1000.0, 2000)
  {
    assert 5000.0 / 2 as real / 1000.0 == 2.5;
    assert Truncate(2.5) == 2;
  }

  /** Worse bands first. */
  function Severity(v: Verdict): nat
  {
    match v
    case Deficit(_, _) => 0
    case Tight(_) => 1
    case Adequate => 2
    case Safe(_) => 3
  }

  /** A larger final balance never yields a worse verdict. */
  lemma ClassifyMonotone(f1: real, f2: real, balance: real, remaining: nat)
    requires remaining > 0 && f1 <= f2
    ensures Severity(Classify(f1, balance, remaining)) <= Severity(Classify(f2, balance, remaining))
  {
  }

  lemma MulStep(e: int, k: int)
    ensures e * (k + 1) == e * k + e
  {
  }

  /** The day-by-day simulation: start from today's balance and subtract the estimate
      once for each remaining day. */
  method Simulate(balance: real, today: int, estimate: int, remaining: nat)
    returns (balances: seq<real>, days: seq<int>)
    ensures |balances| == remaining + 1 && |days| == remaining + 1
    ensures balances[0] == balance
    ensures forall k :: 0 < k <= remaining ==> balances[k] == balances[k - 1] - estimate as real
    ensures forall k :: 0 <= k <= remaining ==> days[k] == today + k
    ensures forall k :: 0 <= k <= remaining ==> balances[k] == balance - (estimate * k) as real
    ensures balances[remaining] == balance - (estimate * remaining) as real
  {
    var saldo := balance;
    balances := [saldo];
    days := [today];
    var i := 1;
    while i <= remaining
      invariant 1 <= i <= remaining + 1
      invariant |balances| == i && |days| == i
      invariant balances[0] == balance
      invariant saldo == balances[i - 1]
      invariant forall k :: 0 < k < i ==> balances[k] == balances[k - 1] - estimate as real
      invariant forall k :: 0 <= k < i ==> days[k] == today + k
      invariant forall k :: 0 <= k < i ==> balances[k] == balance - (estimate * k) as real
    {
      MulStep(estimate, i - 1);
      saldo := saldo - estimate as real;
      balances := balances + [saldo];
      days := days + [today + i];
      i := i + 1;
    }
  }

  /** The forecast of one run. */
  datatype Projection = Projection(
    remaining: nat,
    estimate: int,
    spend: int,
    final: real,
    verdict: Verdict,
    balances: seq<real>,
    days: seq<int>)

  /** The two early exits of the forecast. */
  datatype ForecastError = MonthOver | NoRoutineSpending

  /** What a projection from `balance` on day `day` over the routine spending
      `routine` consists of. */
  predicate Describes(p: Projection, balance: real, day: int, routine: seq<Transaction>)
    requires |routine| > 0
  {
    && p.remaining == MonthDays - day && p.remaining > 0
    && p.estimate == DailyEstimate(Median(Amounts(routine)))
    && p.spend == p.estimate * p.remaining
    && p.final == balance - p.spend as real
    && p.verdict == Classify(p.final, balance, p.remaining)
    && |p.balances| == p.remaining + 1 && |p.days| == p.remaining + 1
    && p.balances[0] == balance && p.days[0] == day
    && (forall k :: 0 < k <= p.remaining ==> p.balances[k] == p.balances[k - 1] - p.estimate as real)
    && (forall k :: 0 <= k <= p.remaining ==> p.days[k] == day + k)
    && p.balances[p.remaining] == p.final
    && p.days[p.remaining] == MonthDays
  }

  /** The numeric core of the forecast for a balance, today's day of the month and the
      loaded transaction table. */
  method Predict(balance: real, day: int, data: seq<Transaction>)
    returns (r: Result<Projection, ForecastError>)
    requires 1 <= day <= 31
    ensures MonthDays - day <= 0 ==> r == Failure(MonthOver)
    ensures MonthDays - day > 0 && RoutineFilter(data) == [] ==> r == Failure(NoRoutineSpending)
    ensures MonthDays - day > 0 && RoutineFilter(data) != [] ==>
              r.Success? && Describes(r.value, balance, day, RoutineFilter(data))
    ensures r.Success? ==> r.value.estimate % 1000 == 0 && 6000 <= r.value.estimate <= 115000
  {
    var remaining := MonthDays - day;
    if remaining <= 0 {
      return Failure(MonthOver);
    }
    var routine := RoutineFilter(data);
    if |routine| == 0 {
      return Failure(NoRoutineSpending);
    }
    var p := Project(balance, day, routine);
    r := Success(p);
  }

  /** The forecast once the month is known not to be over and routine spending exists. */
  method Project(balance: real, day: int, routine: seq<Transaction>) returns (p: Projection)
    requires 1 <= day < MonthDays && |routine| > 0
    requires forall i :: 0 <= i < |routine| ==> MinDaily <= routine[i].amount <= MaxDaily
    ensures Describes(p, balance, day, routine)
    ensures p.estimate % 1000 == 0 && 6000 <= p.estimate <= 115000
  {
    var remaining := MonthDays - day;
    var median := Median(Amounts(routine));
    MedianInRange(routine);
    var estimate := DailyEstimate(median);
    EstimateRange(median);
    var spend := estimate * remaining;
    var final := balance - spend as real;
    var verdict := Classify(final, balance, remaining);
    var balances, days := Simulate(balance, day, estimate, remaining);
    p := Projection(remaining, estimate, spend, final, verdict, balances, days);
  }

  /** The median of routine spending lies within the routine limits. */
  lemma MedianInRange(routine: seq<Transaction>)
    requires |routine| > 0
    requires forall i :: 0 <= i < |routine| ==> MinDaily <= routine[i].amount <= MaxDaily
    ensures MinDaily <= Median(Amounts(routine)) <= MaxDaily
  {
    var xs := Amounts(routine);
    var s := Sort(xs);
    assert s[0] in multiset(xs) && s[|s| - 1] in multiset(xs);
  }

  /** The worked example: a median of 11.000 gives 12.650, rounded to a daily estimate
      of 13.000; with 100.000 left on day 25 the final balance is 35.000, a tight month. */
  lemma WorkedExample()
    ensures DailyEstimate(11000.0) == 13000
    ensures 100000.0 - (13000 * (MonthDays - 25)) as real == 35000.0
    ensures Classify(35000.0, 100000.0, 5) == Tight(65000.0)
  {
    var e := DailyEstimate(11000.0);
    assert Dist(12650.0, 13000) == 350.0;
    assert Dist(12650.0, e) <= Dist(12650.0, Thousands(13));
  }
}
