/**
 * The offered-rate ladder of a saturation sweep, the body cost each ceiling runs at, and the knee
 * declared over the measured points.
 */
module Ladder {
  import opened Words
  import opened Recorders

  const MAX_OFFERED_RATE: U64 := 2_000_000
  const SWEEP_MULTIPLIERS: seq<U64> := [1, 4, 16, 64]
  const SLO_P99_NANOS: U64 := 50_000_000
  const BUDGET_EXTRA_BODIES: U64 := 1

  /** A permit pool expressed in permit-microseconds a second. */
  function Supply(bound: U64): U64 { SaturatingMul(bound, 1_000_000) }

  /** The service cost every body runs at one bound, in microseconds; an override pins it. */
  function BodyForBound(bound: U64, capacityTarget: U64, overrideMicros: U64): U64
  {
    if overrideMicros > 0 then overrideMicros
    else
      DivCeilLeast(Supply(bound), Max(capacityTarget, 1), Supply(bound));
      ProductAtLeast(Supply(bound), Max(capacityTarget, 1));
      Max(DivCeil(Supply(bound), Max(capacityTarget, 1)), 1)
  }

  lemma ProductAtLeast(a: nat, b: nat)
    requires b >= 1
    ensures a <= a * b
  {
    assert a * b == a + a * (b - 1);
    assert 0 <= a * (b - 1);
  }

  /** What one ceiling can sustain at one body cost, in arrivals a second. */
  function CapacityPerSecond(bound: U64, bodyMicros: U64): U64
  {
    QuotientAtMost(Supply(bound), Max(bodyMicros, 1));
    Supply(bound) / Max(bodyMicros, 1)
  }

  lemma QuotientAtMost(a: nat, b: nat)
    requires b >= 1
    ensures 0 <= a / b <= a
  {
    ProductAtLeast(a + 1, b);
    QuotientBelow(a, b, a + 1);
  }

  function Clamp(x: int, lo: int, hi: int): int
    requires lo <= hi
  {
    if x < lo then lo else if x > hi then hi else x
  }

  /** A multiple of a quarter of the capacity, before the generator's own limits. */
  function Declared(capacity: U64, rung: U64): U64 { SaturatingMul(capacity, rung) / 4 }

  function SweepRate(capacity: U64, rung: U64): U64 { Clamp(Declared(capacity, rung), 1, MAX_OFFERED_RATE) }

  function Rates(capacity: U64): seq<U64>
  {
    [SweepRate(capacity, 1), SweepRate(capacity, 4), SweepRate(capacity, 16), SweepRate(capacity, 64)]
  }

  /** Drop every entry equal to the one before it. */
  function Dedup(rates: seq<U64>): seq<U64>
  {
    if |rates| < 2 then rates
    else
      var init, last := rates[..|rates| - 1], rates[|rates| - 1];
      if last == init[|init| - 1] then Dedup(init) else Dedup(init) + [last]
  }

  function SweepLadder(bound: U64, bodyMicros: U64): seq<U64> { Dedup(Rates(CapacityPerSecond(bound, bodyMicros))) }

  predicate LadderClamped(bound: U64, bodyMicros: U64)
  {
    Declared(CapacityPerSecond(bound, bodyMicros), SWEEP_MULTIPLIERS[|SWEEP_MULTIPLIERS| - 1]) > MAX_OFFERED_RATE
  }

  // ---------------------------------------------------------------- the ladder

  ghost predicate Ascending(rates: seq<U64>)
  {
    forall i, j :: 0 <= i < j < |rates| ==> rates[i] <= rates[j]
  }

  ghost predicate StrictlyAscending(rates: seq<U64>)
  {
    forall i, j :: 0 <= i < j < |rates| ==> rates[i] < rates[j]
  }

  lemma {:induction false} DedupLosesNoRate(rates: seq<U64>)
    requires |rates| > 0
    ensures |Dedup(rates)| > 0
    ensures forall r :: r in Dedup(rates) <==> r in rates
    ensures Dedup(rates)[0] == rates[0] && Dedup(rates)[|Dedup(rates)| - 1] == rates[|rates| - 1]
  {
    if |rates| >= 2 {
      var init, last := rates[..|rates| - 1], rates[|rates| - 1];
      DedupLosesNoRate(init);
      assert rates == init + [last];
    }
  }

  /** On rates in order, removing adjacent duplicates removes all of them. */
  lemma {:induction false} DedupSorts(rates: seq<U64>)
    requires Ascending(rates) && |rates| > 0
    ensures StrictlyAscending(Dedup(rates))
  {
    if |rates| >= 2 {
      var init, last := rates[..|rates| - 1], rates[|rates| - 1];
      DedupSorts(init);
      DedupLosesNoRate(init);
    }
  }

  lemma RateMonotone(capacity: U64, m: U64, n: U64)
    requires m <= n
    ensures 1 <= SweepRate(capacity, m) <= SweepRate(capacity, n) <= MAX_OFFERED_RATE
  {
    assert capacity * m <= capacity * n;
  }

  lemma RatesAscend(capacity: U64)
    ensures Ascending(Rates(capacity))
    ensures forall i :: 0 <= i < 4 ==> 1 <= Rates(capacity)[i] <= MAX_OFFERED_RATE
  {
    RateMonotone(capacity, 1, 4);
    RateMonotone(capacity, 4, 16);
    RateMonotone(capacity, 16, 64);
    hide SweepRate;
  }

  /**
   * The ladder, at every bound and body cost: strictly increasing, inside the generator's range,
   * and exactly the rates of the rungs. A clamped ladder tops out at the generator's ceiling; an
   * unclamped one brackets the capacity precisely when that capacity is at least two a second, and
   * then the capacity itself is a rung.
   */
  lemma LadderShape(bound: U64, bodyMicros: U64)
    ensures var ladder := SweepLadder(bound, bodyMicros);
      var capacity := CapacityPerSecond(bound, bodyMicros);
      && |ladder| > 0 && StrictlyAscending(ladder)
      && (forall r :: r in ladder ==> 1 <= r <= MAX_OFFERED_RATE)
      && (forall r :: r in ladder <==> r in Rates(capacity))
      && (LadderClamped(bound, bodyMicros) ==> ladder[|ladder| - 1] == MAX_OFFERED_RATE)
      && (!LadderClamped(bound, bodyMicros) ==>
            && (ladder[0] < capacity <= ladder[|ladder| - 1] <==> capacity >= 2)
            && (capacity >= 1 ==> capacity in ladder))
  {
    hide CapacityPerSecond, Dedup;
    var capacity := CapacityPerSecond(bound, bodyMicros);
    RatesAscend(capacity);
    DedupSorts(Rates(capacity));
    DedupLosesNoRate(Rates(capacity));
    UnclampedIsExact(capacity);
    assert Rates(capacity)[1] in Rates(capacity);
  }

  lemma UnclampedIsExact(capacity: U64)
    ensures Declared(capacity, 64) <= MAX_OFFERED_RATE ==>
      && capacity * 16 <= MAX_OFFERED_RATE
      && Declared(capacity, 1) == capacity / 4 && Declared(capacity, 4) == capacity
      && Declared(capacity, 64) == capacity * 16
  {
  }

  /** A derived body costs at least a microsecond and never lets its ceiling sustain more than the target. */
  lemma DerivedBodyMeetsTarget(bound: U64, capacityTarget: U64)
    ensures var body := BodyForBound(bound, capacityTarget, 0);
      && body >= 1
      && CapacityPerSecond(bound, body) <= Max(capacityTarget, 1)
      && Supply(bound) <= body * Max(capacityTarget, 1)
      && (body > 1 ==> (body - 1) * Max(capacityTarget, 1) < Supply(bound))
  {
    hide SaturatingMul;
    var supply, target := Supply(bound), Max(capacityTarget, 1);
    var body := BodyForBound(bound, capacityTarget, 0);
    DivCeilLeast(supply, target, body);
    if body > 1 {
      DivCeilLeast(supply, target, body - 1);
    }
    QuotientBelow(supply, body, target + 1);
    assert (target + 1) * body == target * body + body;
  }

  // ---------------------------------------------------------------- the knee

  /** One side's run at one point: its body cost, its refusals, the latencies it recorded, and what it completed in how long. */
  datatype Reading = Reading(bodyMicros: U64, refused: nat, latencies: seq<U64>, completed: nat, nanos: nat)

  /** The p99 a run reports, by the recorder's own rule. */
  function P99(r: Reading): nat { Quantile(r.latencies, 99, 100) }

  /** Completions a second over the window and the drain. */
  function Throughput(r: Reading): real
  {
    if r.nanos == 0 then 0.0 else r.completed as real / (r.nanos as real / 1_000_000_000.0)
  }

  datatype Point = Point(bound: U64, rate: U64, reading: Reading)

  /** The larger of the floor and the declared multiple of one body's time. */
  function P99BudgetNanos(bodyMicros: U64): U64
  {
    Max(SLO_P99_NANOS, SaturatingMul(SaturatingMul(bodyMicros, 1_000), 1 + BUDGET_EXTRA_BODIES))
  }

  predicate WithinSlo(r: Reading) { r.refused == 0 && P99(r) <= P99BudgetNanos(r.bodyMicros) }

  /** A wider body never shrinks its budget, and no budget is under the floor. */
  lemma BudgetGrowsWithBody(small: U64, large: U64)
    requires small <= large
    ensures SLO_P99_NANOS <= P99BudgetNanos(small) <= P99BudgetNanos(large)
  {
  }

  datatype Knee = Knee(rate: U64, achieved: real, p99: nat, refusedAtTop: nat, capped: bool)

  predicate Qualifies(points: seq<Point>, bound: U64, i: nat)
    requires i < |points|
  {
    points[i].bound == bound && WithinSlo(points[i].reading)
  }

  /** The points of one bound were measured up the ladder. */
  ghost predicate MeasuredUpward(points: seq<Point>, bound: U64)
  {
    && (forall i :: 0 <= i < |points| && points[i].bound == bound ==> points[i].rate >= 1)
    && (forall i, j :: 0 <= i < j < |points| && points[i].bound == bound && points[j].bound == bound ==>
          points[i].rate < points[j].rate)
  }

  /** The points a sweep adds for one bound: its ladder in order, one reading a rung. */
  function SweptPoints(bound: U64, ladder: seq<U64>, readings: seq<Reading>): seq<Point>
    requires |ladder| == |readings|
  {
    seq(|ladder|, i requires 0 <= i < |ladder| => Point(bound, ladder[i], readings[i]))
  }

  /** Whatever the sweep measured at other bounds before and after, the points of a bound were measured upward. */
  lemma LadderMeasuresUpward(before: seq<Point>, after: seq<Point>, bound: U64, basis: U64, bodyMicros: U64, readings: seq<Reading>)
    requires |readings| == |SweepLadder(basis, bodyMicros)|
    requires forall i :: 0 <= i < |before| ==> before[i].bound != bound
    requires forall i :: 0 <= i < |after| ==> after[i].bound != bound
    ensures MeasuredUpward(before + SweptPoints(bound, SweepLadder(basis, bodyMicros), readings) + after, bound)
  {
    hide SweepLadder, LadderClamped, MeasuredUpward, Rates, CapacityPerSecond;
    LadderShape(basis, bodyMicros);
    var ladder := SweepLadder(basis, bodyMicros);
    forall i | 0 <= i < |ladder| ensures 1 <= ladder[i] {
      assert ladder[i] in ladder;
    }
    MiddleUpward(before, SweptPoints(bound, ladder, readings), after, bound);
  }

  lemma MiddleUpward(before: seq<Point>, swept: seq<Point>, after: seq<Point>, bound: U64)
    requires forall i :: 0 <= i < |before| ==> before[i].bound != bound
    requires forall i :: 0 <= i < |after| ==> after[i].bound != bound
    requires forall i :: 0 <= i < |swept| ==> 1 <= swept[i].rate
    requires forall i, j :: 0 <= i < j < |swept| ==> swept[i].rate < swept[j].rate
    ensures MeasuredUpward(before + swept + after, bound)
  {
    var points := before + swept + after;
    forall i | 0 <= i < |points| && points[i].bound == bound
      ensures |before| <= i < |before| + |swept| && points[i] == swept[i - |before|]
    {
      PointAt(before, swept, after, i);
    }
  }

  lemma PointAt(a: seq<Point>, b: seq<Point>, c: seq<Point>, i: nat)
    requires i < |a + b + c|
    ensures (a + b + c)[i] == if i < |a| then a[i] else if i < |a| + |b| then b[i - |a|] else c[i - |a| - |b|]
  {
  }

  /**
   * The knee of one bound and side. Over points measured up the ladder it is the highest rate that
   * refused nothing and stayed inside its own budget, with the throughput and the p99 of that very
   * run, and zero exactly when no rung did.
   */
  method DeclareKnee(points: seq<Point>, bound: U64, basis: U64, bodyMicros: U64) returns (knee: Knee)
    requires MeasuredUpward(points, bound)
    ensures knee.rate == 0 <==> forall i :: 0 <= i < |points| ==> !Qualifies(points, bound, i)
    ensures forall i :: 0 <= i < |points| && Qualifies(points, bound, i) ==> points[i].rate <= knee.rate
    ensures knee.rate != 0 ==> exists i :: 0 <= i < |points| && Qualifies(points, bound, i)
                                            && points[i].rate == knee.rate && P99(points[i].reading) == knee.p99
                                            && Throughput(points[i].reading) == knee.achieved
    ensures knee.rate == 0 ==> knee.achieved == 0.0 && knee.p99 == 0
    ensures var ladder := SweepLadder(basis, bodyMicros);
      && |ladder| > 0
      && (forall i :: 0 <= i < |points| && points[i].bound == bound && points[i].rate == ladder[|ladder| - 1] ==>
            points[i].reading.refused == knee.refusedAtTop)
      && (knee.capped <==> LadderClamped(basis, bodyMicros) && knee.rate == MAX_OFFERED_RATE)
  {
    hide SweepLadder, LadderClamped, WithinSlo, P99, Throughput;
    LadderShape(basis, bodyMicros);
    var ladder := SweepLadder(basis, bodyMicros);
    var top := ladder[|ladder| - 1];
    var rate: U64, achieved, p99: nat, refusedAtTop := 0, 0.0, 0, 0;
    ghost var at := 0;
    for n := 0 to |points|
      invariant forall i :: 0 <= i < n && Qualifies(points, bound, i) ==> 0 < points[i].rate <= rate
      invariant rate != 0 ==> 0 <= at < n && Qualifies(points, bound, at) && points[at].rate == rate
                              && P99(points[at].reading) == p99 && Throughput(points[at].reading) == achieved
      invariant rate == 0 ==> achieved == 0.0 && p99 == 0
      invariant forall i :: 0 <= i < n && points[i].bound == bound && points[i].rate == top ==>
                  points[i].reading.refused == refusedAtTop
    {
      if points[n].bound == bound {
        if WithinSlo(points[n].reading) {
          rate, at := points[n].rate, n;
          achieved, p99 := Throughput(points[n].reading), P99(points[n].reading);
        }
        if points[n].rate == top {
          refusedAtTop := points[n].reading.refused;
        }
      }
    }
    knee := Knee(rate, achieved, p99, refusedAtTop, LadderClamped(basis, bodyMicros) && rate == top);
  }
}
