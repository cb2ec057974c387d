/**
 * Two ceilings on one offer. On the queueing door, with the same rate, arrivals and seed, a wider
 * ceiling delays no arrival, reports no larger latency, and changes nothing at all where the narrow
 * ceiling never made anyone wait.
 */
module Ceilings {
  import opened Words
  import opened Counting
  import opened OrderStatistics
  import opened Buckets
  import opened Recording
  import opened Recorders
  import opened Simulation
  import opened Queueing

  /** The same offer under a ceiling of `bound`. */
  function Widened(spec: SimSpec, bound: nat): SimSpec { spec.(bound := bound) }

  /** By every instant, at least as many servers are free in `wide` as in `narrow`. */
  ghost predicate FreeSooner(wide: seq<U64>, narrow: seq<U64>)
  {
    forall t: U64 :: CountLe(narrow, t) <= CountLe(wide, t)
  }

  lemma EarliestSooner(wide: seq<U64>, narrow: seq<U64>)
    requires wide != [] && narrow != [] && FreeSooner(wide, narrow)
    ensures wide[Earliest(wide)] <= narrow[Earliest(narrow)]
  {
    var t := narrow[Earliest(narrow)];
    AllBusyIff(wide, t);
    AllBusyIff(narrow, t);
  }

  /** Serving the same body from both keeps the wide servers ahead. */
  lemma ServingKeepsAhead(wide: seq<U64>, narrow: seq<U64>, w: U64, e: U64)
    requires wide != [] && narrow != [] && FreeSooner(wide, narrow)
    requires w <= e && narrow[Earliest(narrow)] <= e
    ensures FreeSooner(wide[Earliest(wide) := w], narrow[Earliest(narrow) := e])
  {
    hide CountLe;
    EarliestSooner(wide, narrow);
    var wide', narrow' := wide[Earliest(wide) := w], narrow[Earliest(narrow) := e];
    forall t: U64
      ensures CountLe(narrow', t) <= CountLe(wide', t)
    {
      CountLeUpdate(wide, Earliest(wide), w, t);
      CountLeUpdate(narrow, Earliest(narrow), e, t);
      if t < narrow[Earliest(narrow)] {
        CountLeNone(narrow, t);
      }
    }
  }

  lemma ArriveService(spec: SimSpec, st: State, index: U64)
    requires Sized(spec, st) && !spec.refuseAtBound
    ensures var next := Arrive(spec, st, index);
            && next.drawn == st.drawn + 1 + (if spec.jitter then 1 else 0)
            && |next.events| == |st.events| + 1
            && var e := next.events[|st.events|];
               e.Ran? && e.service == spec.Service(st.drawn + if spec.jitter then 1 else 0)
  {
    hide Intended, Busy, SimSpec.Service;
  }

  /** The lemmas below compare `spec` with the same offer under a ceiling of `b`. */
  ghost predicate Compared(spec: SimSpec, b: nat)
  {
    spec.SpanFits() && !spec.refuseAtBound && spec.bound <= b
  }

  /** Two worlds that have drawn the same schedule and bodies, the wide one's servers ahead. */
  ghost predicate InStep(narrow: State, wide: State)
  {
    narrow.drawn == wide.drawn && narrow.now == wide.now && FreeSooner(wide.freeAt, narrow.freeAt)
  }

  /** The same arrival in the wide world: the same body, started and ended no later. */
  ghost predicate NoLater(fast: Event, slow: Event)
  {
    && slow.Ran? && fast.Ran?
    && slow.index == fast.index && slow.intended == fast.intended && slow.service == fast.service
    && fast.start <= slow.start && fast.end <= slow.end
  }

  lemma StartInStep(spec: SimSpec, b: nat)
    requires Compared(spec, b)
    ensures InStep(After(spec, 0), After(Widened(spec, b), 0))
  {
    var narrow, wide := After(spec, 0).freeAt, After(Widened(spec, b), 0).freeAt;
    forall t: U64
      ensures CountLe(narrow, t) <= CountLe(wide, t)
    {
      CountLeAll(narrow, t);
      CountLeAll(wide, t);
    }
  }

  lemma ServedInStep(spec: SimSpec, b: nat, n: nat)
    requires Compared(spec, b) && n < spec.arrivals
    requires InStep(After(spec, n), After(Widened(spec, b), n))
    ensures After(spec, n + 1).now == After(Widened(spec, b), n + 1).now
    ensures Arrival(spec, n).Ran? && Arrival(Widened(spec, b), n).Ran?
    ensures Arrival(spec, n).index == Arrival(Widened(spec, b), n).index
    ensures Arrival(spec, n).intended == Arrival(Widened(spec, b), n).intended
    ensures Arrival(spec, n).service == Arrival(Widened(spec, b), n).service
    ensures After(spec, n + 1).drawn == After(Widened(spec, b), n + 1).drawn
  {
    hide Arrive, FreeSooner, IntendedArrival;
    var wide := Widened(spec, b);
    ArriveService(spec, After(spec, n), n);
    ArriveService(wide, After(wide, n), n);
    ClockIsIntended(spec, n);
    ClockIsIntended(wide, n);
  }

  lemma StepInStep(spec: SimSpec, b: nat, n: nat)
    requires Compared(spec, b) && n < spec.arrivals
    requires InStep(After(spec, n), After(Widened(spec, b), n))
    ensures InStep(After(spec, n + 1), After(Widened(spec, b), n + 1))
    ensures NoLater(Arrival(Widened(spec, b), n), Arrival(spec, n))
  {
    hide After, FreeSooner, Busy;
    var wide := Widened(spec, b);
    ServedInStep(spec, b, n);
    ArrivalSteps(spec, n);
    ArrivalSteps(wide, n);
    EarliestSooner(After(wide, n).freeAt, After(spec, n).freeAt);
    ServingKeepsAhead(After(wide, n).freeAt, After(spec, n).freeAt, Arrival(wide, n).end, Arrival(spec, n).end);
  }

  lemma {:induction false} WorldsInStep(spec: SimSpec, b: nat, n: nat)
    requires Compared(spec, b) && n <= spec.arrivals
    ensures InStep(After(spec, n), After(Widened(spec, b), n))
  {
    hide After, InStep;
    if n == 0 {
      StartInStep(spec, b);
    } else {
      WorldsInStep(spec, b, n - 1);
      StepInStep(spec, b, n - 1);
    }
  }

  /** Widening the ceiling delays no arrival: every start and every end is no later. */
  lemma WideningDelaysNobody(spec: SimSpec, b: nat, n: nat)
    requires Compared(spec, b) && n < spec.arrivals
    ensures NoLater(Arrival(Widened(spec, b), n), Arrival(spec, n))
  {
    WorldsInStep(spec, b, n);
    StepInStep(spec, b, n);
  }

  /** The latencies of one run are pointwise no larger than another's, and neither is the worst lag. */
  ghost predicate NoLarger(fast: seq<Event>, slow: seq<Event>)
  {
    && |IntendedLatencies(fast)| == |IntendedLatencies(slow)|
    && (forall i :: 0 <= i < |IntendedLatencies(fast)| ==> IntendedLatencies(fast)[i] <= IntendedLatencies(slow)[i])
    && MaxLag(fast) <= MaxLag(slow)
  }

  lemma NoLargerStep(fast: seq<Event>, slow: seq<Event>, f: Event, s: Event)
    requires NoLarger(fast, slow) && NoLater(f, s)
    ensures NoLarger(fast + [f], slow + [s])
  {
    ReportOneMore(fast, f);
    ReportOneMore(slow, s);
    hide IntendedLatencies, MaxLag;
  }

  lemma StartNoLarger(spec: SimSpec, b: nat)
    requires Compared(spec, b)
    ensures NoLarger(After(Widened(spec, b), 0).events, After(spec, 0).events)
  {
  }

  /** So every intended-start latency, and the worst lag, is no larger. */
  lemma {:induction false} LatenciesNoLarger(spec: SimSpec, b: nat, n: nat)
    requires Compared(spec, b) && n <= spec.arrivals
    ensures NoLarger(After(Widened(spec, b), n).events, After(spec, n).events)
  {
    hide After, NoLarger, NoLater;
    if n == 0 {
      StartNoLarger(spec, b);
    } else {
      LatenciesNoLarger(spec, b, n - 1);
      WideningDelaysNobody(spec, b, n - 1);
      EventsGrow(spec, n - 1);
      EventsGrow(Widened(spec, b), n - 1);
      NoLargerStep(After(Widened(spec, b), n - 1).events, After(spec, n - 1).events,
                   Arrival(Widened(spec, b), n - 1), Arrival(spec, n - 1));
    }
  }

  /** The knee moves and the arithmetic does not: the report of a wider ceiling dominates. */
  lemma WideningImprovesTheReport(spec: SimSpec, b: nat)
    requires Compared(spec, b)
    ensures var narrow, wide := Trace(spec), Trace(Widened(spec, b));
            && wide.offered == narrow.offered && wide.admitted == narrow.admitted == narrow.offered
            && wide.completed == narrow.completed
            && wide.maxLag <= narrow.maxLag && wide.max <= narrow.max
            && wide.p50Intended <= narrow.p50Intended && wide.p99Intended <= narrow.p99Intended
    ensures forall num: int, den: nat :: 0 < den ==>
              Quantile(IntendedLatencies(After(Widened(spec, b), spec.arrivals).events), num, den)
              <= Quantile(IntendedLatencies(After(spec, spec.arrivals).events), num, den)
  {
    hide After, Quantile;
    LatenciesNoLarger(spec, b, spec.arrivals);
    OfferedIsAdmittedPlusRefused(spec, spec.arrivals);
    OfferedIsAdmittedPlusRefused(Widened(spec, b), spec.arrivals);
    var narrow := IntendedLatencies(After(spec, spec.arrivals).events);
    var wide := IntendedLatencies(After(Widened(spec, b), spec.arrivals).events);
    LargestMonotone(wide, narrow);
    forall num: int, den: nat | 0 < den
      ensures Quantile(wide, num, den) <= Quantile(narrow, num, den)
    {
      QuantileMonotone(wide, narrow, num, num, den);
    }
  }

  lemma LargestMonotone(a: seq<U64>, b: seq<U64>)
    requires |a| == |b| && forall i :: 0 <= i < |a| ==> a[i] <= b[i]
    ensures Summarise(a).max <= Summarise(b).max
  {
    hide Summarise;
    SummaryExtremes(a);
    SummaryExtremes(b);
    if a != [] {
      var i, j :| 0 <= i < |a| && 0 <= j < |a| && Clamp(a[i]) == Summarise(a).min && Clamp(a[j]) == Summarise(a).max;
      assert Clamp(a[j]) <= Clamp(b[j]);
    }
  }

  // Where the ceiling does not bind

  lemma {:induction false} MaxLagCovers(events: seq<Event>, i: nat)
    requires i < |events| && events[i].Ran?
    ensures SaturatingSub(events[i].start, events[i].intended) <= MaxLag(events)
  {
    if i < |events| - 1 {
      MaxLagCovers(events[..|events| - 1], i);
    }
  }

  lemma EndIsStartPlusService(spec: SimSpec, n: nat)
    requires spec.SpanFits() && n < spec.arrivals && Arrival(spec, n).Ran?
    ensures var e := Arrival(spec, n); e.end == SaturatingAdd(e.start, e.service)
  {
    hide After, Busy;
    ArrivalSteps(spec, n);
  }

  /** An arrival the narrow ceiling starts on time is the same event under the wide one. */
  lemma OnTimeIsUnchanged(spec: SimSpec, b: nat, n: nat)
    requires Compared(spec, b) && n < spec.arrivals
    requires MaxLag(After(spec, spec.arrivals).events) == 0
    ensures Arrival(Widened(spec, b), n) == Arrival(spec, n)
    ensures After(Widened(spec, b), n + 1).now == After(spec, n + 1).now
  {
    hide After;
    var wide := Widened(spec, b);
    WideningDelaysNobody(spec, b, n);
    WorldsInStep(spec, b, n + 1);
    DelayedIffCeilingReached(spec, n);
    DelayedIffCeilingReached(wide, n);
    EventsPersist(spec, n + 1, spec.arrivals);
    MaxLagCovers(After(spec, spec.arrivals).events, n);
    EndIsStartPlusService(spec, n);
    EndIsStartPlusService(wide, n);
  }

  /** Two worlds with the same events and the same peaks so far. */
  ghost predicate SameRun(st: State, other: State)
  {
    st.events == other.events && st.peakInFlight == other.peakInFlight && st.peakQueue == other.peakQueue
  }

  lemma SamePeaks(spec: SimSpec, b: nat, n: nat)
    requires Compared(spec, b) && n < spec.arrivals
    requires SameRun(After(spec, n), After(Widened(spec, b), n))
    requires Arrival(Widened(spec, b), n) == Arrival(spec, n)
    requires After(Widened(spec, b), n + 1).now == After(spec, n + 1).now
    ensures SameRun(After(spec, n + 1), After(Widened(spec, b), n + 1))
  {
    hide After, Running, SimSpec.Period, Arrival;
    EventsGrow(spec, n);
    EventsGrow(Widened(spec, b), n);
    PeakIsOccupancy(spec, n + 1);
    PeakIsOccupancy(Widened(spec, b), n + 1);
    assert Widened(spec, b).Period() == spec.Period() by {
      PeriodIgnoresBound(spec, b);
    }
  }

  lemma PeriodIgnoresBound(spec: SimSpec, b: nat)
    ensures Widened(spec, b).Period() == spec.Period()
  {
  }

  lemma {:induction false} RunsUnchanged(spec: SimSpec, b: nat, n: nat)
    requires Compared(spec, b) && n <= spec.arrivals
    requires MaxLag(After(spec, spec.arrivals).events) == 0
    ensures SameRun(After(spec, n), After(Widened(spec, b), n))
  {
    hide After, SameRun, MaxLag, Arrival;
    if n == 0 {
      StartSame(spec, b);
    } else {
      RunsUnchanged(spec, b, n - 1);
      OnTimeIsUnchanged(spec, b, n - 1);
      SamePeaks(spec, b, n - 1);
    }
  }

  lemma StartSame(spec: SimSpec, b: nat)
    requires Compared(spec, b)
    ensures SameRun(After(spec, 0), After(Widened(spec, b), 0))
  {
  }

  /** A ceiling that never made anyone wait is invisible: the whole report, hash included, is the same. */
  lemma UnboundCeilingIsInvisible(spec: SimSpec, b: nat)
    requires Compared(spec, b) && Trace(spec).maxLag == 0
    ensures Trace(Widened(spec, b)) == Trace(spec)
  {
    hide After, Quantile;
    RunsUnchanged(spec, b, spec.arrivals);
  }

  // The closed-loop reading

  /**
   * A body's actual-start latency is the same under both ceilings exactly when its narrow end did not
   * saturate, or it started at the same instant under both.
   */
  lemma ActualLatencySameIff(spec: SimSpec, b: nat, n: nat)
    requires Compared(spec, b) && n < spec.arrivals
    ensures var slow, fast := Arrival(spec, n), Arrival(Widened(spec, b), n);
            && slow.Ran? && fast.Ran?
            && (fast.end - fast.start == slow.end - slow.start
                <==> slow.start + slow.service <= U64_MAX || fast.start == slow.start)
  {
    hide After;
    WideningDelaysNobody(spec, b, n);
    EndIsStartPlusService(spec, n);
    EndIsStartPlusService(Widened(spec, b), n);
  }

  /**
   * Two bodies too long for the clock: one after the other the second reads as instant, side by side
   * not, so the reported median actual-start latency differs between the two bounds.
   */
  lemma SaturationHidesABody(seed: U64)
    ensures var spec := SimSpec(0, 2, 1, U64_MAX, U64_MAX, false, false, seed);
            var slow, fast := Arrival(spec, 1), Arrival(Widened(spec, 2), 1);
            && slow.Ran? && fast.Ran? && slow.end - slow.start == 0 && fast.end - fast.start == U64_MAX
            && Quantile(ActualLatencies(After(spec, 2).events), 50, 100)
               < Quantile(ActualLatencies(After(Widened(spec, 2), 2).events), 50, 100)
  {
    hide After, Arrival, Quantile, ActualLatencies, SlotOf, SlotValue;
    var spec := SimSpec(0, 2, 1, U64_MAX, U64_MAX, false, false, seed);
    OneAfterAnother(spec);
    SideBySide(Widened(spec, 2));
    MedianOfTwo(0);
    MedianOfTwo(U64_MAX);
    InstantReportsLess();
  }

  /** On one server the second of two such bodies starts, and ends, where the clock saturates. */
  lemma OneAfterAnother(spec: SimSpec)
    requires LongBodies(spec) && spec.bound == 1
    ensures ActualLatencies(After(spec, 2).events) == [U64_MAX, 0]
    ensures Arrival(spec, 1).Ran? && Arrival(spec, 1).end - Arrival(spec, 1).start == 0
  {
    hide After, Arrival, ActualLatencies;
    FreeAtFirst(spec);
    LongBody(spec, 0);
    LongBody(spec, 1);
    assert Earliest([0]) == 0 && Earliest([U64_MAX]) == 0;
    TwoLatencies(spec);
  }

  /** On two servers both start at once. */
  lemma SideBySide(spec: SimSpec)
    requires LongBodies(spec) && spec.bound == 2
    ensures ActualLatencies(After(spec, 2).events) == [U64_MAX, U64_MAX]
    ensures Arrival(spec, 1).Ran? && Arrival(spec, 1).end - Arrival(spec, 1).start == U64_MAX
  {
    hide After, Arrival, ActualLatencies;
    FreeAtFirst(spec);
    LongBody(spec, 0);
    LongBody(spec, 1);
    assert [0, 0][..1] == [0] && [U64_MAX, 0][..1] == [U64_MAX];
    assert Earliest([0, 0]) == 0 && Earliest([U64_MAX, 0]) == 1;
    TwoLatencies(spec);
  }

  lemma FreeAtFirst(spec: SimSpec)
    requires LongBodies(spec)
    ensures spec.bound == 1 ==> After(spec, 0).freeAt == [0]
    ensures spec.bound == 2 ==> After(spec, 0).freeAt == [0, 0]
  {
  }

  /** The first bucket reports less than the last. */
  lemma InstantReportsLess()
    ensures SlotValue(SlotOf(0)) < SlotValue(SlotOf(U64_MAX))
  {
    hide SlotRange, SlotValue;
    SlotAtCeiling(U64_MAX);
    assert SlotOf(0) == 0;
    MidpointInRange(0);
    MidpointInRange(SLOTS - 1);
    RangesOrdered(0, SLOTS - 1);
  }

  lemma TwoLatencies(spec: SimSpec)
    requires spec.SpanFits() && spec.arrivals == 2 && Arrival(spec, 0).Ran? && Arrival(spec, 1).Ran?
    requires var e := Arrival(spec, 0); e.start == 0 && e.end == U64_MAX
    ensures var e := Arrival(spec, 1);
      ActualLatencies(After(spec, 2).events) == [U64_MAX, SaturatingSub(e.end, e.start)]
  {
    hide After, ActualLatencies, Arrival;
    EventsGrow(spec, 0);
    EventsGrow(spec, 1);
    NoEventsAtFirst(spec);
    ReportOneMore(After(spec, 0).events, Arrival(spec, 0));
    ReportOneMore(After(spec, 1).events, Arrival(spec, 1));
    NoLatencies();
  }

  lemma NoEventsAtFirst(spec: SimSpec)
    requires spec.SpanFits()
    ensures After(spec, 0).events == []
  {
  }

  lemma NoLatencies()
    ensures ActualLatencies([]) == []
  {
  }

  /** The median of the longest latency and another is the other. */
  lemma MedianOfTwo(other: U64)
    ensures Quantile([U64_MAX, other], 50, 100) == SlotValue(SlotOf(other))
  {
    hide SlotOf, SlotValue, Sort;
    var samples: seq<U64> := [U64_MAX, other];
    assert NearestRank(2, 50, 100) == 1;
    assert samples[..1] == [U64_MAX] && samples[..1][..0] == [];
    assert CountLe(samples[..1], other) == if other == U64_MAX then 1 else 0;
    assert CountLe(samples[..1], other - 1) == 0;
    OrderStatisticIffRank(samples, 1, other);
  }

  /** Two bodies offered at once, each as long as the clock. */
  predicate LongBodies(spec: SimSpec): (b: bool)
    ensures b ==> spec.SpanFits() && spec.arrivals == 2
  {
    && spec.arrivals == 2 && spec.offeredRate == 0 && !spec.jitter && !spec.refuseAtBound
    && spec.serviceMin == spec.serviceMax == U64_MAX
  }

  lemma LongBody(spec: SimSpec, n: nat)
    requires LongBodies(spec) && n < 2
    ensures var st, e := After(spec, n), Arrival(spec, n);
            && After(spec, n + 1).freeAt == st.freeAt[Earliest(st.freeAt) := U64_MAX]
            && e.Ran? && e.start == st.freeAt[Earliest(st.freeAt)] && e.end == U64_MAX
  {
    ClockIsIntended(spec, n);
    ArriveService(spec, After(spec, n), n);
    hide After, Busy;
    ArrivalSteps(spec, n);
  }

  /** No end of the run saturates the clock. */
  ghost predicate ClockFits(spec: SimSpec)
    requires spec.SpanFits()
  {
    forall k: nat :: k < spec.arrivals ==> Arrival(spec, k).Ran? ==>
      Arrival(spec, k).start + Arrival(spec, k).service <= U64_MAX
  }

  // When the clock fits, by the specification alone

  /** The longest body the specification can draw. */
  function Longest(spec: SimSpec): U64 { Max(spec.serviceMin, spec.serviceMax) }

  lemma ServiceAtMostLongest(spec: SimSpec, drawn: nat)
    requires spec.SpanFits()
    ensures spec.Service(drawn) <= Longest(spec)
  {
  }

  lemma IntendedWithin(index: U64, period: U64, jitter: U64)
    ensures IntendedArrival(index, period, jitter) <= (index + 1) * period
  {
    assert (index + 1) * period == index * period + period;
  }

  /** After `n` arrivals the clock and every server stand within `n` periods and `n` longest bodies. */
  ghost predicate Within(spec: SimSpec, st: State, n: nat)
  {
    && st.now <= n * (spec.Period() + Longest(spec))
    && forall i :: 0 <= i < |st.freeAt| ==> st.freeAt[i] <= n * (spec.Period() + Longest(spec))
  }

  lemma OneMoreStep(n: nat, period: nat, longest: nat)
    ensures (n + 1) * (period + longest) == n * (period + longest) + period + longest
    ensures (n + 1) * period + longest <= (n + 1) * (period + longest)
    ensures n * (period + longest) + longest <= (n + 1) * (period + longest)
  {
    assert (n + 1) * (period + longest) == (n + 1) * period + (n + 1) * longest;
    assert (n + 1) * longest == n * longest + longest;
    assert 0 <= n * longest;
  }

  lemma NowWithin(spec: SimSpec, n: nat)
    requires spec.SpanFits() && n < spec.arrivals
    ensures After(spec, n + 1).now <= (n + 1) * spec.Period()
  {
    hide After, SimSpec.Period, SimSpec.JitterDraw, IntendedArrival;
    ClockIsIntended(spec, n);
    IntendedWithin(n, spec.Period(), spec.JitterDraw(After(spec, n).drawn));
  }

  lemma ServedWithin(spec: SimSpec, n: nat)
    requires spec.SpanFits() && !spec.refuseAtBound && n < spec.arrivals
    ensures Arrival(spec, n).Ran? && Arrival(spec, n).service <= Longest(spec)
  {
    hide Arrive, Busy, SimSpec.Service, Longest;
    ArriveService(spec, After(spec, n), n);
    ServiceAtMostLongest(spec, After(spec, n).drawn + if spec.jitter then 1 else 0);
  }

  lemma StepWithin(spec: SimSpec, n: nat)
    requires spec.SpanFits() && !spec.refuseAtBound && n < spec.arrivals && Within(spec, After(spec, n), n)
    ensures Within(spec, After(spec, n + 1), n + 1)
    ensures var e := Arrival(spec, n);
      e.Ran? && e.start + e.service <= (n + 1) * (spec.Period() + Longest(spec))
  {
    hide After, Arrival, Busy, SimSpec.Period, Longest;
    NowWithin(spec, n);
    ServedWithin(spec, n);
    OneMoreStep(n, spec.Period(), Longest(spec));
    ArrivalSteps(spec, n);
  }

  lemma {:induction false} AlwaysWithin(spec: SimSpec, n: nat)
    requires spec.SpanFits() && !spec.refuseAtBound && n <= spec.arrivals
    ensures Within(spec, After(spec, n), n)
  {
    hide After, Within;
    if n == 0 {
      WithinAtFirst(spec);
    } else {
      AlwaysWithin(spec, n - 1);
      StepWithin(spec, n - 1);
    }
  }

  lemma WithinAtFirst(spec: SimSpec)
    requires spec.SpanFits()
    ensures Within(spec, After(spec, 0), 0)
  {
    hide SimSpec.Period, Longest;
  }

  /** A condition to check before running: enough clock for every period and every longest body. */
  predicate LongEnough(spec: SimSpec)
  {
    spec.arrivals * (spec.Period() + Longest(spec)) <= U64_MAX
  }

  lemma LongEnoughFits(spec: SimSpec)
    requires spec.SpanFits() && !spec.refuseAtBound && LongEnough(spec)
    ensures ClockFits(spec)
  {
    hide After, Arrival, Within, SimSpec.Period, Longest;
    forall k: nat | k < spec.arrivals && Arrival(spec, k).Ran?
      ensures Arrival(spec, k).start + Arrival(spec, k).service <= U64_MAX
    {
      AlwaysWithin(spec, k);
      StepWithin(spec, k);
      TimesMonotone(k + 1, spec.arrivals, spec.Period() + Longest(spec));
    }
  }

  lemma TimesMonotone(m: nat, n: nat, k: nat)
    requires m <= n
    ensures m * k <= n * k
  {
  }

  /** The body of arrival `k` reads the same under both ceilings. */
  ghost predicate SameBody(spec: SimSpec, b: nat, k: nat)
    requires Compared(spec, b) && k < spec.arrivals
  {
    var slow, fast := Arrival(spec, k), Arrival(Widened(spec, b), k);
    slow.Ran? && fast.Ran? && (slow.start + slow.service <= U64_MAX || fast.start == slow.start)
  }

  lemma ActualStepIff(fast: seq<Event>, slow: seq<Event>, f: Event, s: Event)
    requires f.Ran? && s.Ran? && f.start <= f.end && s.start <= s.end
    ensures ActualLatencies(fast + [f]) == ActualLatencies(slow + [s]) <==>
            ActualLatencies(fast) == ActualLatencies(slow) && f.end - f.start == s.end - s.start
  {
    hide ActualLatencies;
    ReportOneMore(fast, f);
    ReportOneMore(slow, s);
    var a, b := ActualLatencies(fast), ActualLatencies(slow);
    var x, y := SaturatingSub(f.end, f.start), SaturatingSub(s.end, s.start);
    if a + [x] == b + [y] {
      assert a == (a + [x])[..|a + [x]| - 1] == (b + [y])[..|b + [y]| - 1] == b;
    }
  }

  lemma SameBodyIff(spec: SimSpec, b: nat, n: nat)
    requires Compared(spec, b) && n < spec.arrivals
    ensures var slow, fast := Arrival(spec, n), Arrival(Widened(spec, b), n);
            && slow.Ran? && fast.Ran? && slow.start <= slow.end && fast.start <= fast.end
            && (fast.end - fast.start == slow.end - slow.start <==> SameBody(spec, b, n))
  {
    hide After, Arrival;
    ActualLatencySameIff(spec, b, n);
    EndIsStartPlusService(spec, n);
    EndIsStartPlusService(Widened(spec, b), n);
  }

  /** The actual-start latencies of the two runs are the same list if and only if every body reads the same. */
  lemma {:induction false} ActualLatenciesSameIff(spec: SimSpec, b: nat, n: nat)
    requires Compared(spec, b) && n <= spec.arrivals
    ensures ActualLatencies(After(Widened(spec, b), n).events) == ActualLatencies(After(spec, n).events)
            <==> forall k: nat :: k < n ==> SameBody(spec, b, k)
  {
    hide After, Arrival, ActualLatencies, SameBody;
    if n == 0 {
      NoEventsAtFirst(spec);
      NoEventsAtFirst(Widened(spec, b));
    } else {
      ActualLatenciesSameIff(spec, b, n - 1);
      EventsGrow(spec, n - 1);
      EventsGrow(Widened(spec, b), n - 1);
      SameBodyIff(spec, b, n - 1);
      ActualStepIff(After(Widened(spec, b), n - 1).events, After(spec, n - 1).events,
                    Arrival(Widened(spec, b), n - 1), Arrival(spec, n - 1));
    }
  }

  /** The figure that omits the queue cannot see the ceiling: every actual-start quantile is identical. */
  lemma ActualQuantilesIdentical(spec: SimSpec, b: nat, num: int, den: nat)
    requires Compared(spec, b) && ClockFits(spec) && 0 < den
    ensures Quantile(ActualLatencies(After(Widened(spec, b), spec.arrivals).events), num, den)
         == Quantile(ActualLatencies(After(spec, spec.arrivals).events), num, den)
    ensures Trace(Widened(spec, b)).p99Actual == Trace(spec).p99Actual
  {
    hide After, Arrival, Quantile;
    forall k: nat | k < spec.arrivals ensures SameBody(spec, b, k) {
      ActualLatencySameIff(spec, b, k);
    }
    ActualLatenciesSameIff(spec, b, spec.arrivals);
  }

  /** So for every specification that leaves the clock room, widening changes no actual-start quantile. */
  lemma WideningKeepsActualQuantiles(spec: SimSpec, b: nat, num: int, den: nat)
    requires Compared(spec, b) && LongEnough(spec) && 0 < den
    ensures Quantile(ActualLatencies(After(Widened(spec, b), spec.arrivals).events), num, den)
         == Quantile(ActualLatencies(After(spec, spec.arrivals).events), num, den)
    ensures Trace(Widened(spec, b)).p99Actual == Trace(spec).p99Actual
  {
    hide After, Quantile, ClockFits, LongEnough;
    LongEnoughFits(spec);
    ActualQuantilesIdentical(spec, b, num, den);
  }
}
