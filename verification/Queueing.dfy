/**
 * What the simulated world satisfies for every spec: the ceiling is a ceiling, an arrival waits or
 * is refused exactly when the ceiling is reached, the reported peaks are occupancies some instant
 * reached, and the latencies from the intended starts dominate those from the actual starts.
 */
module Queueing {
  import opened Words
  import opened Counting
  import opened Recording
  import opened Recorders
  import opened Simulation

  // Occupancy

  /** How many admitted bodies are running at instant `t`. */
  function Running(events: seq<Event>, t: U64): nat
  {
    if events == [] then 0
    else
      var e := events[|events| - 1];
      Running(events[..|events| - 1], t) + if e.Ran? && e.start <= t < e.end then 1 else 0
  }

  lemma RunningAppend(events: seq<Event>, e: Event, t: U64)
    ensures Running(events + [e], t) == Running(events, t) + if e.Ran? && e.start <= t < e.end then 1 else 0
  {
    assert (events + [e])[..|events|] == events;
  }

  /** The step relation the proofs work with: what one arrival did to the servers and the events. */
  ghost predicate Stepped(spec: SimSpec, st: State, next: State, e: Event)
  {
    && Sized(spec, st) && Sized(spec, next)
    && next.events == st.events + [e] && st.now <= next.now
    && match e {
         case Refused(_) =>
           spec.refuseAtBound && next.freeAt == st.freeAt && Busy(st.freeAt, next.now) == spec.Servers()
         case Ran(_, intended, service, start, end) =>
           var slot := Earliest(st.freeAt);
           && (spec.refuseAtBound ==> Busy(st.freeAt, next.now) < spec.Servers())
           && next.freeAt == st.freeAt[slot := end]
           && start == Max(st.freeAt[slot], next.now) && end == SaturatingAdd(start, service)
           && intended <= next.now
       }
  }

  lemma ArriveSteps(spec: SimSpec, st: State, index: U64)
    requires Sized(spec, st)
    ensures var next := Arrive(spec, st, index);
            |next.events| == |st.events| + 1 && Stepped(spec, st, next, next.events[|st.events|])
  {
    hide Intended, CountLe;
  }

  lemma BusyAfter(freeAt: seq<U64>, slot: nat, end: U64, t: U64)
    requires slot < |freeAt|
    ensures Busy(freeAt[slot := end], t)
         == Busy(freeAt, t) - (if t < freeAt[slot] then 1 else 0) + (if t < end then 1 else 0)
  {
    CountLeUpdate(freeAt, slot, end, t);
  }

  /** Occupancy never exceeds the busy servers, and equals them from the current instant on. */
  ghost predicate Occupied(st: State)
  {
    forall t: U64 :: Running(st.events, t) <= Busy(st.freeAt, t)
                  && (st.now <= t ==> Running(st.events, t) == Busy(st.freeAt, t))
  }

  lemma StepOccupied(spec: SimSpec, st: State, next: State, e: Event)
    requires Stepped(spec, st, next, e) && Occupied(st)
    ensures Occupied(next)
  {
    hide Running, Busy;
    forall t: U64
      ensures Running(next.events, t) <= Busy(next.freeAt, t)
      ensures next.now <= t ==> Running(next.events, t) == Busy(next.freeAt, t)
    {
      RunningAppend(st.events, e, t);
      if e.Ran? {
        BusyAfter(st.freeAt, Earliest(st.freeAt), e.end, t);
      }
    }
  }

  lemma IdleAtFirst(spec: SimSpec)
    requires spec.SpanFits()
    ensures Occupied(After(spec, 0))
  {
    hide Arrive;
    var st := After(spec, 0);
    forall t: U64
      ensures Running(st.events, t) == Busy(st.freeAt, t) == 0
    {
      CountLeAll(st.freeAt, t);
    }
  }

  lemma {:induction false} AlwaysOccupied(spec: SimSpec, n: nat)
    requires spec.SpanFits() && n <= spec.arrivals
    ensures Occupied(After(spec, n))
  {
    hide After, Arrive, Arrival, Occupied, Stepped;
    if n == 0 {
      IdleAtFirst(spec);
    } else {
      AlwaysOccupied(spec, n - 1);
      ArrivalSteps(spec, n - 1);
      StepOccupied(spec, After(spec, n - 1), After(spec, n), Arrival(spec, n - 1));
    }
  }

  /** The in-flight ceiling is a ceiling: at no instant do more than `bound` bodies run. */
  lemma CeilingHolds(spec: SimSpec, n: nat, t: U64)
    requires spec.SpanFits() && n <= spec.arrivals
    ensures Running(After(spec, n).events, t) <= spec.Servers()
  {
    hide After, Arrive, Running;
    AlwaysOccupied(spec, n);
  }

  // Each arrival

  /** Arrival `n` of the run, as the world recorded it. */
  function Arrival(spec: SimSpec, n: nat): (e: Event)
    requires spec.SpanFits() && n < spec.arrivals
  {
    After(spec, n + 1).events[n]
  }

  lemma ArriveClock(spec: SimSpec, st: State, index: U64)
    requires Sized(spec, st)
    ensures var next, intended := Arrive(spec, st, index), Intended(spec, index, st.drawn);
            && next.now == Max(st.now, intended)
            && |next.events| == |st.events| + 1
            && var e := next.events[|st.events|];
               e.index == index && (e.Ran? ==> e.intended == intended)
  {
    hide Intended, Busy, SimSpec.Service;
  }

  /** The clock is always the last arrival's own intended instant, even where the schedule saturates. */
  lemma ClockIsIntended(spec: SimSpec, n: nat)
    requires spec.SpanFits() && n < spec.arrivals
    ensures After(spec, n + 1).now == Intended(spec, n, After(spec, n).drawn)
    ensures Arrival(spec, n).index == n
    ensures Arrival(spec, n).Ran? ==> Arrival(spec, n).intended == After(spec, n + 1).now
  {
    hide IntendedArrival, SimSpec.JitterDraw, Arrive;
    ArriveClock(spec, After(spec, n), n);
    if n != 0 {
      ClockIsIntended(spec, n - 1);
      var before, here := After(spec, n - 1).drawn, After(spec, n).drawn;
      IntendedMonotone(n - 1, n, spec.Period(), spec.JitterDraw(before), spec.JitterDraw(here));
    }
  }

  lemma ArrivalSteps(spec: SimSpec, n: nat)
    requires spec.SpanFits() && n < spec.arrivals
    ensures Stepped(spec, After(spec, n), After(spec, n + 1), Arrival(spec, n))
  {
    hide Stepped, Arrive;
    ArriveSteps(spec, After(spec, n), n);
  }

  lemma EventsGrow(spec: SimSpec, n: nat)
    requires spec.SpanFits() && n < spec.arrivals
    ensures After(spec, n + 1).events == After(spec, n).events + [Arrival(spec, n)]
  {
    hide After, Busy;
    ArrivalSteps(spec, n);
  }

  /** A world's events are never rewritten by later arrivals. */
  lemma {:induction false} EventsPersist(spec: SimSpec, m: nat, n: nat)
    requires spec.SpanFits() && m <= n <= spec.arrivals
    ensures After(spec, m).events == After(spec, n).events[..m]
    decreases n
  {
    hide Arrive;
    if m < n {
      EventsPersist(spec, m, n - 1);
      ArriveSteps(spec, After(spec, n - 1), n - 1);
    }
  }

  lemma AllBusyIff(freeAt: seq<U64>, t: U64)
    requires freeAt != []
    ensures Busy(freeAt, t) == |freeAt| <==> t < freeAt[Earliest(freeAt)]
  {
    if Busy(freeAt, t) == |freeAt| {
      CountLeZero(freeAt, t, Earliest(freeAt));
    } else if t < freeAt[Earliest(freeAt)] {
      CountLeNone(freeAt, t);
    }
  }

  /**
   * An arrival is kept from starting on time exactly when `bound` earlier bodies are running at its
   * intended instant; the refusing door then refuses it and the queueing door makes it wait.
   */
  lemma DelayedIffCeilingReached(spec: SimSpec, n: nat)
    requires spec.SpanFits() && n < spec.arrivals
    ensures var st, e, t := After(spec, n), Arrival(spec, n), After(spec, n + 1).now;
            && (Running(st.events, t) == spec.Servers() <==> e.Refused? || e.intended < e.start)
            && (e.Ran? ==> e.intended == t <= e.start <= e.end)
            && (spec.refuseAtBound && e.Ran? ==> e.start == e.intended)
            && (!spec.refuseAtBound ==> e.Ran?)
  {
    hide Busy, Arrive, Running, Intended;
    AlwaysOccupied(spec, n);
    ArrivalSteps(spec, n);
    ClockIsIntended(spec, n);
    AllBusyIff(After(spec, n).freeAt, After(spec, n + 1).now);
  }

  /** No admitted body has started after the next server becomes free or the clock, whichever is later. */
  ghost predicate StartsBefore(st: State)
    requires st.freeAt != []
  {
    forall e <- st.events | e.Ran? :: e.start <= Max(st.freeAt[Earliest(st.freeAt)], st.now)
  }

  lemma StepStartsBefore(spec: SimSpec, st: State, next: State, e: Event)
    requires Stepped(spec, st, next, e) && StartsBefore(st)
    ensures StartsBefore(next)
  {
    hide Busy;
  }

  lemma {:induction false} AlwaysStartsBefore(spec: SimSpec, n: nat)
    requires spec.SpanFits() && n <= spec.arrivals
    ensures StartsBefore(After(spec, n))
  {
    hide Arrive, Busy, Stepped, Arrival;
    if n != 0 {
      AlwaysStartsBefore(spec, n - 1);
      ArrivalSteps(spec, n - 1);
      StepStartsBefore(spec, After(spec, n - 1), After(spec, n), Arrival(spec, n - 1));
    }
  }

  /** Bodies start in arrival order. */
  lemma StartsInArrivalOrder(spec: SimSpec, m: nat, n: nat)
    requires spec.SpanFits() && m < n < spec.arrivals
    requires Arrival(spec, m).Ran? && Arrival(spec, n).Ran?
    ensures Arrival(spec, m).start <= Arrival(spec, n).start
  {
    hide Arrive, Busy;
    AlwaysStartsBefore(spec, n);
    ArrivalSteps(spec, n);
    EventsPersist(spec, m + 1, n);
    assert After(spec, n).events[m] == Arrival(spec, m);
  }

  /** Every event admitted or refused, and none refused by the queueing door. */
  ghost predicate Accounted(spec: SimSpec, events: seq<Event>)
  {
    Admitted(events) + RefusedCount(events) == |events| && (!spec.refuseAtBound ==> RefusedCount(events) == 0)
  }

  lemma StepAccounted(spec: SimSpec, events: seq<Event>, e: Event)
    requires Accounted(spec, events) && (!spec.refuseAtBound ==> e.Ran?)
    ensures Accounted(spec, events + [e])
  {
    hide Admitted, RefusedCount, TraceHash, MaxLag;
    if e.Ran? {
      TalliesRan(events, e);
    } else {
      TalliesRefused(events, e.index);
    }
  }

  lemma NothingAtFirst(spec: SimSpec)
    requires spec.SpanFits()
    ensures After(spec, 0).events == [] && Accounted(spec, [])
  {
  }

  /** Every offered arrival is admitted or refused, and the queueing door refuses none. */
  lemma {:induction false} OfferedIsAdmittedPlusRefused(spec: SimSpec, n: nat)
    requires spec.SpanFits() && n <= spec.arrivals
    ensures var events := After(spec, n).events;
            Admitted(events) + RefusedCount(events) == n && (!spec.refuseAtBound ==> RefusedCount(events) == 0)
  {
    hide After, Arrival, Admitted, RefusedCount;
    if n == 0 {
      NothingAtFirst(spec);
    } else {
      OfferedIsAdmittedPlusRefused(spec, n - 1);
      EventsGrow(spec, n - 1);
      DoorAdmits(spec, n - 1);
      StepAccounted(spec, After(spec, n - 1).events, Arrival(spec, n - 1));
    }
  }

  lemma DoorAdmits(spec: SimSpec, n: nat)
    requires spec.SpanFits() && n < spec.arrivals
    ensures !spec.refuseAtBound ==> Arrival(spec, n).Ran?
  {
    hide After, Arrive, Arrival, Running;
    DelayedIffCeilingReached(spec, n);
  }

  lemma ArrivePeaks(spec: SimSpec, st: State, index: U64)
    requires Sized(spec, st)
    ensures var next := Arrive(spec, st, index);
            && |next.events| == |st.events| + 1
            && match next.events[|st.events|] {
                 case Refused(_) => next.peakInFlight == st.peakInFlight && next.peakQueue == st.peakQueue
                 case Ran(_, intended, _, start, _) =>
                   var inFlight := Busy(next.freeAt, next.now);
                   var backlog := SaturatingSub(start, intended) / Max(spec.Period(), 1);
                   && next.peakInFlight == Max(st.peakInFlight, inFlight)
                   && next.peakQueue == Max(st.peakQueue, Min(inFlight + backlog, U64_MAX))
               }
  {
    hide Intended, Busy, SimSpec.Service, SimSpec.Period;
  }

  /**
   * The reported peaks are occupancies: the most bodies running just after an admission, so at most
   * `bound`, and that plus the backlog the generator had fallen behind by.
   */
  lemma {:induction false} PeakIsOccupancy(spec: SimSpec, n: nat)
    requires spec.SpanFits() && n <= spec.arrivals
    ensures After(spec, n).peakInFlight <= spec.Servers()
    ensures 0 < n ==>
      var before, here := After(spec, n - 1), After(spec, n);
      match Arrival(spec, n - 1) {
        case Refused(_) => here.peakInFlight == before.peakInFlight && here.peakQueue == before.peakQueue
        case Ran(_, intended, _, start, _) =>
          var running := Running(here.events, here.now);
          var backlog := SaturatingSub(start, intended) / Max(spec.Period(), 1);
          && here.peakInFlight == Max(before.peakInFlight, running)
          && here.peakQueue == Max(before.peakQueue, Min(running + backlog, U64_MAX))
      }
  {
    hide Arrive, Busy, Running, SimSpec.Period;
    if n != 0 {
      PeakIsOccupancy(spec, n - 1);
      ArrivePeaks(spec, After(spec, n - 1), n - 1);
      AlwaysOccupied(spec, n);
      CeilingHolds(spec, n, After(spec, n).now);
    }
  }

  lemma BusyFalls(freeAt: seq<U64>, t: U64, u: U64)
    requires t <= u
    ensures Busy(freeAt, u) <= Busy(freeAt, t)
  {
    hide CountLe;
    CountLeMonotone(freeAt, t, u);
  }

  /** One arrival never raises occupancy past the peak it leaves, and leaves past instants alone. */
  lemma StepPeak(spec: SimSpec, n: nat, t: U64)
    requires spec.SpanFits() && n < spec.arrivals
    requires Running(After(spec, n).events, t) <= After(spec, n).peakInFlight
    ensures Running(After(spec, n + 1).events, t) <= After(spec, n + 1).peakInFlight
    ensures Running(After(spec, n).events, t) <= Running(After(spec, n + 1).events, t)
  {
    hide After, Arrive, Busy, Running, SimSpec.Period;
    var st, next, e := After(spec, n), After(spec, n + 1), Arrival(spec, n);
    ArrivalSteps(spec, n);
    RunningAppend(st.events, e, t);
    PeakIsOccupancy(spec, n + 1);
    AlwaysOccupied(spec, n + 1);
    if next.now <= t {
      BusyFalls(next.freeAt, next.now, t);
    }
  }

  /** No instant has more bodies running than the peak, and some instant has as many. */
  ghost predicate Attained(st: State)
  {
    && (forall t: U64 :: Running(st.events, t) <= st.peakInFlight)
    && exists t: U64 :: Running(st.events, t) == st.peakInFlight
  }

  lemma StepAttained(spec: SimSpec, n: nat)
    requires spec.SpanFits() && n < spec.arrivals && Attained(After(spec, n))
    ensures Attained(After(spec, n + 1))
  {
    hide After, Arrive, Running, SimSpec.Period, Arrival, Busy;
    PeakIsOccupancy(spec, n + 1);
    var before, here := After(spec, n), After(spec, n + 1);
    forall t: U64
      ensures Running(here.events, t) <= here.peakInFlight && Running(before.events, t) <= Running(here.events, t)
    {
      StepPeak(spec, n, t);
    }
    var t: U64 :| Running(before.events, t) == before.peakInFlight;
    assert here.peakInFlight == before.peakInFlight ==> Running(here.events, t) == here.peakInFlight;
    assert here.peakInFlight != before.peakInFlight ==> Running(here.events, here.now) == here.peakInFlight;
  }

  lemma NobodyRunsAtFirst(spec: SimSpec)
    requires spec.SpanFits()
    ensures Attained(After(spec, 0))
  {
    assert Running(After(spec, 0).events, 0) == 0;
  }

  /** The reported peak is the most bodies running at once: no instant has more, and some instant has as many. */
  lemma {:induction false} PeakIsGreatest(spec: SimSpec, n: nat)
    requires spec.SpanFits() && n <= spec.arrivals
    ensures forall t: U64 :: Running(After(spec, n).events, t) <= After(spec, n).peakInFlight
    ensures exists t: U64 :: Running(After(spec, n).events, t) == After(spec, n).peakInFlight
  {
    hide After, Running;
    if n == 0 {
      NobodyRunsAtFirst(spec);
    } else {
      PeakIsGreatest(spec, n - 1);
      StepAttained(spec, n - 1);
    }
  }

  /** The backlog a lag stands for, in arrivals. */
  function Backlog(lag: U64, period: U64): nat { lag / Max(period, 1) }

  /** What the queue measured when `e` was admitted into `here`: bodies running, and the backlog behind them. */
  ghost function QueueReading(here: State, e: Event, period: U64): nat
    requires e.Ran?
  {
    Min(Running(here.events, here.now) + Backlog(SaturatingSub(e.start, e.intended), period), U64_MAX)
  }

  lemma PeakQueueSteps(spec: SimSpec, n: nat)
    requires spec.SpanFits() && n < spec.arrivals
    ensures var before, here, e := After(spec, n), After(spec, n + 1), Arrival(spec, n);
      here.peakQueue == if e.Ran? then Max(before.peakQueue, QueueReading(here, e, spec.Period())) else before.peakQueue
  {
    hide After, Arrive, Running, SimSpec.Period, Arrival, Busy;
    PeakIsOccupancy(spec, n + 1);
  }

  /** The reported peak queue is the greatest of those readings over the admitted arrivals, and zero if there were none. */
  lemma {:induction false} PeakQueueIsGreatest(spec: SimSpec, n: nat)
    requires spec.SpanFits() && n <= spec.arrivals
    ensures forall k: nat :: k < n && Arrival(spec, k).Ran? ==>
              QueueReading(After(spec, k + 1), Arrival(spec, k), spec.Period()) <= After(spec, n).peakQueue
    ensures After(spec, n).peakQueue == 0
            || exists k: nat :: k < n && Arrival(spec, k).Ran?
                                && QueueReading(After(spec, k + 1), Arrival(spec, k), spec.Period()) == After(spec, n).peakQueue
  {
    hide After, Arrive, Running, SimSpec.Period, Arrival, QueueReading;
    if n == 0 {
      NoQueueAtFirst(spec);
    } else {
      PeakQueueIsGreatest(spec, n - 1);
      PeakQueueSteps(spec, n - 1);
    }
  }

  lemma NoQueueAtFirst(spec: SimSpec)
    requires spec.SpanFits()
    ensures After(spec, 0).peakQueue == 0
  {
  }

  // The two readings of a run

  /** Body by body the intended-start latency covers the actual-start one; refusing, they coincide. */
  ghost predicate Covered(spec: SimSpec, events: seq<Event>)
  {
    var intended, actual := IntendedLatencies(events), ActualLatencies(events);
    && |intended| == |actual|
    && (forall i :: 0 <= i < |intended| ==> actual[i] <= intended[i])
    && (spec.refuseAtBound ==> intended == actual && MaxLag(events) == 0)
  }

  lemma StepCovered(spec: SimSpec, events: seq<Event>, e: Event)
    requires Covered(spec, events)
    requires e.Ran? ==> e.intended <= e.start && (spec.refuseAtBound ==> e.start == e.intended)
    ensures Covered(spec, events + [e])
  {
    hide IntendedLatencies, ActualLatencies, MaxLag, TraceHash, Admitted, RefusedCount;
    ReportOneMore(events, e);
  }

  lemma CoveredAtFirst(spec: SimSpec)
    requires spec.SpanFits()
    ensures After(spec, 0).events == [] && Covered(spec, [])
  {
  }

  /** The intended-start latency of every body is at least its actual-start latency. */
  lemma {:induction false} IntendedCoversActual(spec: SimSpec, n: nat)
    requires spec.SpanFits() && n <= spec.arrivals
    ensures var events := After(spec, n).events;
            var intended, actual := IntendedLatencies(events), ActualLatencies(events);
            && |intended| == |actual|
            && (forall i :: 0 <= i < |intended| ==> actual[i] <= intended[i])
            && (spec.refuseAtBound ==> intended == actual && MaxLag(events) == 0)
  {
    hide After, Arrival, Running, IntendedLatencies, ActualLatencies, MaxLag;
    if n == 0 {
      CoveredAtFirst(spec);
    } else {
      IntendedCoversActual(spec, n - 1);
      DelayedIffCeilingReached(spec, n - 1);
      EventsGrow(spec, n - 1);
      StepCovered(spec, After(spec, n - 1).events, Arrival(spec, n - 1));
    }
  }

  /**
   * Coordinated omission has one direction: no intended-start quantile is below the actual-start one,
   * and on the refusing door the generator never lags and the two readings coincide.
   */
  lemma QuantilesOfTheTwoReadings(spec: SimSpec, num: int, den: nat)
    requires spec.SpanFits() && 0 < den
    ensures var events := After(spec, spec.arrivals).events;
            var intended, actual := IntendedLatencies(events), ActualLatencies(events);
            && Quantile(actual, num, den) <= Quantile(intended, num, den)
            && (spec.refuseAtBound ==> Quantile(actual, num, den) == Quantile(intended, num, den))
            && (spec.refuseAtBound ==> Trace(spec).maxLag == 0)
  {
    hide Quantile;
    var events := After(spec, spec.arrivals).events;
    IntendedCoversActual(spec, spec.arrivals);
    QuantileMonotone(ActualLatencies(events), IntendedLatencies(events), num, num, den);
  }
}
