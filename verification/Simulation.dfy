/**
 * The seeded open-loop world: a discrete-event queue of `bound` servers fed by a fixed arrival
 * schedule, through a door that queues at the ceiling or one that refuses at it.
 */
module Simulation {
  import opened Words
  import opened Counting
  import opened Mixers
  import opened Recording
  import opened Recorders

  // The schedule

  function PeriodPicos(rate: U64): U64 { if rate == 0 then 0 else 1_000_000_000_000 / rate }

  function PeriodNanos(rate: U64): U64 { PeriodPicos(rate) / 1_000 }

  /** When arrival `index` is meant to start: its slot, plus less than one period of jitter. */
  function IntendedArrival(index: U64, period: U64, jitter: U64): U64
  {
    SaturatingAdd(SaturatingMul(index, period), Min(jitter, SaturatingSub(period, 1)))
  }

  /** A period truncates to zero only for no rate at all, or one past a billion a second. */
  lemma PeriodZeroIff(rate: U64)
    ensures PeriodNanos(rate) == 0 <==> rate == 0 || 1_000_000_000 < rate
  {
    if rate != 0 {
      QuotientBelow(1_000_000_000_000, rate, 1_000);
    }
  }

  /** Jitter never reorders arrivals, at any rate and even where the schedule saturates. */
  lemma IntendedMonotone(i: U64, j: U64, period: U64, v: U64, w: U64)
    requires i < j
    ensures IntendedArrival(i, period, v) <= IntendedArrival(j, period, w)
    ensures 0 < period && j * period <= U64_MAX ==> IntendedArrival(i, period, v) < IntendedArrival(j, period, 0)
  {
    SlotsApart(i, j, period);
  }

  lemma SlotsApart(i: nat, j: nat, period: nat)
    requires i < j
    ensures i * period + period <= j * period
  {
    assert (i + 1) * period <= j * period;
  }

  // The world

  datatype SimSpec = SimSpec(
    offeredRate: U64, arrivals: U64, bound: nat, serviceMin: U64, serviceMax: U64,
    jitter: bool, refuseAtBound: bool, seed: U64)
  {
    /** The one span whose `+ 1` does not fit a word. */
    predicate SpanFits() { serviceMin != 0 || serviceMax != U64_MAX }

    function Servers(): (n: nat)
      ensures 0 < n
    {
      Max(bound, 1)
    }

    function Period(): U64 { PeriodNanos(offeredRate) }

    function ServiceSpan(): (span: U64)
      requires SpanFits()
      ensures 0 < span
    {
      SaturatingSub(serviceMax, serviceMin) + 1
    }

    function JitterDraw(drawn: nat): U64
    {
      if jitter then Draw(seed, drawn + 1) % Max(Period(), 1) else 0
    }

    /** The length of the body whose draw is the one after `drawn`. */
    function Service(drawn: nat): (service: U64)
      requires SpanFits()
    {
      var extra := Draw(seed, drawn + 1) % ServiceSpan();
      serviceMin + extra
    }
  }

  /** What became of one arrival. */
  datatype Event =
    | Refused(index: U64)
    | Ran(index: U64, intended: U64, service: U64, start: U64, end: U64)

  datatype State = State(
    freeAt: seq<U64>, drawn: nat, now: U64, events: seq<Event>, peakInFlight: nat, peakQueue: U64)

  /** How many servers are busy just after instant `t`. */
  function Busy(freeAt: seq<U64>, t: U64): nat { |freeAt| - CountLe(freeAt, t) }

  /** The first server to become free. */
  function Earliest(freeAt: seq<U64>): (slot: nat)
    requires freeAt != []
    ensures slot < |freeAt|
    ensures forall i :: 0 <= i < |freeAt| ==> freeAt[slot] <= freeAt[i]
    ensures forall i :: 0 <= i < slot ==> freeAt[slot] < freeAt[i]
  {
    var last := |freeAt| - 1;
    if last == 0 then 0
    else
      var slot := Earliest(freeAt[..last]);
      if freeAt[last] < freeAt[slot] then last else slot
  }

  ghost predicate Sized(spec: SimSpec, st: State) { spec.SpanFits() && |st.freeAt| == spec.Servers() }

  function Intended(spec: SimSpec, index: U64, drawn: nat): U64
  {
    IntendedArrival(index, spec.Period(), spec.JitterDraw(drawn))
  }

  /** The body an admitted arrival runs: on the server free first, no earlier than now. */
  function Placed(spec: SimSpec, st: State, index: U64, intended: U64): (e: Event)
    requires Sized(spec, st)
    ensures e.Ran?
  {
    var start := Max(st.freeAt[Earliest(st.freeAt)], st.now);
    var service := spec.Service(st.drawn);
    Ran(index, intended, service, start, SaturatingAdd(start, service))
  }

  /** Consider one arrival: refuse it, or run its body on the server that is free first. */
  function Arrive(spec: SimSpec, st: State, index: U64): (next: State)
    requires Sized(spec, st)
    ensures Sized(spec, next)
  {
    var intended := Intended(spec, index, st.drawn);
    var drawn := st.drawn + if spec.jitter then 1 else 0;
    var now := Max(st.now, intended);
    if spec.refuseAtBound && spec.Servers() <= Busy(st.freeAt, now) then
      st.(drawn := drawn, now := now, events := st.events + [Refused(index)])
    else
      var e := Placed(spec, st.(drawn := drawn, now := now), index, intended);
      var freeAt := st.freeAt[Earliest(st.freeAt) := e.end];
      var inFlight := Busy(freeAt, now);
      var backlog := SaturatingSub(e.start, intended) / Max(spec.Period(), 1);
      State(freeAt, drawn + 1, now, st.events + [e], Max(st.peakInFlight, inFlight),
            Max(st.peakQueue, Min(inFlight + backlog, U64_MAX)))
  }

  /** The world after its first `n` arrivals. */
  function After(spec: SimSpec, n: nat): (st: State)
    requires spec.SpanFits() && n <= spec.arrivals
    ensures Sized(spec, st) && |st.events| == n
  {
    if n == 0 then State(seq(spec.Servers(), _ => 0), 0, 0, [], 0, 0)
    else
      var st := After(spec, n - 1);
      Arrive(spec, st, n - 1)
  }

  // What a run reports

  function Admitted(events: seq<Event>): (n: nat)
    ensures n <= |events|
  {
    if events == [] then 0
    else Admitted(events[..|events| - 1]) + if events[|events| - 1].Ran? then 1 else 0
  }

  function RefusedCount(events: seq<Event>): nat
  {
    if events == [] then 0
    else RefusedCount(events[..|events| - 1]) + if events[|events| - 1].Refused? then 1 else 0
  }

  /** Latencies from the intended starts, which is what a run reports. */
  function IntendedLatencies(events: seq<Event>): (r: seq<U64>)
  {
    if events == [] then []
    else
      var e := events[|events| - 1];
      IntendedLatencies(events[..|events| - 1]) + if e.Ran? then [SaturatingSub(e.end, e.intended)] else []
  }

  /** Latencies from the actual starts: the closed-loop figure, which omits the queue. */
  function ActualLatencies(events: seq<Event>): (r: seq<U64>)
  {
    if events == [] then []
    else
      var e := events[|events| - 1];
      ActualLatencies(events[..|events| - 1]) + if e.Ran? then [SaturatingSub(e.end, e.start)] else []
  }

  function MaxLag(events: seq<Event>): U64
  {
    if events == [] then 0
    else
      var e := events[|events| - 1];
      Max(MaxLag(events[..|events| - 1]), if e.Ran? then SaturatingSub(e.start, e.intended) else 0)
  }

  const REFUSED_MARKER: U64 := U64_MAX

  /** The words one event folds into the trace hash. */
  function EventWords(e: Event): seq<U64>
  {
    match e
    case Refused(index) => [index, REFUSED_MARKER]
    case Ran(index, intended, _, start, end) => [index, intended, start, end]
  }

  function TraceHash(events: seq<Event>): U64
  {
    if events == [] then 0xCBF2_9CE4_8422_2325
    else FoldAll(TraceHash(events[..|events| - 1]), EventWords(events[|events| - 1]))
  }

  datatype SimTrace = SimTrace(
    offered: U64, admitted: nat, refused: nat, completed: nat, p50Intended: nat, p99Intended: nat,
    p99Actual: nat, max: U64, peakInFlight: nat, peakQueue: U64, maxLag: U64, hash: U64)

  /** The report of one seeded world. */
  function Trace(spec: SimSpec): SimTrace
    requires spec.SpanFits()
  {
    var st := After(spec, spec.arrivals);
    var intended, actual := IntendedLatencies(st.events), ActualLatencies(st.events);
    var admitted := Admitted(st.events);
    SimTrace(spec.arrivals, admitted, RefusedCount(st.events), admitted,
             Quantile(intended, 50, 100), Quantile(intended, 99, 100), Quantile(actual, 99, 100),
             Summarise(intended).max, st.peakInFlight, st.peakQueue, MaxLag(st.events), TraceHash(st.events))
  }

  // The program

  method CountBusy(freeAt: array<U64>, now: U64) returns (busy: nat)
    ensures busy == Busy(freeAt[..], now)
  {
    busy := 0;
    for i := 0 to freeAt.Length
      invariant busy == i - CountLe(freeAt[..i], now)
    {
      assert freeAt[..i + 1] == freeAt[..i] + [freeAt[i]];
      CountLeAppend(freeAt[..i], freeAt[i], now);
      if now < freeAt[i] {
        busy := busy + 1;
      }
    }
    assert freeAt[..freeAt.Length] == freeAt[..];
  }

  method FindEarliest(freeAt: array<U64>) returns (slot: nat, earliest: U64)
    requires 0 < freeAt.Length
    ensures slot == Earliest(freeAt[..]) && earliest == freeAt[slot]
  {
    earliest, slot := U64_MAX, 0;
    for i := 0 to freeAt.Length
      invariant slot < freeAt.Length && (i == 0 ==> slot == 0 && earliest == U64_MAX)
      invariant 0 < i ==> slot == Earliest(freeAt[..i])
      invariant 0 < i ==> earliest == freeAt[slot]
    {
      if 0 < i {
        assert freeAt[..i + 1][..i] == freeAt[..i];
      }
      if freeAt[i] < earliest {
        earliest := freeAt[i];
        slot := i;
      }
    }
    assert freeAt[..freeAt.Length] == freeAt[..];
  }

  lemma FoldWords(hash: U64, a: U64, b: U64, c: U64, d: U64)
    ensures FoldHash(FoldHash(hash, a), b) == FoldAll(hash, [a, b])
    ensures FoldHash(FoldHash(FoldHash(FoldHash(hash, a), b), c), d) == FoldAll(hash, [a, b, c, d])
  {
    hide FoldHash;
    assert [a, b, c, d][..3] == [a, b, c] && [a, b, c][..2] == [a, b] && [a, b][..1] == [a] && [a][..0] == [];
    assert FoldAll(hash, [a]) == FoldHash(FoldAll(hash, []), a);
    assert FoldAll(hash, [a, b]) == FoldHash(FoldAll(hash, [a]), b);
    assert FoldAll(hash, [a, b, c]) == FoldHash(FoldAll(hash, [a, b]), c);
  }

  /** What one more event does to each figure a run reports. */
  lemma ReportOneMore(events: seq<Event>, e: Event)
    ensures Admitted(events + [e]) == Admitted(events) + if e.Ran? then 1 else 0
    ensures RefusedCount(events + [e]) == RefusedCount(events) + if e.Ran? then 0 else 1
    ensures e.Ran? ==>
      && IntendedLatencies(events + [e]) == IntendedLatencies(events) + [SaturatingSub(e.end, e.intended)]
      && ActualLatencies(events + [e]) == ActualLatencies(events) + [SaturatingSub(e.end, e.start)]
      && MaxLag(events + [e]) == Max(MaxLag(events), SaturatingSub(e.start, e.intended))
    ensures e.Refused? ==>
      && IntendedLatencies(events + [e]) == IntendedLatencies(events)
      && ActualLatencies(events + [e]) == ActualLatencies(events)
      && MaxLag(events + [e]) == MaxLag(events)
    ensures TraceHash(events + [e]) == FoldAll(TraceHash(events), EventWords(e))
  {
    assert (events + [e])[..|events|] == events;
  }

  lemma TalliesRefused(events: seq<Event>, index: U64)
    ensures var more := events + [Refused(index)];
      && Admitted(more) == Admitted(events) && RefusedCount(more) == RefusedCount(events) + 1
      && MaxLag(more) == MaxLag(events)
      && TraceHash(more) == FoldHash(FoldHash(TraceHash(events), index), REFUSED_MARKER)
  {
    hide TraceHash, MaxLag, Admitted, RefusedCount, FoldHash, FoldAll, IntendedLatencies, ActualLatencies;
    ReportOneMore(events, Refused(index));
    FoldWords(TraceHash(events), index, REFUSED_MARKER, 0, 0);
  }

  lemma TalliesRan(events: seq<Event>, e: Event)
    requires e.Ran?
    ensures var more := events + [e];
      && Admitted(more) == Admitted(events) + 1 && RefusedCount(more) == RefusedCount(events)
      && MaxLag(more) == Max(MaxLag(events), SaturatingSub(e.start, e.intended))
      && TraceHash(more) == FoldHash(FoldHash(FoldHash(FoldHash(TraceHash(events), e.index), e.intended), e.start), e.end)
  {
    hide TraceHash, MaxLag, Admitted, RefusedCount, FoldHash, FoldAll, IntendedLatencies, ActualLatencies;
    ReportOneMore(events, e);
    FoldWords(TraceHash(events), e.index, e.intended, e.start, e.end);
  }

  /** The working state of one run: the servers, the generator, two recorders and the tallies. */
  class World {
    const freeAt: array<U64>
    const rng: Rng
    const recorder: Recorder
    const recorderActual: Recorder
    var now: U64
    var admitted: nat
    var refused: nat
    var completed: nat
    var peakInFlight: nat
    var peakQueue: U64
    var maxLag: U64
    var hash: U64

    ghost predicate Separate()
      reads this
    {
      && recorder != recorderActual && recorder.counts != recorderActual.counts
      && rng as object !in {recorder, recorderActual, this}
      && freeAt as object !in {recorder.counts, recorderActual.counts}
      && this as object !in {recorder, recorderActual}
    }

    ghost predicate Tallies(st: State)
      reads this
    {
      && now == st.now && admitted == completed == Admitted(st.events)
      && refused == RefusedCount(st.events)
      && peakInFlight == st.peakInFlight && peakQueue == st.peakQueue
      && maxLag == MaxLag(st.events) && hash == TraceHash(st.events)
    }

    ghost predicate Recorded(events: seq<Event>)
      reads recorder, recorder.counts, recorderActual, recorderActual.counts
    {
      && recorder.Valid() && recorder.samples == IntendedLatencies(events)
      && recorderActual.Valid() && recorderActual.samples == ActualLatencies(events)
    }

    ghost predicate Draws(spec: SimSpec, drawn: nat)
      reads rng
    {
      rng.Valid() && rng.seed == spec.seed && rng.drawn == drawn
    }

    constructor (spec: SimSpec)
      requires spec.SpanFits()
      ensures Separate() && Tallies(After(spec, 0)) && Recorded([]) && Draws(spec, 0)
      ensures freeAt[..] == After(spec, 0).freeAt
      ensures fresh(freeAt) && fresh(rng) && fresh(recorder) && fresh(recorderActual)
      ensures fresh(recorder.counts) && fresh(recorderActual.counts)
    {
      freeAt := new U64[Max(spec.bound, 1)](_ => 0);
      rng := new Rng(spec.seed);
      recorder := new Recorder();
      recorderActual := new Recorder();
      admitted, refused, completed, peakInFlight := 0, 0, 0, 0;
      peakQueue, maxLag, now := 0, 0, 0;
      hash := 0xCBF2_9CE4_8422_2325;
      new;
      assert freeAt[..] == After(spec, 0).freeAt;
    }

    /** Count a refusal at the ceiling. */
    method Refuse(index: U64, ghost st: State)
      requires Separate() && Tallies(st) && Recorded(st.events)
      modifies this
      ensures Tallies(st.(events := st.events + [Refused(index)])) && Recorded(st.events + [Refused(index)])
    {
      hide TraceHash, MaxLag, Admitted, RefusedCount, FoldHash, Recorded;
      TalliesRefused(st.events, index);
      refused := refused + 1;
      hash := FoldHash(FoldHash(hash, index), REFUSED_MARKER);
      RefusedIsNotRecorded(st.events, index);
    }

    lemma RefusedIsNotRecorded(events: seq<Event>, index: U64)
      requires Recorded(events)
      ensures Recorded(events + [Refused(index)])
    {
      hide Recorder.Valid, IntendedLatencies, ActualLatencies;
      ReportOneMore(events, Refused(index));
    }

    /** Account for an admitted body. */
    method Admit(e: Event, inFlight: nat, period: U64, ghost st: State)
      requires e.Ran? && Tallies(st)
      modifies this
      ensures Tallies(st.(events := st.events + [e], peakInFlight := Max(st.peakInFlight, inFlight),
                          peakQueue := Max(st.peakQueue, Min(inFlight + SaturatingSub(e.start, e.intended)
                                                                       / Max(period, 1), U64_MAX))))
    {
      hide TraceHash, MaxLag, Admitted, RefusedCount, FoldHash;
      TalliesRan(st.events, e);
      peakInFlight := Max(peakInFlight, inFlight);
      var lag := SaturatingSub(e.start, e.intended);
      maxLag := Max(maxLag, lag);
      var backlog := lag / Max(period, 1);
      var queue := Min(inFlight + backlog, U64_MAX);
      peakQueue := Max(peakQueue, queue);
      admitted, completed := admitted + 1, completed + 1;
      hash := FoldHash(FoldHash(FoldHash(FoldHash(hash, e.index), e.intended), e.start), e.end);
    }

    /** Record an admitted body's two latencies. */
    method RecordBoth(e: Event, ghost events: seq<Event>)
      requires e.Ran? && Separate() && Recorded(events)
      modifies recorder, recorder.counts, recorderActual, recorderActual.counts
      ensures Recorded(events + [e])
    {
      hide Recorder.Valid, IntendedLatencies, ActualLatencies;
      ReportOneMore(events, e);
      recorder.Record(SaturatingSub(e.end, e.intended));
      recorderActual.Record(SaturatingSub(e.end, e.start));
    }

    /** Read the report back from the recorders and the tallies. */
    method Report(spec: SimSpec, ghost st: State) returns (trace: SimTrace)
      requires spec.SpanFits() && st == After(spec, spec.arrivals)
      requires Tallies(st) && Recorded(st.events)
      ensures trace == Trace(spec)
    {
      hide Quantile, IntendedLatencies, ActualLatencies, MaxLag, Admitted, RefusedCount, TraceHash, Summarise, After;
      var histogram := OfOne(recorder);
      var actual := OfOne(recorderActual);
      var p50Intended := histogram.QuantileNanos(50, 100, recorder.samples);
      var p99Intended := histogram.QuantileNanos(99, 100, recorder.samples);
      var p99Actual := actual.QuantileNanos(99, 100, recorderActual.samples);
      trace := SimTrace(spec.arrivals, admitted, refused, completed, p50Intended, p99Intended, p99Actual,
                        histogram.max, peakInFlight, peakQueue, maxLag, hash);
    }

    /** Run one admitted body on the server that is free first. */
    method Place(spec: SimSpec, index: U64, intended: U64, ghost st: State) returns (e: Event)
      requires Sized(spec, st) && Separate() && Recorded(st.events) && Draws(spec, st.drawn)
      requires freeAt[..] == st.freeAt && now == st.now
      modifies freeAt, rng, recorder, recorder.counts, recorderActual, recorderActual.counts
      ensures e == Placed(spec, st, index, intended)
      ensures Draws(spec, st.drawn + 1) && freeAt[..] == st.freeAt[Earliest(st.freeAt) := e.end]
      ensures Recorded(st.events + [e])
    {
      hide Draw, Earliest, Rng.Valid, Recorded;
      var slot, earliest := FindEarliest(freeAt);
      var start := Max(earliest, now);
      var draw := rng.NextU64();
      var serviceSpan := SaturatingSub(spec.serviceMax, spec.serviceMin) + 1;
      var service := spec.serviceMin + draw % serviceSpan;
      var end := SaturatingAdd(start, service);
      freeAt[slot] := end;
      e := Ran(index, intended, service, start, end);
      RecordBoth(e, st.events);
    }

    /** Offer one arrival to the world. */
    method Offer(spec: SimSpec, index: U64, ghost was: State)
      requires Sized(spec, was) && Separate() && Tallies(was) && Recorded(was.events) && Draws(spec, was.drawn)
      requires freeAt[..] == was.freeAt
      modifies this, freeAt, rng, recorder, recorder.counts, recorderActual, recorderActual.counts
      ensures var st := Arrive(spec, was, index);
        Tallies(st) && Recorded(st.events) && Draws(spec, st.drawn) && freeAt[..] == st.freeAt
    {
      hide Draw, Earliest, IntendedArrival, PeriodNanos, Rng.Valid, Recorded, Busy, Admitted, RefusedCount, MaxLag, TraceHash;
      var period := PeriodNanos(spec.offeredRate);
      var bound := Max(spec.bound, 1);
      var jitter := 0;
      if spec.jitter {
        var draw := rng.NextU64();
        jitter := draw % Max(period, 1);
      }
      var intended := IntendedArrival(index, period, jitter);
      now := Max(now, intended);
      ghost var st := was.(drawn := was.drawn + (if spec.jitter then 1 else 0), now := now);
      var busy := CountBusy(freeAt, now);
      if spec.refuseAtBound && busy >= bound {
        Refuse(index, st);
      } else {
        var e := Place(spec, index, intended, st);
        var inFlight := CountBusy(freeAt, now);
        Admit(e, inFlight, period, st);
      }
    }
  }

  /** Run one seeded world and report what it did. */
  method Simulate(spec: SimSpec) returns (trace: SimTrace)
    requires spec.SpanFits()
    ensures trace == Trace(spec)
  {
    var world := new World(spec);
    ghost var st := After(spec, 0);
    hide Arrive, World.Tallies, World.Recorded, World.Draws, World.Separate;
    for index := 0 to spec.arrivals
      modifies world, world.freeAt, world.rng
      modifies world.recorder, world.recorder.counts, world.recorderActual, world.recorderActual.counts
      invariant st == After(spec, index) && world.freeAt[..] == st.freeAt
      invariant world.Separate() && world.Tallies(st) && world.Recorded(st.events) && world.Draws(spec, st.drawn)
    {
      world.Offer(spec, index, st);
      st := Arrive(spec, st, index);
    }
    trace := world.Report(spec, st);
  }
}
