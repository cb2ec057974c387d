/**
 * The open-loop generator, the engine it offers arrivals to, and the gates that decide whether the
 * run it reports is one. The negative control reports every `dropEvery`-th arrival as placed
 * without placing it; the conservation gate has to catch exactly that.
 */
module Conservation {
  import opened Options
  import opened Tallies
  import opened TaskSets
  import opened Words

  /** Await a free slot, or refuse at the bound. */
  datatype Door = Backpressure | Refuse

  /** The facade's supervisor treats a bound of zero as one; the raw semaphore does not. */
  datatype Side = Facade | Baseline

  datatype RunSpec = RunSpec(side: Side, door: Door, bound: nat, arrivals: Option<nat>, period: nat, dropEvery: nat)

  datatype SideRun = SideRun(
    offered: nat, admitted: nat, refused: nat, completed: nat, cancelled: nat, aborted: nat,
    workUnits: nat, inFlightAtEnd: nat, peakDepth: nat, maxLag: nat)

  // ---------------------------------------------------------------- the gates

  datatype Broken = LostArrival | LostWork | NotTerminal | WorkMismatch | StillInFlight

  datatype Gated = Conserved | Violated(why: Broken)

  /** Every completed body recorded exactly its own work unit. */
  predicate WorkUnitsMatch(completed: nat, workUnits: nat) { workUnits == completed }

  /** The conservation gate, naming the first field that is off. */
  function OpenLoopConserved(run: SideRun): (g: Gated)
    ensures g == Conserved <==>
      && run.offered == run.admitted + run.refused
      && run.admitted == run.completed == run.workUnits
      && run.cancelled == run.aborted == run.inFlightAtEnd == 0
  {
    if run.admitted + run.refused != run.offered then Violated(LostArrival)
    else if run.completed != run.admitted then Violated(LostWork)
    else if run.completed + run.cancelled + run.aborted != run.admitted then Violated(NotTerminal)
    else if !WorkUnitsMatch(run.completed, run.workUnits) then Violated(WorkMismatch)
    else if run.inFlightAtEnd != 0 then Violated(StillInFlight)
    else Conserved
  }

  function TallyOf(run: SideRun): Tally
  {
    Tally(run.admitted, run.completed, run.cancelled, run.aborted, run.refused, run.workUnits)
  }

  /** A pair is compared as equal work only while neither side has refused anything. */
  datatype PairVerdict = Saturated | EqualWork | UnequalWork(field: Field)

  function OpenLoopPairFair(facade: SideRun, baseline: SideRun): PairVerdict
  {
    if facade.refused != 0 || baseline.refused != 0 then Saturated
    else
      match Fairness(TallyOf(facade), TallyOf(baseline))
      case Fair => EqualWork
      case Unfair(field) => UnequalWork(field)
  }

  /**
   * Once each side is conserved on its own, the pair gate asks one thing more: whether both were
   * offered the same number of arrivals. If not, it is the placed count that says so.
   */
  lemma PairOfConservedRuns(facade: SideRun, baseline: SideRun)
    requires OpenLoopConserved(facade) == Conserved && OpenLoopConserved(baseline) == Conserved
    ensures OpenLoopPairFair(facade, baseline) == (
      if facade.admitted < facade.offered || baseline.admitted < baseline.offered then Saturated
      else if facade.offered == baseline.offered then EqualWork
      else UnequalWork(Placed))
  {
    assert Fairness(TallyOf(facade), TallyOf(baseline)) == Fair <==> TallyOf(facade) == TallyOf(baseline);
  }

  // ---------------------------------------------------------------- the depth trace

  const DEPTH_SAMPLE_CAP: nat := 65_536

  function Deepest(depths: seq<nat>): nat
  {
    if depths == [] then 0 else Max(Deepest(depths[..|depths| - 1]), depths[|depths| - 1])
  }

  lemma {:induction false} DeepestIsMaximum(depths: seq<nat>)
    ensures forall i :: 0 <= i < |depths| ==> depths[i] <= Deepest(depths)
    ensures depths != [] ==> Deepest(depths) in depths
  {
    if depths != [] {
      DeepestIsMaximum(depths[..|depths| - 1]);
    }
  }

  /** A bounded queue-depth trace: samples past the cap are counted, and the peak still sees them. */
  class DepthTrace {
    var samples: seq<nat>
    var dropped: nat
    var peak: nat
    ghost var pushed: seq<nat>

    ghost predicate Valid()
      reads this
    {
      && samples == pushed[..Min(|pushed|, DEPTH_SAMPLE_CAP)]
      && |samples| + dropped == |pushed|
      && peak == Deepest(pushed)
    }

    constructor ()
      ensures Valid() && pushed == []
    {
      samples, dropped, peak, pushed := [], 0, 0, [];
    }

    method Push(depth: nat)
      requires Valid()
      modifies this
      ensures Valid() && pushed == old(pushed) + [depth]
    {
      peak := Max(peak, depth);
      if |samples| < DEPTH_SAMPLE_CAP {
        samples := samples + [depth];
      } else {
        dropped := dropped + 1;
      }
      assert (pushed + [depth])[..|pushed|] == pushed;
      pushed := pushed + [depth];
    }
  }

  /** Arrivals already due: the generator's lag, read as a count of periods. */
  function Due(lag: nat, period: nat): nat { lag / Max(period, 1) }

  /** How far one instant is past another; nothing if it is not. */
  function Since(now: nat, mark: nat): nat { if now >= mark then now - mark else 0 }

  /** Record the queue after one arrival: bodies in flight plus arrivals already due; and report the lag. */
  method SampleQueue(now: nat, nextIntended: nat, period: nat, inFlight: nat, depth: DepthTrace) returns (lag: nat)
    requires depth.Valid()
    modifies depth
    ensures lag == Since(now, nextIntended)
    ensures depth.Valid() && depth.pushed == old(depth.pushed) + [Due(lag, period) + inFlight]
  {
    lag := if now >= nextIntended then now - nextIntended else 0;
    depth.Push(lag / Max(period, 1) + inFlight);
  }

  // ---------------------------------------------------------------- the generator

  /** Whether the `n`-th arrival, counted from one, is really placed. */
  predicate IsPlaced(dropEvery: nat, n: nat) { dropEvery == 0 || n % dropEvery != 0 }

  /** Arrivals among the first `n` that are reported as admitted and never placed. */
  function Faked(dropEvery: nat, n: nat): nat
  {
    if n == 0 then 0 else Faked(dropEvery, n - 1) + if IsPlaced(dropEvery, n) then 0 else 1
  }

  lemma {:induction false} FakedIsQuotient(dropEvery: nat, n: nat)
    ensures Faked(dropEvery, n) == if dropEvery == 0 then 0 else n / dropEvery
  {
    if n > 0 {
      FakedIsQuotient(dropEvery, n - 1);
      if dropEvery > 0 {
        QuotientSteps(dropEvery, n);
      }
    } else if dropEvery > 0 {
      assert 0 / dropEvery == 0;
    }
  }

  lemma QuotientSteps(d: nat, n: nat)
    requires d > 0 && n > 0
    ensures n / d == (n - 1) / d + if n % d == 0 then 1 else 0
  {
    var q, r := (n - 1) / d, (n - 1) % d;
    assert n == q * d + (r + 1);
    if r + 1 == d {
      assert n == (q + 1) * d;
      Divides(n, d, q + 1, 0);
    } else {
      Divides(n, d, q, r + 1);
    }
  }

  lemma Divides(n: nat, d: nat, q: nat, r: nat)
    requires d > 0 && r < d && n == q * d + r
    ensures n / d == q && n % d == r
  {
    QuotientBelow(n, d, q);
    QuotientBelow(n, d, q + 1);
    assert (q + 1) * d == q * d + d;
    assert n == (n / d) * d + n % d;
  }

  function Ceiling(spec: RunSpec): nat { if spec.side == Facade then Max(spec.bound, 1) else spec.bound }

  /** Offer one arrival at the ceiling, through the spec's door. */
  method Admit(tasks: TaskSet, door: Door) returns (placed: bool)
    requires tasks.Valid() && tasks.gated == 0
    requires door == Backpressure ==> tasks.bound > 0
    modifies tasks
    ensures tasks.Valid() && tasks.gated == 0
    ensures tasks.spawned == old(tasks.spawned) + (if placed then 1 else 0)
    ensures tasks.Retained() == old(tasks.Retained()) + (if placed then 1 else 0)
    ensures door == Backpressure ==> placed
  {
    if door == Backpressure {
      tasks.Spawn(false);
      placed := true;
    } else {
      placed := tasks.TrySpawn(false);
    }
  }

  /** The generator's lag at sample `i`, taken when the clock, counted from the start, reads `clock(i)`. */
  function Lag(clock: nat -> nat, period: nat, i: nat): nat { Since(clock(i), (i + 1) * period) }

  /** The generator's lag after each of its first `n` arrivals. */
  function Lags(clock: nat -> nat, period: nat, n: nat): (lags: seq<nat>)
    ensures |lags| == n && forall i :: 0 <= i < n ==> lags[i] == Lag(clock, period, i)
  {
    if n == 0 then [] else Lags(clock, period, n - 1) + [Lag(clock, period, n - 1)]
  }

  /** How many arrivals the run offers: its limit, or what the window's clock allowed. */
  function ToOffer(spec: RunSpec, window: nat): nat
  {
    match spec.arrivals
    case Some(limit) => limit
    case None => window
  }

  /** Reap, then offer the `n`-th arrival; a faked one is reported as placed and nothing runs. */
  method Offer(spec: RunSpec, tasks: TaskSet, n: nat) returns (placed: bool)
    requires tasks.Valid() && tasks.gated == 0 && tasks.bound == Ceiling(spec)
    requires spec.door == Backpressure ==> Ceiling(spec) > 0
    modifies tasks
    ensures tasks.Valid() && tasks.gated == 0
    ensures spec.door == Backpressure || !IsPlaced(spec.dropEvery, n) ==> placed
    ensures tasks.spawned == old(tasks.spawned) + (if placed && IsPlaced(spec.dropEvery, n) then 1 else 0)
    ensures tasks.Retained() <= Ceiling(spec) + (if IsPlaced(spec.dropEvery, n) then 1 else 0)
    ensures tasks.Retained() <= tasks.spawned
  {
    hide IsPlaced, Ceiling;
    tasks.Reap();
    placed := true;
    if IsPlaced(spec.dropEvery, n) {
      placed := Admit(tasks, spec.door);
    }
  }

  /**
   * A queue sample after arrival `i`: the arrivals due, plus what is in flight. Reaping keeps that to
   * the ceiling, and to one over it when this arrival was placed; and it is never more than was ever
   * really placed.
   */
  predicate InSample(spec: RunSpec, clock: nat -> nat, i: nat, depth: nat)
  {
    var due, placed := Due(Lag(clock, spec.period, i), spec.period), i + 1 - Faked(spec.dropEvery, i + 1);
    due <= depth <= due + Min(placed, Ceiling(spec) + if IsPlaced(spec.dropEvery, i + 1) then 1 else 0)
  }

  /**
   * One run, in every schedule and under any clock readings: each arrival is admitted or refused, the
   * backpressure door refuses none, every body really placed has ended, and the faked ones are
   * missing from the terminals. The queue is sampled once an arrival, within the ceiling and one over
   * it, and the peak and the worst lag are over all samples.
   * A run on the backpressure door over an empty pool would never be served, so it is not started.
   */
  method OpenLoopRun(spec: RunSpec, window: nat, clock: nat -> nat) returns (run: SideRun, ghost depths: seq<nat>)
    requires spec.door == Backpressure ==> Ceiling(spec) > 0
    ensures run.offered == ToOffer(spec, window) == run.admitted + run.refused
    ensures spec.door == Backpressure ==> run.refused == 0
    ensures run.completed + run.aborted + Faked(spec.dropEvery, run.offered) == run.admitted
    ensures run.completed <= run.workUnits <= run.completed + run.aborted
    ensures run.cancelled == 0 && run.inFlightAtEnd == 0
    ensures run.maxLag == Deepest(Lags(clock, spec.period, run.offered))
    ensures |depths| == run.offered && run.peakDepth == Deepest(depths)
    ensures forall i :: 0 <= i < |depths| ==>
              InSample(spec, clock, i, depths[i])
  {
    hide Faked, Lags, Lag, Deepest, Sampled, InSample, IsPlaced, Ceiling, ToOffer, Due;
    hide TaskSet.Valid, TaskSet.Retained, TaskSet.Alive;
    Beginning(spec, clock);
    var tasks := new TaskSet(Ceiling(spec));
    var depth := new DepthTrace();
    var offered, admitted, refused, maxLag := 0, 0, 0, 0;
    while offered < ToOffer(spec, window)
      invariant offered <= ToOffer(spec, window) && offered == admitted + refused
      invariant tasks.Valid() && tasks.gated == 0 && tasks.bound == Ceiling(spec)
      invariant tasks.spawned + Faked(spec.dropEvery, offered) == admitted
      invariant spec.door == Backpressure ==> refused == 0
      invariant maxLag == Deepest(Lags(clock, spec.period, offered))
      invariant depth.Valid() && Sampled(spec, clock, depth.pushed, offered)
    {
      offered := offered + 1;
      var placed := Offer(spec, tasks, offered);
      if placed {
        admitted := admitted + 1;
      } else {
        refused := refused + 1;
      }
      OneMoreArrival(spec, clock, depth.pushed, offered - 1, tasks.Retained());
      var lag := SampleQueue(clock(offered - 1), offered * spec.period, spec.period, tasks.Retained(), depth);
      maxLag := Max(maxLag, lag);
    }
    var completed, aborted, work, left := DrainAll(tasks);
    run := SideRun(offered, admitted, refused, completed, 0, aborted, work, left, depth.peak, maxLag);
    depths := depth.pushed;
    SampledMeans(spec, clock, depths, offered);
  }

  /** Drain the engine and read its terminal counters. */
  method DrainAll(tasks: TaskSet) returns (completed: nat, aborted: nat, work: nat, left: nat)
    requires tasks.Valid() && tasks.gated == 0
    modifies tasks
    ensures completed + aborted == old(tasks.spawned) && left == 0
    ensures completed <= work <= completed + aborted
  {
    var _ := tasks.WaitIdle();
    completed, aborted, work, left := tasks.joinedFinished, tasks.joinedAborted, tasks.work, tasks.Retained();
  }

  lemma Beginning(spec: RunSpec, clock: nat -> nat)
    ensures Faked(spec.dropEvery, 0) == 0 && Deepest(Lags(clock, spec.period, 0)) == 0 && Sampled(spec, clock, [], 0)
  {
  }

  lemma LagIs(clock: nat -> nat, period: nat, i: nat)
    ensures Lag(clock, period, i) == Since(clock(i), (i + 1) * period)
  {
  }

  /** What one more arrival does to the count of faked ones, the worst lag and the samples. */
  lemma OneMoreArrival(spec: RunSpec, clock: nat -> nat, depths: seq<nat>, n: nat, inFlight: nat)
    requires Sampled(spec, clock, depths, n)
    ensures Faked(spec.dropEvery, n + 1) == Faked(spec.dropEvery, n) + if IsPlaced(spec.dropEvery, n + 1) then 0 else 1
    ensures Deepest(Lags(clock, spec.period, n + 1)) == Max(Deepest(Lags(clock, spec.period, n)), Lag(clock, spec.period, n))
    ensures Lag(clock, spec.period, n) == Since(clock(n), (n + 1) * spec.period)
    ensures inFlight + Faked(spec.dropEvery, n + 1) <= n + 1
            && inFlight <= Ceiling(spec) + (if IsPlaced(spec.dropEvery, n + 1) then 1 else 0) ==>
      Sampled(spec, clock, depths + [Due(Lag(clock, spec.period, n), spec.period) + inFlight], n + 1)
  {
    hide Due, Lag, Ceiling;
    LagIs(clock, spec.period, n);
    assert (Lags(clock, spec.period, n) + [Lag(clock, spec.period, n)])[..n] == Lags(clock, spec.period, n);
  }

  lemma SampledMeans(spec: RunSpec, clock: nat -> nat, depths: seq<nat>, n: nat)
    requires Sampled(spec, clock, depths, n)
    ensures |depths| == n
    ensures forall i :: 0 <= i < n ==>
              InSample(spec, clock, i, depths[i])
  {
  }

  ghost predicate Sampled(spec: RunSpec, clock: nat -> nat, depths: seq<nat>, offered: nat)
  {
    && |depths| == offered
    && forall i :: 0 <= i < offered ==>
         InSample(spec, clock, i, depths[i])
  }

  /**
   * One over the ceiling is reached. A schedule of the generator's own calls at the backpressure door:
   * nothing ends while the pool fills; the next reap finds nothing; a body ends while the next arrival
   * waits for its permit, and is not yet joined when the queue is sampled.
   */
  method OneOverTheCeiling(bound: nat, period: nat, now: nat) returns (alive: nat, retained: nat, depth: nat)
    requires bound > 0
    ensures alive == bound && retained == bound + 1
    ensures depth == Due(Since(now, (bound + 1) * period), period) + bound + 1
  {
    hide Due, Since;
    var tasks := new TaskSet(bound);
    for i := 0 to bound
      invariant tasks.Valid() && tasks.bound == bound && tasks.permits == bound - i
      invariant tasks.unstarted == i == tasks.Retained()
    {
      tasks.Place(false);
    }
    tasks.Bump();
    tasks.Finish();
    tasks.Place(false);
    var trace := new DepthTrace();
    var _ := SampleQueue(now, (bound + 1) * period, period, tasks.Retained(), trace);
    alive, retained, depth := tasks.Alive(), tasks.Retained(), trace.samples[0];
  }

  /**
   * Gate exactness: whatever the door and the schedule, a finished run passes the conservation gate
   * if and only if nothing aborted and no arrival was faked, that is, unless the control dropped
   * and enough was offered for it to drop something. When it fails, it fails as lost work.
   */
  method GatedRun(spec: RunSpec, window: nat, clock: nat -> nat) returns (run: SideRun, verdict: Gated)
    requires spec.door == Backpressure ==> Ceiling(spec) > 0
    ensures verdict == OpenLoopConserved(run)
    ensures verdict == Conserved <==> run.aborted == 0 && (spec.dropEvery == 0 || run.offered < spec.dropEvery)
    ensures verdict != Conserved ==> verdict == Violated(LostWork)
    ensures run.aborted == 0 && spec.dropEvery > 0 ==> run.completed == run.admitted - run.offered / spec.dropEvery
  {
    var r, _ := OpenLoopRun(spec, window, clock);
    run := r;
    verdict := OpenLoopConserved(run);
    FakedIsQuotient(spec.dropEvery, run.offered);
    if spec.dropEvery > 0 {
      QuotientZero(run.offered, spec.dropEvery);
    }
  }

  lemma QuotientZero(n: nat, d: nat)
    requires d > 0
    ensures n / d == 0 <==> n < d
  {
    QuotientBelow(n, d, 1);
  }
}
