/**
 * A reset racing with recordings. The reset is its own program of stores, one a field, in the order
 * it takes them; any number of `record` calls, some already under way, take their atomic steps
 * between those stores in any order the scheduler picks.
 */
module ResetRaces {
  import opened Words
  import opened Buckets
  import opened Recording
  import opened SharedRecorder

  /** The reset's stores in program order: every bucket, and then the five other fields. */
  const TOTAL: nat := SLOTS
  const SUM: nat := SLOTS + 1
  const MIN: nat := SLOTS + 2
  const MAX: nat := SLOTS + 3
  const CLAMPED: nat := SLOTS + 4
  const STORES: nat := SLOTS + 5

  /**
   * One shard, the calls on it, and how many stores the reset has taken. `start` is where each call
   * stood when the reset began, and `at[f]` where each stood when the reset stored field `f`.
   */
  datatype Race = Race(memory: Memory, calls: seq<Call>, next: nat, start: seq<nat>, at: seq<seq<nat>>)

  datatype Action = Begin(nanos: U64) | Advancing(id: nat) | Storing

  function Pcs(calls: seq<Call>): (pcs: seq<nat>)
    ensures |pcs| == |calls| && forall i :: 0 <= i < |calls| ==> pcs[i] == calls[i].pc
  {
    seq(|calls|, i requires 0 <= i < |calls| => calls[i].pc)
  }

  function Started(m: Memory, calls: seq<Call>): Race { Race(m, calls, 0, Pcs(calls), []) }

  /** One store of the reset. */
  function Zero(m: Memory, f: nat): Memory
    requires f < STORES
  {
    var c := m.cells;
    if f < SLOTS then m.(cells := c.(counts := c.counts[f := 0]))
    else if f == TOTAL then m.(cells := c.(total := 0))
    else if f == SUM then m.(sum := 0)
    else if f == MIN then m.(cells := c.(min := U64_MAX))
    else if f == MAX then m.(cells := c.(max := 0))
    else m.(cells := c.(clamped := 0))
  }

  function Step(r: Race, action: Action): Race
  {
    match action
    case Begin(nanos) => r.(calls := r.calls + [Call(0, nanos, 0, 0)])
    case Advancing(id) =>
      if id < |r.calls| && r.calls[id].pc < DONE then
        r.(memory := Atomic(r.memory, r.calls[id]), calls := r.calls[id := Advance(r.memory, r.calls[id])])
      else r
    case Storing =>
      if r.next < STORES then
        r.(memory := Zero(r.memory, r.next), next := r.next + 1, at := r.at + [Pcs(r.calls)])
      else r
  }

  function Run(r: Race, schedule: seq<Action>): Race
  {
    if schedule == [] then r else Step(Run(r, schedule[..|schedule| - 1]), schedule[|schedule| - 1])
  }

  /** The reset has taken its last store and every call has returned. */
  ghost predicate Over(r: Race)
  {
    r.next == STORES && forall i :: 0 <= i < |r.calls| ==> r.calls[i].pc == DONE
  }

  // ---------------------------------------------------------------- what a field counts

  /** The step of a call that touches a field, the running sum apart. */
  function Touch(f: nat): nat
  {
    if f < SLOTS then 1 else if f == TOTAL then 2 else if f == MIN then 6 else if f == MAX then 5 else 0
  }

  /** Where call `i` stood in a snapshot; one that had not begun stood at its start. */
  function PcIn(snapshot: seq<nat>, i: nat): nat { if i < |snapshot| then snapshot[i] else 0 }

  /** The snapshot a field's contents date from: its own store, or the reset's beginning. */
  function Since(r: Race, f: nat): seq<nat> { if f < r.next && f < |r.at| then r.at[f] else r.start }

  /** Whether call `i` has touched the field since the snapshot. */
  predicate Touched(calls: seq<Call>, i: nat, snapshot: seq<nat>, f: nat)
    requires i < |calls|
  {
    PcIn(snapshot, i) <= Touch(f) < calls[i].pc
  }

  /** How much a call adds to a counting field. */
  function Amount(nanos: U64, f: nat): nat
  {
    if f < SLOTS then if SlotOf(Clamp(nanos)) == f then 1 else 0
    else if f == TOTAL then 1
    else if f == CLAMPED && CEILING_NANOS < nanos then 1 else 0
  }

  function Tally(calls: seq<Call>, snapshot: seq<nat>, f: nat): nat
  {
    if calls == [] then 0
    else
      var i := |calls| - 1;
      Tally(calls[..i], snapshot, f) + if Touched(calls, i, snapshot, f) then Amount(calls[i].nanos, f) else 0
  }

  function Least(calls: seq<Call>, snapshot: seq<nat>): U64
  {
    if calls == [] then U64_MAX
    else
      var i := |calls| - 1;
      Min(Least(calls[..i], snapshot), if Touched(calls, i, snapshot, MIN) then Clamp(calls[i].nanos) else U64_MAX)
  }

  function Greatest(calls: seq<Call>, snapshot: seq<nat>): U64
  {
    if calls == [] then 0
    else
      var i := |calls| - 1;
      Max(Greatest(calls[..i], snapshot), if Touched(calls, i, snapshot, MAX) then Clamp(calls[i].nanos) else 0)
  }

  /** A counting field of the memory. */
  function Counter(m: Memory, f: nat): nat
  {
    if f < SLOTS then m.cells.counts[f] else if f == TOTAL then m.cells.total else m.cells.clamped
  }

  predicate Counting(f: nat) { f < SLOTS || f == TOTAL || f == CLAMPED }

  // ---------------------------------------------------------------- one more step

  /** `to` is `from` with call `i` one step further. */
  ghost predicate Moved(from: seq<Call>, to: seq<Call>, i: nat)
  {
    && i < |from| == |to| && to[i].pc == from[i].pc + 1 && to[i].nanos == from[i].nanos
    && forall k :: 0 <= k < |from| && k != i ==> to[k] == from[k]
  }

  /** A snapshot taken in the past: no call has gone back since. */
  ghost predicate Past(calls: seq<Call>, snapshot: seq<nat>)
  {
    |snapshot| <= |calls| && forall i :: 0 <= i < |snapshot| ==> snapshot[i] <= calls[i].pc
  }

  lemma {:induction false} TallyMoves(from: seq<Call>, to: seq<Call>, i: nat, snapshot: seq<nat>, f: nat)
    requires Moved(from, to, i) && PcIn(snapshot, i) <= from[i].pc
    ensures Tally(to, snapshot, f) == Tally(from, snapshot, f) + if from[i].pc == Touch(f) then Amount(from[i].nanos, f) else 0
  {
    hide Amount, Touch;
    var last := |from| - 1;
    if i == last {
      assert from[..last] == to[..last];
    } else {
      TallyMoves(from[..last], to[..last], i, snapshot, f);
    }
  }

  lemma {:induction false} ExtremesMove(from: seq<Call>, to: seq<Call>, i: nat, least: seq<nat>, greatest: seq<nat>)
    requires Moved(from, to, i) && PcIn(least, i) <= from[i].pc && PcIn(greatest, i) <= from[i].pc
    ensures Least(to, least) == Min(Least(from, least), if from[i].pc == 6 then Clamp(from[i].nanos) else U64_MAX)
    ensures Greatest(to, greatest) == Max(Greatest(from, greatest), if from[i].pc == 5 then Clamp(from[i].nanos) else 0)
  {
    hide Clamp;
    var last := |from| - 1;
    if i == last {
      assert from[..last] == to[..last];
    } else {
      ExtremesMove(from[..last], to[..last], i, least, greatest);
    }
  }

  lemma {:induction false} FreshSnapshot(calls: seq<Call>, snapshot: seq<nat>, f: nat)
    requires forall i :: 0 <= i < |calls| ==> PcIn(snapshot, i) == calls[i].pc
    ensures Tally(calls, snapshot, f) == 0 && Least(calls, snapshot) == U64_MAX && Greatest(calls, snapshot) == 0
  {
    hide Amount, Touch, Clamp;
    if calls != [] {
      FreshSnapshot(calls[..|calls| - 1], snapshot, f);
    }
  }

  // ---------------------------------------------------------------- the invariant

  ghost predicate Shape(r: Race)
  {
    && r.next <= STORES && |r.at| == r.next && Past(r.calls, r.start)
    && (forall f :: 0 <= f < r.next ==> Past(r.calls, r.at[f]))
    && forall i :: 0 <= i < |r.calls| ==> r.calls[i].pc <= DONE
  }

  /** A counting field holds what it held before its store, or nothing, and every touch since. */
  ghost predicate Counts(m0: Memory, r: Race, f: nat)
  {
    Counter(r.memory, f) == (if f < r.next then 0 else Counter(m0, f)) + Tally(r.calls, Since(r, f), f)
  }

  ghost predicate Extremes(m0: Memory, r: Race)
  {
    && r.memory.cells.min == Min(if MIN < r.next then U64_MAX else m0.cells.min, Least(r.calls, Since(r, MIN)))
    && r.memory.cells.max == Max(if MAX < r.next then 0 else m0.cells.max, Greatest(r.calls, Since(r, MAX)))
  }

  lemma AtomicCounter(m: Memory, call: Call, f: nat)
    requires Counting(f)
    ensures Counter(Atomic(m, call), f) == Counter(m, f) + if call.pc == Touch(f) then Amount(call.nanos, f) else 0
    ensures Atomic(m, call).cells.min == Min(m.cells.min, if call.pc == 6 then Clamp(call.nanos) else U64_MAX)
    ensures Atomic(m, call).cells.max == Max(m.cells.max, if call.pc == 5 then Clamp(call.nanos) else 0)
  {
    hide SlotOf, Clamp;
  }

  lemma ZeroCounter(m: Memory, g: nat, f: nat)
    requires g < STORES && Counting(f)
    ensures Counter(Zero(m, g), f) == if f == g then 0 else Counter(m, f)
    ensures Zero(m, g).cells.min == if g == MIN then U64_MAX else m.cells.min
    ensures Zero(m, g).cells.max == if g == MAX then 0 else m.cells.max
  {
  }

  lemma StepShape(r: Race, action: Action)
    requires Shape(r)
    ensures Shape(Step(r, action))
    ensures forall f: nat :: action.Storing? && r.next == f < STORES ==> Since(Step(r, action), f) == Pcs(r.calls)
    ensures forall f: nat :: !(action.Storing? && r.next == f) ==> Since(Step(r, action), f) == Since(r, f)
    ensures forall f: nat :: Past(r.calls, Since(r, f))
  {
    hide Atomic, Zero;
  }

  lemma PastPc(calls: seq<Call>, snapshot: seq<nat>, i: nat)
    requires Past(calls, snapshot) && i < |calls|
    ensures PcIn(snapshot, i) <= calls[i].pc
  {
  }

  lemma StepCounts(m0: Memory, r: Race, action: Action, f: nat)
    requires Shape(r) && Counting(f) && Counts(m0, r, f) && Extremes(m0, r)
    ensures Counts(m0, Step(r, action), f) && Extremes(m0, Step(r, action))
  {
    hide Atomic, Zero, Tally, Least, Greatest, Counter, Shape, Since, Amount, Touch, Clamp;
    StepShape(r, action);
    match action
    case Begin(nanos) =>
      BeginCounts(r.calls, nanos, Since(r, f), Since(r, MIN), Since(r, MAX), f);
    case Advancing(id) =>
      if id < |r.calls| && r.calls[id].pc < DONE {
        var to := r.calls[id := Advance(r.memory, r.calls[id])];
        PastPc(r.calls, Since(r, f), id);
        PastPc(r.calls, Since(r, MIN), id);
        PastPc(r.calls, Since(r, MAX), id);
        TallyMoves(r.calls, to, id, Since(r, f), f);
        ExtremesMove(r.calls, to, id, Since(r, MIN), Since(r, MAX));
        AtomicCounter(r.memory, r.calls[id], f);
      }
    case Storing =>
      if r.next < STORES {
        ZeroCounter(r.memory, r.next, f);
        FreshSnapshot(r.calls, Pcs(r.calls), f);
      }
  }

  lemma BeginCounts(calls: seq<Call>, nanos: U64, snapshot: seq<nat>, least: seq<nat>, greatest: seq<nat>, f: nat)
    requires Past(calls, snapshot) && Past(calls, least) && Past(calls, greatest)
    ensures var more := calls + [Call(0, nanos, 0, 0)];
      && Tally(more, snapshot, f) == Tally(calls, snapshot, f)
      && Least(more, least) == Least(calls, least) && Greatest(more, greatest) == Greatest(calls, greatest)
  {
    hide Amount, Touch, Clamp;
    assert (calls + [Call(0, nanos, 0, 0)])[..|calls|] == calls;
  }

  ghost predicate Startable(calls: seq<Call>)
  {
    forall i :: 0 <= i < |calls| ==> calls[i].pc <= DONE
  }

  lemma {:induction false} RunCounts(m0: Memory, calls: seq<Call>, schedule: seq<Action>, f: nat)
    requires Startable(calls) && Counting(f)
    ensures var r := Run(Started(m0, calls), schedule);
      Shape(r) && Counts(m0, r, f) && Extremes(m0, r)
  {
    hide Step, Shape, Counts, Extremes;
    if schedule == [] {
      StartCounts(m0, calls, f);
    } else {
      var init, last := schedule[..|schedule| - 1], schedule[|schedule| - 1];
      RunCounts(m0, calls, init, f);
      StepCounts(m0, Run(Started(m0, calls), init), last, f);
      StepShape(Run(Started(m0, calls), init), last);
    }
  }

  lemma StartCounts(m0: Memory, calls: seq<Call>, f: nat)
    requires Startable(calls)
    ensures var r := Started(m0, calls);
      Shape(r) && Counts(m0, r, f) && Extremes(m0, r)
  {
    hide Tally, Least, Greatest, Counter;
    FreshSnapshot(calls, Pcs(calls), f);
  }

  // ---------------------------------------------------------------- the new window

  /** Call `i` had not yet touched the field when the reset stored it. */
  ghost predicate After(r: Race, i: nat, f: nat)
  {
    f < |r.at| && PcIn(r.at[f], i) <= Touch(f)
  }

  /** How many of the calls that add to a field touched it after its store. */
  ghost function Kept(r: Race, n: nat, f: nat): nat
    requires n <= |r.calls|
  {
    if n == 0 then 0 else Kept(r, n - 1, f) + if After(r, n - 1, f) then Amount(r.calls[n - 1].nanos, f) else 0
  }

  lemma {:induction false} TallyIsKept(r: Race, n: nat, f: nat)
    requires Over(r) && f < |r.at| && n <= |r.calls| && Counting(f)
    ensures Tally(r.calls[..n], r.at[f], f) == Kept(r, n, f)
  {
    hide Amount;
    if n > 0 {
      TallyIsKept(r, n - 1, f);
      assert r.calls[..n][..n - 1] == r.calls[..n - 1];
    }
  }

  /**
   * The window a racing reset opens, for any calls and any schedule: once the reset and every call are
   * over, each counting field holds exactly the calls that touched it after the reset's own store of
   * that field, whatever the memory held before and whatever the other fields say.
   */
  lemma WindowCounts(m0: Memory, calls: seq<Call>, schedule: seq<Action>, f: nat)
    requires Startable(calls) && Counting(f)
    requires Over(Run(Started(m0, calls), schedule))
    ensures var r := Run(Started(m0, calls), schedule);
      Counter(r.memory, f) == Kept(r, |r.calls|, f)
  {
    hide Run, Tally, Kept, Counter, Amount, Extremes, Started;
    var r := Run(Started(m0, calls), schedule);
    RunCounts(m0, calls, schedule, f);
    TallyIsKept(r, |r.calls|, f);
    assert r.calls[..|r.calls|] == r.calls;
  }

  lemma {:induction false} LeastBounds(calls: seq<Call>, snapshot: seq<nat>)
    ensures forall i :: 0 <= i < |calls| && Touched(calls, i, snapshot, MIN) ==> Least(calls, snapshot) <= Clamp(calls[i].nanos)
    ensures Least(calls, snapshot) == U64_MAX
            || exists i :: 0 <= i < |calls| && Touched(calls, i, snapshot, MIN) && Clamp(calls[i].nanos) == Least(calls, snapshot)
  {
    hide Clamp, Touch;
    if calls != [] {
      var init := calls[..|calls| - 1];
      LeastBounds(init, snapshot);
      assert forall i :: 0 <= i < |init| ==> Touched(init, i, snapshot, MIN) == Touched(calls, i, snapshot, MIN);
    }
  }

  lemma {:induction false} GreatestBounds(calls: seq<Call>, snapshot: seq<nat>)
    ensures forall i :: 0 <= i < |calls| && Touched(calls, i, snapshot, MAX) ==> Clamp(calls[i].nanos) <= Greatest(calls, snapshot)
    ensures Greatest(calls, snapshot) == 0
            || exists i :: 0 <= i < |calls| && Touched(calls, i, snapshot, MAX) && Clamp(calls[i].nanos) == Greatest(calls, snapshot)
  {
    hide Clamp, Touch;
    if calls != [] {
      var init := calls[..|calls| - 1];
      GreatestBounds(init, snapshot);
      assert forall i :: 0 <= i < |init| ==> Touched(init, i, snapshot, MAX) == Touched(calls, i, snapshot, MAX);
    }
  }

  /** And its extremes are the least and the greatest of the calls that touched them after their own stores. */
  lemma WindowExtremes(m0: Memory, calls: seq<Call>, schedule: seq<Action>)
    requires Startable(calls) && Over(Run(Started(m0, calls), schedule))
    ensures var r := Run(Started(m0, calls), schedule);
      var c := r.memory.cells;
      && (forall i :: 0 <= i < |r.calls| && After(r, i, MIN) ==> c.min <= Clamp(r.calls[i].nanos))
      && (c.min == U64_MAX || exists i :: 0 <= i < |r.calls| && After(r, i, MIN) && Clamp(r.calls[i].nanos) == c.min)
      && (forall i :: 0 <= i < |r.calls| && After(r, i, MAX) ==> Clamp(r.calls[i].nanos) <= c.max)
      && (c.max == 0 || exists i :: 0 <= i < |r.calls| && After(r, i, MAX) && Clamp(r.calls[i].nanos) == c.max)
  {
    hide Run, Least, Greatest, Clamp, Counts, Started;
    var r := Run(Started(m0, calls), schedule);
    RunCounts(m0, calls, schedule, TOTAL);
    LeastBounds(r.calls, r.at[MIN]);
    GreatestBounds(r.calls, r.at[MAX]);
    assert forall i :: 0 <= i < |r.calls| ==> (Touched(r.calls, i, r.at[MIN], MIN) <==> After(r, i, MIN));
    assert forall i :: 0 <= i < |r.calls| ==> (Touched(r.calls, i, r.at[MAX], MAX) <==> After(r, i, MAX));
  }

  // ---------------------------------------------------------------- one call

  ghost predicate NoneBegins(schedule: seq<Action>)
  {
    forall i :: 0 <= i < |schedule| ==> !schedule[i].Begin?
  }

  function Alone(m0: Memory, nanos: U64): Race { Started(m0, [Call(0, nanos, 0, 0)]) }

  /** Where the one call stood when the reset stored a field. */
  function At(r: Race, f: nat): nat
    requires f < |r.at|
  {
    PcIn(r.at[f], 0)
  }

  /** What the one call loads, and what the sum holds, at every point of the race. */
  ghost predicate SoleSum(m0: Memory, nanos: U64, r: Race)
  {
    && |r.calls| == 1 && r.calls[0].nanos == nanos && r.next <= STORES && |r.at| == r.next
    && (forall f :: 0 <= f < r.next ==> At(r, f) <= r.calls[0].pc && |r.at[f]| == 1)
    && var pc, stored := r.calls[0].pc, SUM < r.next;
       && (3 < pc ==> r.calls[0].carried == if stored && At(r, SUM) <= 3 then 0 else m0.sum)
       && r.memory.sum == (
            if stored then if 4 < pc && At(r, SUM) <= 4 then SaturatingAdd(r.calls[0].carried, Clamp(nanos)) else 0
            else if 4 < pc then SaturatingAdd(m0.sum, Clamp(nanos)) else m0.sum)
  }

  lemma AtomicSum(m: Memory, call: Call)
    ensures Atomic(m, call).sum == if call.pc == 4 then SaturatingAdd(call.carried, Clamp(call.nanos)) else m.sum
  {
  }

  lemma ZeroSum(m: Memory, g: nat)
    requires g < STORES
    ensures Zero(m, g).sum == if g == SUM then 0 else m.sum
  {
  }

  lemma SoleStep(m0: Memory, nanos: U64, r: Race, action: Action)
    requires SoleSum(m0, nanos, r) && !action.Begin?
    ensures SoleSum(m0, nanos, Step(r, action))
  {
    hide Atomic, Zero, Clamp, SaturatingAdd;
    match action
    case Advancing(id) =>
      if id == 0 {
        AtomicSum(r.memory, r.calls[0]);
      }
    case Storing =>
      if r.next < STORES {
        ZeroSum(r.memory, r.next);
      }
  }

  lemma {:induction false} SoleRun(m0: Memory, nanos: U64, schedule: seq<Action>)
    requires NoneBegins(schedule)
    ensures SoleSum(m0, nanos, Run(Alone(m0, nanos), schedule))
  {
    hide Step, SoleSum;
    if schedule == [] {
      SoleStart(m0, nanos);
    } else {
      SoleRun(m0, nanos, schedule[..|schedule| - 1]);
      SoleStep(m0, nanos, Run(Alone(m0, nanos), schedule[..|schedule| - 1]), schedule[|schedule| - 1]);
    }
  }

  lemma SoleStart(m0: Memory, nanos: U64)
    ensures SoleSum(m0, nanos, Alone(m0, nanos))
  {
  }

  /** The window one call leaves, field by field, given where it stood at each store. */
  ghost predicate SoleWindow(r: Race, nanos: U64)
    requires |r.at| == STORES
  {
    var c := r.memory.cells;
    && (forall f :: 0 <= f < SLOTS ==> c.counts[f] == if f == SlotOf(nanos) && At(r, f) <= 1 then 1 else 0)
    && c.total == (if At(r, TOTAL) <= 2 then 1 else 0)
    && c.min == (if At(r, MIN) <= 6 then Clamp(nanos) else U64_MAX)
    && c.max == (if At(r, MAX) <= 5 then Clamp(nanos) else 0)
    && c.clamped == (if At(r, CLAMPED) == 0 && CEILING_NANOS < nanos then 1 else 0)
  }

  lemma SoleKept(r: Race, f: nat)
    requires |r.calls| == 1
    ensures Kept(r, 1, f) == if After(r, 0, f) then Amount(r.calls[0].nanos, f) else 0
  {
    hide Amount, After;
    assert Kept(r, 0, f) == 0;
  }

  lemma SoleFields(m0: Memory, nanos: U64, schedule: seq<Action>)
    requires NoneBegins(schedule) && Over(Run(Alone(m0, nanos), schedule))
    ensures var r := Run(Alone(m0, nanos), schedule);
      |r.at| == STORES && SoleWindow(r, nanos)
  {
    hide Run, Clamp, SlotOf, Kept;
    var calls := [Call(0, nanos, 0, 0)];
    var r := Run(Alone(m0, nanos), schedule);
    SoleRun(m0, nanos, schedule);
    SlotOfClamped(nanos);
    forall f: nat | Counting(f)
      ensures Counter(r.memory, f) == if At(r, f) <= Touch(f) then Amount(nanos, f) else 0
    {
      WindowCounts(m0, calls, schedule, f);
      SoleKept(r, f);
    }
    assert Counting(TOTAL) && Counting(CLAMPED);
    assert forall f: nat :: f < SLOTS ==> Counting(f);
    SoleExtremes(m0, nanos, schedule);
    SoleCounts(r, nanos);
  }

  lemma SoleCounts(r: Race, nanos: U64)
    requires |r.at| == STORES && SlotOf(Clamp(nanos)) == SlotOf(nanos)
    requires forall f: nat :: Counting(f) ==> Counter(r.memory, f) == if At(r, f) <= Touch(f) then Amount(nanos, f) else 0
    ensures forall f :: 0 <= f < SLOTS ==> r.memory.cells.counts[f] == if f == SlotOf(nanos) && At(r, f) <= 1 then 1 else 0
    ensures r.memory.cells.total == if At(r, TOTAL) <= 2 then 1 else 0
    ensures r.memory.cells.clamped == if At(r, CLAMPED) == 0 && CEILING_NANOS < nanos then 1 else 0
  {
    hide SlotOf, Clamp, At;
    assert Counting(TOTAL) && Counting(CLAMPED);
    forall f: nat | f < SLOTS
      ensures r.memory.cells.counts[f] == if f == SlotOf(nanos) && At(r, f) <= 1 then 1 else 0
    {
      assert Counting(f);
      assert Counter(r.memory, f) == r.memory.cells.counts[f];
    }
  }

  lemma SoleExtremes(m0: Memory, nanos: U64, schedule: seq<Action>)
    requires NoneBegins(schedule) && Over(Run(Alone(m0, nanos), schedule))
    ensures var r := Run(Alone(m0, nanos), schedule);
      && |r.at| == STORES
      && r.memory.cells.min == (if At(r, MIN) <= 6 then Clamp(nanos) else U64_MAX)
      && r.memory.cells.max == (if At(r, MAX) <= 5 then Clamp(nanos) else 0)
  {
    hide Run, Clamp, SlotOf, Counts;
    var r := Run(Alone(m0, nanos), schedule);
    SoleRun(m0, nanos, schedule);
    RunCounts(m0, [Call(0, nanos, 0, 0)], schedule, TOTAL);
    assert r.calls[..0] == [];
    assert Least(r.calls[..0], r.at[MIN]) == U64_MAX && Greatest(r.calls[..0], r.at[MAX]) == 0;
  }

  /**
   * Exactly when a completion landing during a reset is counted whole, and when not at all, for any
   * starting memory and any schedule: each field the sample touches has its own bound on where the
   * call stood when the reset stored that field. The new window holds all of the sample when they all
   * hold, none of it when they all fail, and a part of it in every other case. The old window, read
   * before the reset began, holds none of it, so when they all fail the sample is in neither.
   */
  lemma ResetSplitsIff(m0: Memory, nanos: U64, schedule: seq<Action>)
    requires NoneBegins(schedule) && Over(Run(Alone(m0, nanos), schedule))
    ensures var r := Run(Alone(m0, nanos), schedule);
      && |r.at| == STORES
      && (r.memory.cells == One(nanos) <==>
            && At(r, SlotOf(nanos)) <= 1 && At(r, TOTAL) <= 2 && At(r, MIN) <= 6
            && (0 < nanos ==> At(r, MAX) <= 5) && (CEILING_NANOS < nanos ==> At(r, CLAMPED) == 0))
      && (r.memory.cells == Empty() <==>
            && 1 < At(r, SlotOf(nanos)) && 2 < At(r, TOTAL) && 6 < At(r, MIN)
            && (0 < nanos ==> 5 < At(r, MAX)) && (CEILING_NANOS < nanos ==> 0 < At(r, CLAMPED)))
  {
    hide Run, SlotOf, At;
    SoleFields(m0, nanos, schedule);
    WindowIff(Run(Alone(m0, nanos), schedule), nanos);
  }

  lemma WindowIff(r: Race, nanos: U64)
    requires |r.at| == STORES && SoleWindow(r, nanos)
    ensures r.memory.cells == One(nanos) <==>
            && At(r, SlotOf(nanos)) <= 1 && At(r, TOTAL) <= 2 && At(r, MIN) <= 6
            && (0 < nanos ==> At(r, MAX) <= 5) && (CEILING_NANOS < nanos ==> At(r, CLAMPED) == 0)
    ensures r.memory.cells == Empty() <==>
            && 1 < At(r, SlotOf(nanos)) && 2 < At(r, TOTAL) && 6 < At(r, MIN)
            && (0 < nanos ==> 5 < At(r, MAX)) && (CEILING_NANOS < nanos ==> 0 < At(r, CLAMPED))
  {
    hide SlotOf, At;
    var slot, counts := SlotOf(nanos), r.memory.cells.counts;
    assert One(nanos).counts[slot] == 1 && Empty().counts[slot] == 0;
    assert counts == One(nanos).counts <==> At(r, slot) <= 1 by {
      if At(r, slot) <= 1 {
        assert counts == One(nanos).counts;
      }
    }
    assert counts == Empty().counts <==> 1 < At(r, slot) by {
      if 1 < At(r, slot) {
        assert counts == Empty().counts;
      }
    }
  }

  /**
   * The running sum never had a window: if its store falls between the call's load and its store, the
   * whole of what was there before the reset comes back with the sample added.
   */
  lemma ResetSum(m0: Memory, nanos: U64, schedule: seq<Action>)
    requires NoneBegins(schedule) && Over(Run(Alone(m0, nanos), schedule))
    ensures var r := Run(Alone(m0, nanos), schedule);
      && |r.at| == STORES
      && r.memory.sum == (
           if At(r, SUM) <= 3 then Clamp(nanos)
           else if At(r, SUM) == 4 then SaturatingAdd(m0.sum, Clamp(nanos))
           else 0)
  {
    hide Run, Clamp, At;
    SoleRun(m0, nanos, schedule);
  }

  // ---------------------------------------------------------------- concrete races

  function Advances(k: nat): seq<Action> { seq(k, _ => Advancing(0)) }

  function Stores(k: nat): seq<Action> { seq(k, _ => Storing) }

  /** The whole reset falls between two steps of the call: `p` of its steps, every store, and then the rest. */
  function Landing(p: nat): seq<Action>
    requires p <= DONE
  {
    Advances(p) + Stores(STORES) + Advances(DONE - p)
  }

  lemma {:induction false} RunConcat(r: Race, a: seq<Action>, b: seq<Action>)
    ensures Run(r, a + b) == Run(Run(r, a), b)
  {
    hide Step;
    if b == [] {
      assert a + b == a;
    } else {
      RunConcat(r, a, b[..|b| - 1]);
      assert (a + b)[..|a + b| - 1] == a + b[..|b| - 1];
    }
  }

  lemma {:induction false} AdvancesRun(r: Race, k: nat)
    requires |r.calls| == 1 && r.calls[0].pc + k <= DONE
    ensures var s := Run(r, Advances(k));
      |s.calls| == 1 && s.calls[0].pc == r.calls[0].pc + k && s.next == r.next && s.at == r.at
  {
    hide Atomic;
    if k > 0 {
      AdvancesRun(r, k - 1);
      assert Advances(k)[..k - 1] == Advances(k - 1);
    }
  }

  lemma {:induction false} StoresRun(r: Race, k: nat)
    requires r.next + k <= STORES && |r.at| == r.next
    ensures var s := Run(r, Stores(k));
      && s.calls == r.calls && s.next == r.next + k && |s.at| == s.next && s.at[..r.next] == r.at
      && forall f :: r.next <= f < s.next ==> s.at[f] == Pcs(r.calls)
  {
    hide Zero;
    if k > 0 {
      StoresRun(r, k - 1);
      assert Stores(k)[..k - 1] == Stores(k - 1);
    }
  }

  lemma LandingRun(m0: Memory, nanos: U64, p: nat)
    requires p <= DONE
    ensures NoneBegins(Landing(p))
    ensures var r := Run(Alone(m0, nanos), Landing(p));
      Over(r) && |r.at| == STORES && forall f :: 0 <= f < STORES ==> At(r, f) == p
  {
    hide Run;
    var r0 := Alone(m0, nanos);
    RunConcat(r0, Advances(p) + Stores(STORES), Advances(DONE - p));
    RunConcat(r0, Advances(p), Stores(STORES));
    AdvancesRun(r0, p);
    var r1 := Run(r0, Advances(p));
    StoresRun(r1, STORES);
    AdvancesRun(Run(r1, Stores(STORES)), DONE - p);
  }

  /** A reset between a call's bucket and its total opens a window whose total exceeds its buckets. */
  lemma TotalWithoutABucket(m0: Memory, nanos: U64)
    ensures var c := Run(Alone(m0, nanos), Landing(2)).memory.cells;
      c.total == 1 && c.counts == Empty().counts
  {
    hide Run, Landing, SlotOf, Clamp, At;
    LandingRun(m0, nanos, 2);
    SoleFields(m0, nanos, Landing(2));
  }

  /** And one between its load and its store of the sum brings back everything summed before the reset. */
  lemma OldSumReturns(m0: Memory, nanos: U64)
    ensures Run(Alone(m0, nanos), Landing(4)).memory.sum == SaturatingAdd(m0.sum, Clamp(nanos))
  {
    hide Run, Landing, Clamp, At;
    LandingRun(m0, nanos, 4);
    ResetSum(m0, nanos, Landing(4));
  }
}
