/**
 * Recording from many threads at once. Every `record` call is a program of atomic steps on the
 * shard it was dealt; an adversarial scheduler interleaves the steps of any number of calls.
 */
module SharedRecorder {
  import opened Words
  import opened Buckets
  import opened Recording

  /** A call in progress: `pc` is the next atomic step, `carried` the running sum it last loaded. */
  datatype Call = Call(shard: nat, nanos: U64, pc: nat, carried: U64)

  /** A shard's memory: its counters and the running sum. */
  datatype Memory = Memory(cells: Summary, sum: U64)

  datatype State = State(shards: seq<Memory>, calls: seq<Call>)

  const DONE: nat := 7

  ghost predicate Init(s: State)
  {
    s.calls == [] && forall j :: 0 <= j < |s.shards| ==> s.shards[j] == Memory(Empty(), 0)
  }

  /** One atomic step of `call` on its shard's memory. */
  function Atomic(m: Memory, call: Call): Memory
  {
    var c, value := m.cells, Clamp(call.nanos);
    match call.pc
    case 0 => if CEILING_NANOS < call.nanos then m.(cells := c.(clamped := c.clamped + 1)) else m
    case 1 =>
      var slot := SlotOf(value);
      m.(cells := c.(counts := c.counts[slot := c.counts[slot] + 1]))
    case 2 => m.(cells := c.(total := c.total + 1))
    case 4 => m.(sum := SaturatingAdd(call.carried, value))
    case 5 => m.(cells := c.(max := Max(c.max, value)))
    case 6 => m.(cells := c.(min := Min(c.min, value)))
    case _ => m
  }

  /** The call after its atomic step: step 3 loads the running sum that step 4 stores back. */
  function Advance(m: Memory, call: Call): Call
  {
    if call.pc == 3 then call.(pc := 4, carried := m.sum) else call.(pc := call.pc + 1)
  }

  /** A thread starts recording `nanos` into `shard`. */
  ghost predicate Begin(s: State, t: State, shard: nat, nanos: U64)
  {
    shard < |s.shards| && t == s.(calls := s.calls + [Call(shard, nanos, 0, 0)])
  }

  /** The scheduler runs the next atomic step of call `i`. */
  ghost predicate Step(s: State, t: State, i: nat)
  {
    && i < |s.calls| && s.calls[i].pc < DONE && s.calls[i].shard < |s.shards|
    && var call := s.calls[i];
       t == State(s.shards[call.shard := Atomic(s.shards[call.shard], call)],
                  s.calls[i := Advance(s.shards[call.shard], call)])
  }

  ghost predicate Next(s: State, t: State)
  {
    (exists shard: nat, nanos: U64 :: Begin(s, t, shard, nanos)) || exists i: nat :: Step(s, t, i)
  }

  /** A run: an initial state and any interleaving of calls after it. */
  ghost predicate Run(run: seq<State>): (valid: bool)
    ensures valid ==> run != []
  {
    run != [] && Init(run[0]) && forall k :: 0 <= k < |run| - 1 ==> Next(run[k], run[k + 1])
  }

  ghost predicate Quiescent(s: State)
  {
    forall i :: 0 <= i < |s.calls| ==> s.calls[i].pc == DONE
  }

  // What the calls so far have contributed to one shard

  /** The part of a call's sample that its completed steps have put into its shard. */
  function Contribution(call: Call): Summary
  {
    var one := One(call.nanos);
    Cells(if call.pc <= 1 then Empty().counts else one.counts, if call.pc <= 2 then 0 else 1,
          if call.pc <= 6 then U64_MAX else one.min, if call.pc <= 5 then 0 else one.max,
          if call.pc == 0 then 0 else one.clamped)
  }

  function Share(calls: seq<Call>, shard: nat): Summary
  {
    if calls == [] then Empty()
    else
      var last := calls[|calls| - 1];
      Merge(Share(calls[..|calls| - 1], shard), if last.shard == shard then Contribution(last) else Empty())
  }

  /** The invariant: every shard holds exactly what the steps taken so far have contributed to it. */
  ghost predicate Accounted(s: State)
  {
    && (forall i :: 0 <= i < |s.calls| ==> s.calls[i].shard < |s.shards| && s.calls[i].pc <= DONE)
    && forall j :: 0 <= j < |s.shards| ==> s.shards[j].cells == Share(s.calls, j)
  }

  /** What one atomic step adds. */
  function Delta(call: Call): Summary
  {
    var one, none := One(call.nanos), Empty();
    match call.pc
    case 0 => none.(clamped := one.clamped)
    case 1 => none.(counts := one.counts)
    case 2 => none.(total := 1)
    case 5 => none.(max := one.max)
    case 6 => none.(min := one.min)
    case _ => none
  }

  lemma AtomicMergesDelta(m: Memory, call: Call)
    requires call.pc < DONE
    ensures Atomic(m, call).cells == Merge(m.cells, Delta(call))
  {
    hide SlotOf;
    SlotOfClamped(call.nanos);
    assert Atomic(m, call).cells.counts == Merge(m.cells, Delta(call)).counts;
  }

  lemma AdvanceMergesDelta(m: Memory, call: Call)
    requires call.pc < DONE
    ensures Contribution(Advance(m, call)) == Merge(Contribution(call), Delta(call))
  {
    hide SlotOf;
    assert Contribution(Advance(m, call)).counts == Merge(Contribution(call), Delta(call)).counts;
  }

  lemma {:induction false} ShareUpdate(calls: seq<Call>, i: nat, call: Call, d: Summary, shard: nat)
    requires i < |calls| && call.shard == calls[i].shard
    requires Contribution(call) == Merge(Contribution(calls[i]), d)
    ensures Share(calls[i := call], shard)
         == if call.shard == shard then Merge(Share(calls, shard), d) else Share(calls, shard)
  {
    hide Contribution, Merge, Empty;
    var last := |calls| - 1;
    var before := Share(calls[..last], shard);
    if i == last {
      assert calls[i := call][..last] == calls[..last];
      MergeAlgebra(before, Contribution(calls[i]), d);
    } else {
      var init := calls[..last];
      assert calls[i := call][..last] == init[i := call];
      ShareUpdate(init, i, call, d, shard);
      var theirs := if calls[last].shard == shard then Contribution(calls[last]) else Empty();
      MergeAlgebra(before, d, theirs);
      MergeAlgebra(before, theirs, d);
      MergeAlgebra(d, theirs, d);
    }
  }

  lemma StepAccounted(s: State, t: State, i: nat)
    requires Accounted(s) && Step(s, t, i)
    ensures Accounted(t)
  {
    hide Share, Contribution, Delta, Merge, Atomic;
    var call := s.calls[i];
    var m := s.shards[call.shard];
    AtomicMergesDelta(m, call);
    AdvanceMergesDelta(m, call);
    forall j | 0 <= j < |t.shards|
      ensures t.shards[j].cells == Share(t.calls, j)
    {
      ShareUpdate(s.calls, i, Advance(m, call), Delta(call), j);
    }
  }

  lemma BeginAccounted(s: State, t: State, shard: nat, nanos: U64)
    requires Accounted(s) && Begin(s, t, shard, nanos)
    ensures Accounted(t)
  {
    hide Merge;
    assert t.calls[..|s.calls|] == s.calls;
    forall j | 0 <= j < |t.shards|
      ensures t.shards[j].cells == Share(t.calls, j)
    {
      assert Contribution(t.calls[|s.calls|]) == Empty();
      MergeAlgebra(Share(s.calls, j), Empty(), Empty());
    }
  }

  /** Every interleaving keeps every shard accounted for. */
  lemma {:induction false} RunAccounted(run: seq<State>)
    requires Run(run)
    ensures Accounted(run[|run| - 1])
    decreases |run|
  {
    var last := |run| - 1;
    if last != 0 {
      var init := run[..last];
      RunAccounted(init);
      var s, t := run[last - 1], run[last];
      assert s == init[|init| - 1] && Next(s, t);
      if shard: nat, nanos: U64 :| Begin(s, t, shard, nanos) {
        BeginAccounted(s, t, shard, nanos);
      } else {
        var i: nat :| Step(s, t, i);
        StepAccounted(s, t, i);
      }
    }
  }

  // At quiescence

  /** The samples of every call, in the order the calls began. */
  function Recorded(calls: seq<Call>): (samples: seq<U64>)
  {
    if calls == [] then [] else Recorded(calls[..|calls| - 1]) + [calls[|calls| - 1].nanos]
  }

  /** The merge over the first `n` shards. */
  function MergeShards(shards: seq<Memory>, n: nat): Summary
    requires n <= |shards|
  {
    if n == 0 then Empty() else Merge(MergeShards(shards, n - 1), shards[n - 1].cells)
  }

  function MergeShares(calls: seq<Call>, n: nat): Summary
  {
    if n == 0 then Empty() else Merge(MergeShares(calls, n - 1), Share(calls, n - 1))
  }

  lemma {:induction false} MergeShardsAreShares(s: State, n: nat)
    requires Accounted(s) && n <= |s.shards|
    ensures MergeShards(s.shards, n) == MergeShares(s.calls, n)
  {
    hide Merge, Share;
    if n != 0 {
      MergeShardsAreShares(s, n - 1);
    }
  }

  lemma {:induction false} MergeSharesLast(calls: seq<Call>, n: nat)
    requires calls != []
    ensures var last := calls[|calls| - 1];
            MergeShares(calls, n) == Merge(MergeShares(calls[..|calls| - 1], n),
                                           if last.shard < n then Contribution(last) else Empty())
  {
    hide Merge, Contribution, Empty;
    var last, init := calls[|calls| - 1], calls[..|calls| - 1];
    if n == 0 {
      MergeAlgebra(Empty(), Empty(), Empty());
    } else {
      MergeSharesLast(calls, n - 1);
      var before, share := MergeShares(init, n - 1), Share(init, n - 1);
      var early := if last.shard < n - 1 then Contribution(last) else Empty();
      var here := if last.shard == n - 1 then Contribution(last) else Empty();
      MergeAlgebra(before, early, Merge(share, here));
      MergeAlgebra(early, share, here);
      MergeAlgebra(share, early, here);
      MergeAlgebra(before, share, Merge(early, here));
      MergeAlgebra(Contribution(last), Empty(), Empty());
      MergeAlgebra(Empty(), Empty(), Empty());
    }
  }

  lemma {:induction false} DoneSharesSummarise(calls: seq<Call>, n: nat)
    requires forall i :: 0 <= i < |calls| ==> calls[i].pc == DONE && calls[i].shard < n
    ensures MergeShares(calls, n) == Summarise(Recorded(calls))
  {
    hide Merge;
    if calls == [] {
      EmptyShares(n);
    } else {
      var init, last := calls[..|calls| - 1], calls[|calls| - 1];
      DoneSharesSummarise(init, n);
      MergeSharesLast(calls, n);
      SummariseAppend(Recorded(init), last.nanos);
      assert Contribution(last) == One(last.nanos);
    }
  }

  lemma {:induction false} EmptyShares(n: nat)
    ensures MergeShares([], n) == Empty()
  {
    hide Merge, Empty, Contribution;
    if n != 0 {
      EmptyShares(n - 1);
      MergeAlgebra(Empty(), Empty(), Empty());
    }
  }

  /**
   * Sharding and concurrency lose nothing: once every call has returned, the merged counters are
   * those of one unsharded recorder given the same samples in any order.
   */
  lemma QuiescentMergeIsSequential(run: seq<State>, samples: seq<U64>)
    requires Run(run) && Quiescent(run[|run| - 1])
    requires multiset(samples) == multiset(Recorded(run[|run| - 1].calls))
    ensures var s := run[|run| - 1];
            MergeShards(s.shards, |s.shards|) == Summarise(samples)
  {
    hide MergeShards, MergeShares, Summarise, Share;
    var s := run[|run| - 1];
    RunAccounted(run);
    MergeShardsAreShares(s, |s.shards|);
    DoneSharesSummarise(s.calls, |s.shards|);
    SummariseAnyOrder(samples, Recorded(s.calls));
  }

  /**
   * The running sum is not among those counters: it is loaded and stored in two steps, so two calls
   * that load it before either stores keep only the second of their two additions. The first is lost
   * unless it was zero or the second alone saturates the sum.
   */
  lemma SumLosesAnUpdate(s: State, t: State, u: State, v: State, w: State, i: nat, j: nat)
    requires i < |s.calls| && j < |s.calls| && i != j
    requires s.calls[i].pc == s.calls[j].pc == 3 && s.calls[i].shard == s.calls[j].shard < |s.shards|
    requires Step(s, t, i) && Step(t, u, j) && Step(u, v, i) && Step(v, w, j)
    ensures var shard := s.calls[i].shard;
            var before, first, second := s.shards[shard].sum, Clamp(s.calls[i].nanos), Clamp(s.calls[j].nanos);
            && w.shards[shard].sum == SaturatingAdd(before, second)
            && (w.shards[shard].sum < SaturatingAdd(SaturatingAdd(before, first), second)
                <==> 0 < first && before + second < U64_MAX)
  {
  }
}
