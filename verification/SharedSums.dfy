/**
 * The running sum of a shared shard. Unlike the other counters it is loaded in one atomic step and
 * stored back in another, so it is exact only while no store lands between another call's load and
 * its store.
 */
module SharedSums {
  import opened Words
  import opened Recording
  import opened SharedRecorder

  /** The samples of the calls dealt to one shard, in the order the calls began. */
  function ShardSamples(calls: seq<Call>, shard: nat): seq<U64>
  {
    if calls == [] then []
    else
      var last := calls[|calls| - 1];
      ShardSamples(calls[..|calls| - 1], shard) + if last.shard == shard then [last.nanos] else []
  }

  /** What a call has stored into its shard's sum. */
  function Added(call: Call, shard: nat): nat
  {
    if call.shard == shard && 5 <= call.pc then Clamp(call.nanos) else 0
  }

  function Stored(calls: seq<Call>, shard: nat): nat
  {
    if calls == [] then 0 else Stored(calls[..|calls| - 1], shard) + Added(calls[|calls| - 1], shard)
  }

  lemma {:induction false} StoredUpdate(calls: seq<Call>, i: nat, call: Call, shard: nat)
    requires i < |calls|
    ensures Stored(calls[i := call], shard) == Stored(calls, shard) - Added(calls[i], shard) + Added(call, shard)
    ensures Added(calls[i], shard) <= Stored(calls, shard)
  {
    hide Added;
    var last := |calls| - 1;
    if i == last {
      assert calls[i := call][..last] == calls[..last];
    } else {
      assert calls[i := call][..last] == calls[..last][i := call];
      StoredUpdate(calls[..last], i, call, shard);
    }
  }

  /** Once every call has returned, what was stored is every sample of the shard. */
  lemma {:induction false} StoredAtEnd(calls: seq<Call>, shard: nat)
    requires forall i :: 0 <= i < |calls| ==> calls[i].pc == DONE
    ensures Stored(calls, shard) == SumOf(ShardSamples(calls, shard))
  {
    hide Clamp;
    if calls != [] {
      var init, last := calls[..|calls| - 1], calls[|calls| - 1];
      StoredAtEnd(init, shard);
      if last.shard == shard {
        SummariseAppend(ShardSamples(init, shard), last.nanos);
      }
      assert ShardSamples(init, shard) + [] == ShardSamples(init, shard);
    }
  }

  /** Call `i` has loaded the shard's sum and not yet stored it back. */
  ghost predicate Loaded(s: State, i: nat, shard: nat): (loaded: bool)
    ensures loaded ==> i < |s.calls|
  {
    i < |s.calls| && s.calls[i].shard == shard && s.calls[i].pc == 4
  }

  /** The step stores to the shard while another call holds a sum it has loaded. */
  ghost predicate Overlap(s: State, t: State, shard: nat)
  {
    exists i: nat, k: nat :: Step(s, t, i) && Loaded(s, i, shard) && Loaded(s, k, shard) && k != i
  }

  /** No store to the shard ever lands between another call's load and its store. */
  ghost predicate Serial(run: seq<State>, shard: nat)
  {
    forall n :: 0 <= n < |run| - 1 ==> !Overlap(run[n], run[n + 1], shard)
  }

  // ---------------------------------------------------------------- while nothing overlaps

  /** The sum is everything stored so far, capped, and so is every loaded copy of it. */
  ghost predicate Exact(s: State, shard: nat)
  {
    && shard < |s.shards| && s.shards[shard].sum == Min(Stored(s.calls, shard), U64_MAX)
    && forall i: nat :: Loaded(s, i, shard) ==> s.calls[i].carried == s.shards[shard].sum
  }

  /** The sum, and every loaded copy, is at most everything stored so far. */
  ghost predicate AtMost(s: State, shard: nat)
  {
    && shard < |s.shards| && s.shards[shard].sum <= Stored(s.calls, shard)
    && forall i: nat :: Loaded(s, i, shard) ==> s.calls[i].carried <= Stored(s.calls, shard)
  }

  /** What one step of call `i` does to a shard's sum, to what is stored and to the loaded copies. */
  lemma StepSum(s: State, t: State, i: nat, shard: nat)
    requires Step(s, t, i) && shard < |s.shards|
    ensures var mine, value := s.calls[i].shard == shard, Clamp(s.calls[i].nanos);
      && |t.shards| == |s.shards| && |t.calls| == |s.calls|
      && (forall k: nat :: k != i ==> (Loaded(t, k, shard) <==> Loaded(s, k, shard)) && (k < |s.calls| ==> t.calls[k] == s.calls[k]))
      && (Loaded(t, i, shard) <==> mine && s.calls[i].pc == 3)
      && !(Loaded(s, i, shard) && Loaded(t, i, shard))
      && (Loaded(t, i, shard) ==> t.calls[i].carried == s.shards[shard].sum)
      && t.shards[shard].sum
         == (if Loaded(s, i, shard) then SaturatingAdd(s.calls[i].carried, value) else s.shards[shard].sum)
      && Stored(t.calls, shard) == Stored(s.calls, shard) + (if Loaded(s, i, shard) then value else 0)
  {
    hide Stored, Clamp;
    var call := s.calls[i];
    var m := s.shards[call.shard];
    StoredUpdate(s.calls, i, Advance(m, call), shard);
    AtomicSum(m, call);
  }

  lemma AtomicSum(m: Memory, call: Call)
    ensures Atomic(m, call).sum == if call.pc == 4 then SaturatingAdd(call.carried, Clamp(call.nanos)) else m.sum
  {
  }

  lemma BeginSum(s: State, t: State, at: nat, nanos: U64, shard: nat)
    requires Begin(s, t, at, nanos)
    ensures t.shards == s.shards && Stored(t.calls, shard) == Stored(s.calls, shard)
    ensures forall k: nat :: Loaded(t, k, shard) <==> Loaded(s, k, shard)
    ensures forall k: nat :: Loaded(s, k, shard) ==> t.calls[k] == s.calls[k]
  {
    assert t.calls[..|s.calls|] == s.calls;
  }

  lemma ExactStep(s: State, t: State, shard: nat)
    requires Next(s, t) && Exact(s, shard) && !Overlap(s, t, shard)
    ensures Exact(t, shard)
  {
    hide Stored, Clamp, Step, Begin, Loaded;
    if at: nat, nanos: U64 :| Begin(s, t, at, nanos) {
      BeginSum(s, t, at, nanos, shard);
    } else {
      var i: nat :| Step(s, t, i);
      StepSum(s, t, i, shard);
      if Loaded(s, i, shard) {
        forall k: nat ensures !Loaded(t, k, shard) {
          assert k != i ==> !Loaded(s, k, shard);
        }
      } else {
        forall k: nat | Loaded(t, k, shard) ensures t.calls[k].carried == t.shards[shard].sum {
          assert k != i ==> Loaded(s, k, shard);
        }
      }
    }
  }

  lemma AtMostStep(s: State, t: State, shard: nat)
    requires Next(s, t) && AtMost(s, shard)
    ensures AtMost(t, shard)
  {
    hide Stored, Clamp, Step, Begin, Loaded;
    if at: nat, nanos: U64 :| Begin(s, t, at, nanos) {
      BeginSum(s, t, at, nanos, shard);
    } else {
      var i: nat :| Step(s, t, i);
      StepSum(s, t, i, shard);
    }
  }

  lemma InitSum(s: State, shard: nat)
    requires Init(s) && shard < |s.shards|
    ensures Exact(s, shard) && AtMost(s, shard)
  {
  }

  lemma {:induction false} ShardCountFixed(run: seq<State>)
    requires Run(run)
    ensures |run[|run| - 1].shards| == |run[0].shards|
  {
    var last := |run| - 1;
    if last != 0 {
      ShardCountFixed(run[..last]);
      assert Next(run[last - 1], run[last]);
    }
  }

  lemma {:induction false} SerialRunExact(run: seq<State>, shard: nat)
    requires Run(run) && Serial(run, shard) && shard < |run[0].shards|
    ensures Exact(run[|run| - 1], shard)
    decreases |run|
  {
    hide Exact, Overlap, Next;
    var last := |run| - 1;
    if last == 0 {
      InitSum(run[0], shard);
    } else {
      var init := run[..last];
      assert forall n :: 0 <= n < |init| ==> init[n] == run[n];
      SerialRunExact(init, shard);
      assert Next(run[last - 1], run[last]) && !Overlap(run[last - 1], run[last], shard);
      ExactStep(run[last - 1], run[last], shard);
    }
  }

  lemma {:induction false} RunAtMost(run: seq<State>, shard: nat)
    requires Run(run) && shard < |run[0].shards|
    ensures AtMost(run[|run| - 1], shard)
    decreases |run|
  {
    hide AtMost, Next;
    var last := |run| - 1;
    if last == 0 {
      InitSum(run[0], shard);
    } else {
      RunAtMost(run[..last], shard);
      assert Next(run[last - 1], run[last]);
      AtMostStep(run[last - 1], run[last], shard);
    }
  }

  /** With no overlapping store, the sum at quiescence is the saturating sum of the shard's samples. */
  lemma SerialSumIsExact(run: seq<State>, shard: nat)
    requires Run(run) && Quiescent(run[|run| - 1]) && Serial(run, shard) && shard < |run[0].shards|
    ensures var s := run[|run| - 1];
      |s.shards| == |run[0].shards|
      && s.shards[shard].sum == Min(SumOf(ShardSamples(s.calls, shard)), U64_MAX)
  {
    hide Run, Serial, Stored, ShardSamples;
    SerialRunExact(run, shard);
    ShardCountFixed(run);
    StoredAtEnd(run[|run| - 1].calls, shard);
  }

  // ---------------------------------------------------------------- after an overlap

  /** No sample of the shard is zero. */
  ghost predicate Positive(s: State, shard: nat)
  {
    forall i: nat :: i < |s.calls| && s.calls[i].shard == shard ==> 0 < s.calls[i].nanos
  }

  /** Some loaded copy is stale, or the sum and every loaded copy are already short. */
  ghost predicate Doomed(s: State, shard: nat)
  {
    && shard < |s.shards|
    && ((exists k: nat :: Loaded(s, k, shard) && s.calls[k].carried < Stored(s.calls, shard))
        || (s.shards[shard].sum < Stored(s.calls, shard)
            && forall k: nat :: Loaded(s, k, shard) ==> s.calls[k].carried < Stored(s.calls, shard)))
  }

  lemma NextPositive(s: State, t: State, shard: nat)
    requires Next(s, t) && Positive(t, shard)
    ensures Positive(s, shard)
  {
    if at: nat, nanos: U64 :| Begin(s, t, at, nanos) {
      assert forall k :: 0 <= k < |s.calls| ==> t.calls[k] == s.calls[k];
    } else {
      var i: nat :| Step(s, t, i);
      assert forall k :: 0 <= k < |s.calls| ==> t.calls[k].shard == s.calls[k].shard && t.calls[k].nanos == s.calls[k].nanos;
    }
  }

  lemma PositiveAdds(s: State, i: nat, shard: nat)
    requires Positive(s, shard) && Loaded(s, i, shard)
    ensures 0 < Clamp(s.calls[i].nanos)
  {
  }

  lemma OverlapDooms(s: State, t: State, shard: nat)
    requires Exact(s, shard) && Positive(s, shard) && Overlap(s, t, shard)
    ensures Doomed(t, shard)
  {
    hide Stored, Clamp, Step, Loaded, Positive;
    var i: nat, k: nat :| Step(s, t, i) && Loaded(s, i, shard) && Loaded(s, k, shard) && k != i;
    StepSum(s, t, i, shard);
    PositiveAdds(s, i, shard);
    assert Loaded(t, k, shard) && t.calls[k].carried < Stored(t.calls, shard);
  }

  lemma DoomedStep(s: State, t: State, shard: nat)
    requires Next(s, t) && Doomed(s, shard) && AtMost(s, shard) && Positive(s, shard)
    ensures Doomed(t, shard)
  {
    hide Stored, Clamp, Step, Begin, Loaded, Positive;
    if at: nat, nanos: U64 :| Begin(s, t, at, nanos) {
      BeginSum(s, t, at, nanos, shard);
      DoomedBegins(s, t, shard);
    } else {
      var i: nat :| Step(s, t, i);
      StepSum(s, t, i, shard);
      if Loaded(s, i, shard) {
        PositiveAdds(s, i, shard);
        DoomedStores(s, t, i, shard);
      } else {
        DoomedWaits(s, t, i, shard);
      }
    }
  }

  lemma DoomedBegins(s: State, t: State, shard: nat)
    requires Doomed(s, shard) && t.shards == s.shards && Stored(t.calls, shard) == Stored(s.calls, shard)
    requires forall k: nat :: Loaded(t, k, shard) <==> Loaded(s, k, shard)
    requires forall k: nat :: Loaded(s, k, shard) ==> k < |t.calls| && t.calls[k] == s.calls[k]
    ensures Doomed(t, shard)
  {
    hide Stored, Loaded;
    if k: nat :| Loaded(s, k, shard) && s.calls[k].carried < Stored(s.calls, shard) {
      assert Loaded(t, k, shard) && t.calls[k].carried < Stored(t.calls, shard);
    }
  }

  /** A store keeps the state doomed: a stale copy stays stale, or it is what has just been stored. */
  lemma DoomedStores(s: State, t: State, i: nat, shard: nat)
    requires Doomed(s, shard) && AtMost(s, shard) && Step(s, t, i) && Loaded(s, i, shard)
    requires 0 < Clamp(s.calls[i].nanos)
    ensures Doomed(t, shard)
  {
    hide Stored, Clamp, Step, Loaded;
    StepSum(s, t, i, shard);
    if k: nat :| k != i && Loaded(s, k, shard) && s.calls[k].carried < Stored(s.calls, shard) {
        assert Loaded(t, k, shard) && t.calls[k].carried < Stored(t.calls, shard);
    } else {
      assert s.calls[i].carried < Stored(s.calls, shard) by {
        if k: nat :| Loaded(s, k, shard) && s.calls[k].carried < Stored(s.calls, shard) {
          assert k == i;
        }
      }
      forall k: nat | Loaded(t, k, shard) ensures t.calls[k].carried < Stored(t.calls, shard) {
        assert k != i;
      }
    }
  }

  lemma DoomedWaits(s: State, t: State, i: nat, shard: nat)
    requires Doomed(s, shard) && Step(s, t, i) && !Loaded(s, i, shard)
    ensures Doomed(t, shard)
  {
    hide Stored, Clamp, Step, Loaded;
    StepSum(s, t, i, shard);
    if k: nat :| Loaded(s, k, shard) && s.calls[k].carried < Stored(s.calls, shard) {
        assert Loaded(t, k, shard) && t.calls[k].carried < Stored(t.calls, shard);
    } else {
      forall k: nat | Loaded(t, k, shard) ensures t.calls[k].carried < Stored(t.calls, shard) {
      }
    }
  }

  /** A run is a shorter run and one more step. */
  lemma RunSplits(run: seq<State>)
    requires Run(run) && 1 < |run|
    ensures Run(run[..|run| - 1]) && Next(run[|run| - 2], run[|run| - 1]) && run[..|run| - 1][0] == run[0]
  {
    hide Next, Init;
  }

  /** The first overlap of a run that was serial until its last step is that step. */
  lemma LastStepOverlaps(run: seq<State>, shard: nat)
    requires !Serial(run, shard) && 1 < |run| && Serial(run[..|run| - 1], shard)
    ensures Overlap(run[|run| - 2], run[|run| - 1], shard)
  {
    hide Overlap;
    var init := run[..|run| - 1];
    forall n | 0 <= n < |run| - 2 ensures !Overlap(run[n], run[n + 1], shard) {
      assert init[n] == run[n] && init[n + 1] == run[n + 1];
    }
  }

  lemma SerialWhenAlone(run: seq<State>, shard: nat)
    requires |run| <= 1
    ensures Serial(run, shard)
  {
  }

  lemma {:induction false} OverlappedRunDoomed(run: seq<State>, shard: nat)
    requires Run(run) && !Serial(run, shard) && shard < |run[0].shards| && Positive(run[|run| - 1], shard)
    ensures Doomed(run[|run| - 1], shard)
    decreases |run|
  {
    hide Run, Serial, Exact, Overlap, Next, Positive, Doomed, AtMost;
    if |run| <= 1 {
      SerialWhenAlone(run, shard);
    } else {
      var init, s, t := run[..|run| - 1], run[|run| - 2], run[|run| - 1];
      RunSplits(run);
      NextPositive(s, t, shard);
      if Serial(init, shard) {
        SerialRunExact(init, shard);
        LastStepOverlaps(run, shard);
        OverlapDooms(s, t, shard);
      } else {
        OverlappedRunDoomed(init, shard);
        RunAtMost(init, shard);
        DoomedStep(s, t, shard);
      }
    }
  }

  /** One overlapping store is never made good: of positive samples, the sum at quiescence is short. */
  lemma OverlappedSumIsShort(run: seq<State>, shard: nat)
    requires Run(run) && Quiescent(run[|run| - 1]) && shard < |run[0].shards|
    requires !Serial(run, shard) && Positive(run[|run| - 1], shard)
    ensures var s := run[|run| - 1];
      |s.shards| == |run[0].shards| && s.shards[shard].sum < SumOf(ShardSamples(s.calls, shard))
  {
    hide Run, Serial, Stored, ShardSamples, Positive;
    OverlappedRunDoomed(run, shard);
    ShardCountFixed(run);
    StoredAtEnd(run[|run| - 1].calls, shard);
  }

  /**
   * Exactly when the running sum can be trusted: for positive samples whose total fits the word, in
   * every run, the sum at quiescence is their sum if and only if no store to the shard landed between
   * another call's load and its store.
   */
  lemma SumIsExactIff(run: seq<State>, shard: nat)
    requires Run(run) && Quiescent(run[|run| - 1]) && shard < |run[0].shards|
    requires Positive(run[|run| - 1], shard) && SumOf(ShardSamples(run[|run| - 1].calls, shard)) <= U64_MAX
    ensures var s := run[|run| - 1];
      |s.shards| == |run[0].shards|
      && (s.shards[shard].sum == SumOf(ShardSamples(s.calls, shard)) <==> Serial(run, shard))
  {
    hide Run, Serial, Stored, ShardSamples, Positive, Quiescent;
    if Serial(run, shard) {
      SerialSumIsExact(run, shard);
    } else {
      OverlappedSumIsShort(run, shard);
    }
  }

  // ---------------------------------------------------------------- a run that loses a sample

  /** One shard, and two calls on it at given steps with given loaded sums. */
  ghost predicate Two(s: State, x: U64, y: U64, p: nat, q: nat, c: U64, d: U64, sum: U64)
  {
    && |s.shards| == 1 && s.shards[0].sum == sum
    && s.calls == [Call(0, x, p, c), Call(0, y, q, d)]
  }

  lemma Extend(run: seq<State>, t: State)
    requires Run(run) && Next(run[|run| - 1], t)
    ensures Run(run + [t])
  {
    hide Next, Init;
    var longer := run + [t];
    assert forall k :: 0 <= k < |run| ==> longer[k] == run[k];
  }

  function StepState(s: State, i: nat): State
    requires i < |s.calls| && s.calls[i].shard < |s.shards|
  {
    var call := s.calls[i];
    State(s.shards[call.shard := Atomic(s.shards[call.shard], call)], s.calls[i := Advance(s.shards[call.shard], call)])
  }

  /** The first call takes its next step. */
  lemma First(run: seq<State>, x: U64, y: U64, p: nat, q: nat, c: U64, d: U64, sum: U64) returns (longer: seq<State>)
    requires Run(run) && Two(run[|run| - 1], x, y, p, q, c, d, sum) && p < DONE
    ensures Run(longer) && longer != []
    ensures Two(longer[|longer| - 1], x, y, p + 1, q, if p == 3 then sum else c, d,
                if p == 4 then SaturatingAdd(c, Clamp(x)) else sum)
  {
    hide Run, Atomic, Clamp;
    var s := run[|run| - 1];
    var t := StepState(s, 0);
    AtomicSum(s.shards[0], s.calls[0]);
    assert Step(s, t, 0);
    Extend(run, t);
    longer := run + [t];
  }

  /** The second call takes its next step. */
  lemma Second(run: seq<State>, x: U64, y: U64, p: nat, q: nat, c: U64, d: U64, sum: U64) returns (longer: seq<State>)
    requires Run(run) && Two(run[|run| - 1], x, y, p, q, c, d, sum) && q < DONE
    ensures Run(longer) && longer != []
    ensures Two(longer[|longer| - 1], x, y, p, q + 1, c, if q == 3 then sum else d,
                if q == 4 then SaturatingAdd(d, Clamp(y)) else sum)
  {
    hide Run, Atomic, Clamp;
    var s := run[|run| - 1];
    var t := StepState(s, 1);
    AtomicSum(s.shards[0], s.calls[1]);
    assert Step(s, t, 1);
    Extend(run, t);
    longer := run + [t];
  }

  lemma Starts(x: U64, y: U64) returns (run: seq<State>)
    ensures Run(run) && run != [] && Two(run[|run| - 1], x, y, 0, 0, 0, 0, 0) && |run[0].shards| == 1
  {
    hide Empty;
    var s := State([Memory(Empty(), 0)], []);
    var t := s.(calls := s.calls + [Call(0, x, 0, 0)]);
    var u := t.(calls := t.calls + [Call(0, y, 0, 0)]);
    assert Begin(s, t, 0, x) && Begin(t, u, 0, y);
    run := [s, t, u];
  }

  /** Both calls load the sum before either stores it; then each stores, and both return. */
  lemma OverlappingRun(x: U64, y: U64) returns (run: seq<State>)
    ensures Run(run) && run != [] && Two(run[|run| - 1], x, y, DONE, DONE, 0, 0, Clamp(y))
  {
    hide Run, Two, Clamp;
    run := Starts(x, y);
    run := First(run, x, y, 0, 0, 0, 0, 0);
    run := First(run, x, y, 1, 0, 0, 0, 0);
    run := First(run, x, y, 2, 0, 0, 0, 0);
    run := First(run, x, y, 3, 0, 0, 0, 0);
    run := Second(run, x, y, 4, 0, 0, 0, 0);
    run := Second(run, x, y, 4, 1, 0, 0, 0);
    run := Second(run, x, y, 4, 2, 0, 0, 0);
    run := Second(run, x, y, 4, 3, 0, 0, 0);
    run := First(run, x, y, 4, 4, 0, 0, 0);
    var once := SaturatingAdd(0, Clamp(x));
    run := Second(run, x, y, 5, 4, 0, 0, once);
    var sum := SaturatingAdd(0, Clamp(y));
    run := First(run, x, y, 5, 5, 0, 0, sum);
    run := First(run, x, y, 6, 5, 0, 0, sum);
    run := Second(run, x, y, 7, 5, 0, 0, sum);
    run := Second(run, x, y, 7, 6, 0, 0, sum);
  }

  lemma SumOfTwo(x: U64, y: U64)
    ensures SumOf([x, y]) == Clamp(x) + Clamp(y)
  {
    hide Clamp;
    assert [x, y][..1] == [x] && [x][..0] == [];
    assert SumOf([x]) == SumOf([]) + Clamp(x);
  }

  lemma SamplesOfTwo(x: U64, y: U64, p: nat, q: nat, c: U64, d: U64)
    ensures ShardSamples([Call(0, x, p, c), Call(0, y, q, d)], 0) == [x, y]
  {
    var first, second := Call(0, x, p, c), Call(0, y, q, d);
    assert [first, second][..1] == [first] && [first][..0] == [];
    assert ShardSamples([first], 0) == [] + [x];
  }

  /** A reachable quiescent state whose sum is short: two samples of one nanosecond, and a sum of one. */
  lemma ShortSum() returns (run: seq<State>)
    ensures Run(run) && Quiescent(run[|run| - 1])
    ensures var s := run[|run| - 1];
      |s.shards| == 1 && ShardSamples(s.calls, 0) == [1, 1] && s.shards[0].sum == 1 < SumOf(ShardSamples(s.calls, 0))
  {
    hide Run, SumOf, ShardSamples;
    run := OverlappingRun(1, 1);
    SamplesOfTwo(1, 1, DONE, DONE, 0, 0);
    SumOfTwo(1, 1);
  }
}
