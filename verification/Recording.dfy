/**
 * The latency recorder: what a set of samples summarises to, the recorder that accumulates it in
 * place, the merge across shards, and the bucketed quantile read back from it.
 */
module Recording {
  import opened Words
  import opened Counting
  import opened Buckets

  // What samples summarise to

  /** The counters of one recorder or one merge, without the running sum. */
  datatype Cells = Cells(counts: seq<nat>, total: nat, min: U64, max: U64, clamped: nat)

  type Summary = c: Cells | |c.counts| == SLOTS witness Cells(seq(SLOTS, _ => 0), 0, 0, 0, 0)

  /** A recorded latency, clamped to the largest one a bucket can represent. */
  function Clamp(nanos: U64): U64 { Min(nanos, CEILING_NANOS) }

  function Empty(): Summary { Cells(seq(SLOTS, _ => 0), 0, U64_MAX, 0, 0) }

  /** The summary of a single sample. */
  function One(nanos: U64): Summary
  {
    Cells(seq(SLOTS, _ => 0)[SlotOf(nanos) := 1], 1, Clamp(nanos), Clamp(nanos),
          if CEILING_NANOS < nanos then 1 else 0)
  }

  function Merge(a: Summary, b: Summary): Summary
  {
    Cells(seq(SLOTS, i requires 0 <= i < SLOTS => a.counts[i] + b.counts[i]), a.total + b.total,
          Min(a.min, b.min), Max(a.max, b.max), a.clamped + b.clamped)
  }

  function Summarise(samples: seq<U64>): Summary
  {
    if samples == [] then Empty()
    else Merge(Summarise(samples[..|samples| - 1]), One(samples[|samples| - 1]))
  }

  function SumOf(samples: seq<U64>): nat
  {
    if samples == [] then 0 else SumOf(samples[..|samples| - 1]) + Clamp(samples[|samples| - 1])
  }

  function Slots(samples: seq<U64>): (slots: seq<int>)
    ensures |slots| == |samples|
    ensures forall i :: 0 <= i < |samples| ==> slots[i] == SlotOf(samples[i])
  {
    seq(|samples|, i requires 0 <= i < |samples| => SlotOf(samples[i]))
  }

  /** Clamping a latency leaves it in its bucket. */
  lemma SlotOfClamped(nanos: U64)
    ensures SlotOf(Clamp(nanos)) == SlotOf(nanos)
  {
    if CEILING_NANOS < nanos {
      SlotAtCeiling(nanos);
      SlotAtCeiling(CEILING_NANOS);
    }
  }

  /** Merging is commutative and associative, with the empty summary as its unit. */
  lemma MergeAlgebra(a: Summary, b: Summary, c: Summary)
    ensures Merge(a, b) == Merge(b, a)
    ensures Merge(Merge(a, b), c) == Merge(a, Merge(b, c))
    ensures Merge(Empty(), a) == a == Merge(a, Empty())
  {
  }

  lemma MergeExtremes(c: Summary, nanos: U64)
    ensures Merge(c, One(nanos)).min == Min(c.min, Clamp(nanos))
    ensures Merge(c, One(nanos)).max == Max(c.max, Clamp(nanos))
  {
  }

  lemma SummariseAppend(samples: seq<U64>, nanos: U64)
    ensures Summarise(samples + [nanos]) == Merge(Summarise(samples), One(nanos))
    ensures SumOf(samples + [nanos]) == SumOf(samples) + Clamp(nanos)
  {
    assert (samples + [nanos])[..|samples|] == samples;
  }

  lemma {:induction false} SummariseConcat(a: seq<U64>, b: seq<U64>)
    ensures Summarise(a + b) == Merge(Summarise(a), Summarise(b))
  {
    if b == [] {
      assert a + b == a;
      MergeAlgebra(Summarise(a), Empty(), Empty());
    } else {
      var init, last := b[..|b| - 1], b[|b| - 1];
      assert (a + b)[..|a + b| - 1] == a + init;
      SummariseConcat(a, init);
      MergeAlgebra(Summarise(a), Summarise(init), One(last));
    }
  }

  /** Recording order does not matter: a summary is a function of the multiset of samples. */
  lemma {:induction false} SummariseAnyOrder(a: seq<U64>, b: seq<U64>)
    requires multiset(a) == multiset(b)
    ensures Summarise(a) == Summarise(b)
  {
    if a == [] {
      assert |multiset(a)| == |a| && |multiset(b)| == |b|;
    } else {
      var init, x := a[..|a| - 1], a[|a| - 1];
      var p, q := SplitPermutation(a, b);
      SummariseAnyOrder(init, p + q);
      SummariseConcat(p, q);
      SummariseConcat(p + [x], q);
      SummariseAppend(p, x);
      MergeAlgebra(Summarise(p), One(x), Summarise(q));
      MergeAlgebra(Summarise(p), Summarise(q), One(x));
      MergeAlgebra(One(x), Summarise(q), Empty());
    }
  }

  /** Each bucket counts exactly the samples whose slot it is. */
  lemma {:induction false} SummaryCounts(samples: seq<U64>, slot: nat)
    requires slot < SLOTS
    ensures Summarise(samples).counts[slot] == multiset(Slots(samples))[slot]
  {
    hide SlotOf;
    if samples != [] {
      var init, x := samples[..|samples| - 1], samples[|samples| - 1];
      SummaryCounts(init, slot);
      assert Slots(samples) == Slots(init) + [SlotOf(x)];
    }
  }

  /** The two tallies: every sample, and the samples past the ceiling. */
  lemma {:induction false} SummaryTallies(samples: seq<U64>)
    ensures Summarise(samples).total == |samples|
    ensures Summarise(samples).clamped == |samples| - CountLe(samples, CEILING_NANOS)
  {
    if samples != [] {
      SummaryTallies(samples[..|samples| - 1]);
    }
  }

  /** The extremes are the exact least and greatest clamped samples. */
  lemma {:induction false} SummaryExtremes(samples: seq<U64>)
    ensures var c := Summarise(samples);
            && (samples == [] ==> c.min == U64_MAX && c.max == 0)
            && (samples != [] ==> exists i, j :: 0 <= i < |samples| && 0 <= j < |samples|
                                             && Clamp(samples[i]) == c.min && Clamp(samples[j]) == c.max)
            && forall i :: 0 <= i < |samples| ==> c.min <= Clamp(samples[i]) <= c.max
  {
    hide SlotOf, Merge;
    if samples != [] {
      var last := |samples| - 1;
      var init, x := samples[..last], samples[last];
      var c, was := Summarise(samples), Summarise(init);
      SummaryExtremes(init);
      MergeExtremes(was, x);
      var i: nat, j: nat := last, last;
      if init != [] {
        var k, l :| 0 <= k < |init| && 0 <= l < |init| && Clamp(init[k]) == was.min && Clamp(init[l]) == was.max;
        i := if was.min <= Clamp(x) then k else last;
        j := if was.max >= Clamp(x) then l else last;
      }
      assert Clamp(samples[i]) == c.min && Clamp(samples[j]) == c.max;
    }
  }
}
