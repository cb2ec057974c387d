/**
 * The recorder and its histogram as the program updates them: one pass per sample, a merge over
 * shards, and a quantile read by accumulating buckets.
 */
module Recorders {
  import opened Words
  import opened Counting
  import opened Buckets
  import opened OrderStatistics
  import opened Recording

  // The bucketed quantile and the exact order statistic it refines

  /** A quantile fraction clamped to `[0, 1]`, as a numerator over `den`. */
  function ClampFraction(num: int, den: nat): (n: nat)
    ensures n <= den
  {
    Max(0, Min(num, den))
  }

  /** The exact nearest-rank sample of the fraction `num / den`. */
  function QuantileSample(samples: seq<U64>, num: int, den: nat): (v: U64)
    requires 0 < den && samples != []
    ensures v in samples
  {
    OrderStatistic(samples, NearestRank(|samples|, ClampFraction(num, den), den))
  }

  /** What a bucketed quantile must report: the midpoint of the bucket holding the exact one. */
  function Quantile(samples: seq<U64>, num: int, den: nat): nat
    requires 0 < den
  {
    if samples == [] then 0 else SlotValue(SlotOf(QuantileSample(samples, num, den)))
  }

  function SumUpTo(counts: seq<nat>, k: nat): nat
    requires k <= |counts|
  {
    if k == 0 then 0 else SumUpTo(counts, k - 1) + counts[k - 1]
  }

  lemma {:induction false} SumUpToEmpty(k: nat)
    requires k <= SLOTS
    ensures SumUpTo(Empty().counts, k) == 0
  {
    if k != 0 {
      SumUpToEmpty(k - 1);
    }
  }

  lemma {:induction false} SumUpToOne(nanos: U64, k: nat)
    requires k <= SLOTS
    ensures SumUpTo(One(nanos).counts, k) == if SlotOf(nanos) < k then 1 else 0
  {
    if k != 0 {
      SumUpToOne(nanos, k - 1);
    }
  }

  lemma {:induction false} SumUpToMerge(a: Summary, b: Summary, k: nat)
    requires k <= SLOTS
    ensures SumUpTo(Merge(a, b).counts, k) == SumUpTo(a.counts, k) + SumUpTo(b.counts, k)
  {
    if k != 0 {
      SumUpToMerge(a, b, k - 1);
    }
  }

  /** Accumulated buckets count the samples whose slot has been passed. */
  lemma {:induction false} CumulativeCount(samples: seq<U64>, k: nat)
    requires k <= SLOTS
    ensures SumUpTo(Summarise(samples).counts, k) == CountLe(Slots(samples), k - 1)
  {
    hide SlotOf, Merge, Empty, One;
    if samples == [] {
      SumUpToEmpty(k);
    } else {
      var init, x := samples[..|samples| - 1], samples[|samples| - 1];
      CumulativeCount(init, k);
      SumUpToMerge(Summarise(init), One(x), k);
      SumUpToOne(x, k);
      assert Slots(samples) == Slots(init) + [SlotOf(x)];
    }
  }

  /** The buckets add up to the total. */
  lemma BucketsSumToTotal(samples: seq<U64>)
    ensures SumUpTo(Summarise(samples).counts, SLOTS) == Summarise(samples).total == |samples|
  {
    CumulativeCount(samples, SLOTS);
    CountLeAll(Slots(samples), SLOTS - 1);
    SummaryTallies(samples);
  }

  lemma {:induction false} SlotCountBounds(samples: seq<U64>, v: nat)
    ensures CountLe(samples, v) <= CountLe(Slots(samples), SlotOf(v))
    ensures CountLe(Slots(samples), SlotOf(v) - 1) <= CountLe(samples, v - 1)
  {
    if samples != [] {
      var init, x := samples[..|samples| - 1], samples[|samples| - 1];
      SlotCountBounds(init, v);
      assert Slots(samples)[..|samples| - 1] == Slots(init);
      if x <= v {
        SlotMonotone(x, v);
      } else {
        SlotMonotone(v, x);
      }
    }
  }

  /** Bucketing commutes with ranking: the k-th slot is the slot of the k-th sample. */
  lemma SlotOfRank(samples: seq<U64>, k: nat)
    requires 1 <= k <= |samples|
    ensures OrderStatistic(Slots(samples), k) == SlotOf(OrderStatistic(samples, k))
  {
    hide SlotOf, Sort;
    var v := OrderStatistic(samples, k);
    OrderStatisticIffRank(samples, k, v);
    SlotCountBounds(samples, v);
    OrderStatisticIffRank(Slots(samples), k, SlotOf(v));
  }

  /** The first bucket to accumulate `k` samples is the bucket of the k-th sample. */
  lemma FirstBucketAtRank(samples: seq<U64>, k: nat, slot: nat)
    requires 1 <= k <= |samples| && slot < SLOTS
    requires SumUpTo(Summarise(samples).counts, slot) < k <= SumUpTo(Summarise(samples).counts, slot + 1)
    ensures SlotOf(OrderStatistic(samples, k)) == slot
  {
    CumulativeCount(samples, slot);
    CumulativeCount(samples, slot + 1);
    OrderStatisticIffRank(Slots(samples), k, slot);
    SlotOfRank(samples, k);
  }

  /** The recorder's quantisation error: at most one part in 512 of the exact order statistic. */
  lemma QuantileError(samples: seq<U64>, num: int, den: nat)
    requires 0 < den && samples != []
    requires forall i :: 0 <= i < |samples| ==> samples[i] < CEILING_NANOS
    ensures var v := QuantileSample(samples, num, den);
            -(v / 512) <= Quantile(samples, num, den) - v <= v / 512
  {
    MidpointError(QuantileSample(samples, num, den));
  }

  /** Raising samples or the fraction never lowers the reported quantile. */
  lemma QuantileMonotone(a: seq<U64>, b: seq<U64>, num: int, num': int, den: nat)
    requires 0 < den && num <= num'
    requires |a| == |b| && forall i :: 0 <= i < |a| ==> a[i] <= b[i]
    ensures Quantile(a, num, den) <= Quantile(b, num', den)
  {
    if a != [] {
      NearestRankMonotone(|a|, ClampFraction(num, den), ClampFraction(num', den), den);
      OrderStatisticMonotone(a, b, NearestRank(|a|, ClampFraction(num, den), den),
                             NearestRank(|b|, ClampFraction(num', den), den));
      SlotMonotone(QuantileSample(a, num, den), QuantileSample(b, num', den));
      SlotValueMonotone(SlotOf(QuantileSample(a, num, den)), SlotOf(QuantileSample(b, num', den)));
    }
  }

  lemma SampleWithinExtremes(samples: seq<U64>, v: U64)
    requires v in samples
    ensures Summarise(samples).min <= Clamp(v) <= Summarise(samples).max <= CEILING_NANOS
  {
    SummaryExtremes(samples);
    var i :| 0 <= i < |samples| && samples[i] == v;
  }

  /** Where a latency lies in its own bucket; at the ceiling, past the midpoint of the last. */
  predicate AtMidpoint(v: nat) { v < CEILING_NANOS && v % Width(v) == (Width(v) - 1) / 2 }

  predicate PastMidpoint(v: nat) { v < CEILING_NANOS ==> (Width(v) - 1) / 2 < v % Width(v) }

  predicate BeforeMidpoint(v: nat) { v < CEILING_NANOS && v % Width(v) < (Width(v) - 1) / 2 }

  /** How a reported latency compares with the latency itself. */
  lemma ReportedIff(v: nat)
    requires v <= CEILING_NANOS
    ensures SlotValue(SlotOf(v)) == v <==> AtMidpoint(v)
    ensures SlotValue(SlotOf(v)) < v <==> PastMidpoint(v)
    ensures SlotValue(SlotOf(v)) > v <==> BeforeMidpoint(v)
  {
    hide SlotOf, SlotValue, Width;
    if v < CEILING_NANOS {
      ReportedValue(v);
    } else {
      ReportedCeiling();
    }
  }

  lemma EarlierBucketReportsLess(v: nat, w: nat)
    requires v <= CEILING_NANOS && w <= CEILING_NANOS && SlotOf(v) < SlotOf(w)
    ensures v < w && SlotValue(SlotOf(v)) < w && v < SlotValue(SlotOf(w))
  {
    hide SlotOf, SlotRange, SlotValue;
    MidpointInRange(SlotOf(v));
    MidpointInRange(SlotOf(w));
    RangesOrdered(SlotOf(v), SlotOf(w));
    InOwnRange(v);
    InOwnRange(w);
  }

  /** Past its bucket only by the clamp. */
  lemma InOwnRange(v: nat)
    requires v <= CEILING_NANOS
    ensures SlotRange(SlotOf(v)).low <= v
    ensures SlotOf(v) + 1 < SLOTS ==> v <= SlotRange(SlotOf(v)).high
  {
    hide SlotOf, SlotRange;
    if v < CEILING_NANOS {
      SlotCovers(v);
    } else {
      SlotAtCeiling(v);
      RangesTile(SLOTS - 1);
    }
  }

  /**
   * A reported quantile passes the exact maximum only if the ranked sample shares the maximum's bucket
   * and the maximum lies before that bucket's midpoint.
   */
  lemma QuantileWithinMaximumIff(samples: seq<U64>, num: int, den: nat)
    requires 0 < den && samples != []
    ensures var max := Summarise(samples).max;
            Quantile(samples, num, den) <= max <==>
            (SlotOf(QuantileSample(samples, num, den)) < SlotOf(max) || !BeforeMidpoint(max))
  {
    hide SlotOf, SlotValue, Summarise, QuantileSample, BeforeMidpoint;
    var v, max := QuantileSample(samples, num, den), Summarise(samples).max;
    SampleWithinExtremes(samples, v);
    SlotOfClamped(v);
    SlotMonotone(Clamp(v), max);
    ReportedIff(max);
    if SlotOf(v) < SlotOf(max) {
      EarlierBucketReportsLess(Clamp(v), max);
    }
  }

  /**
   * A reported quantile falls below the exact minimum only if the ranked sample shares the minimum's
   * bucket and the minimum lies past that bucket's midpoint.
   */
  lemma QuantileAtLeastMinimumIff(samples: seq<U64>, num: int, den: nat)
    requires 0 < den && samples != []
    ensures var min := Summarise(samples).min;
            min <= Quantile(samples, num, den) <==>
            (SlotOf(min) < SlotOf(QuantileSample(samples, num, den)) || !PastMidpoint(min))
  {
    hide SlotOf, SlotValue, Summarise, QuantileSample, PastMidpoint;
    var v, min := QuantileSample(samples, num, den), Summarise(samples).min;
    SampleWithinExtremes(samples, v);
    SlotOfClamped(v);
    SlotMonotone(min, Clamp(v));
    ReportedIff(min);
    if SlotOf(min) < SlotOf(v) {
      EarlierBucketReportsLess(min, Clamp(v));
    }
  }

  lemma LastRank(n: nat, den: nat)
    requires 0 < den && 0 < n
    ensures NearestRank(n, den, den) == n
  {
    DivCeilLeast(n * den, den, n);
    DivCeilLeast(n * den, den, n - 1);
    assert (n - 1) * den < n * den;
  }

  lemma SlowestSample(samples: seq<U64>, den: nat)
    requires 0 < den && samples != []
    ensures Clamp(QuantileSample(samples, den, den)) == Summarise(samples).max
  {
    hide Summarise, Sort, CountLe;
    var n, v := |samples|, QuantileSample(samples, den, den);
    LastRank(n, den);
    OrderStatisticIffRank(samples, n, v);
    SummaryExtremes(samples);
    var j :| 0 <= j < n && Clamp(samples[j]) == Summarise(samples).max;
    CountLeFull(samples, v, j);
    SampleWithinExtremes(samples, v);
  }

  lemma FastestSample(samples: seq<U64>, den: nat)
    requires 0 < den && samples != []
    ensures Clamp(QuantileSample(samples, 0, den)) == Summarise(samples).min
  {
    hide Summarise, Sort, CountLe;
    var v: int := QuantileSample(samples, 0, den);
    assert NearestRank(|samples|, 0, den) == 1;
    OrderStatisticIffRank(samples, 1, v);
    SummaryExtremes(samples);
    var j :| 0 <= j < |samples| && Clamp(samples[j]) == Summarise(samples).min;
    CountLeZero(samples, v - 1, j);
    SampleWithinExtremes(samples, v);
  }

  /** The quantile at one reports the maximum's bucket, so it is the maximum only at that bucket's midpoint. */
  lemma QuantileAtOneIff(samples: seq<U64>, den: nat)
    requires 0 < den && samples != []
    ensures var max := Summarise(samples).max;
      && Quantile(samples, den, den) == SlotValue(SlotOf(max))
      && (Quantile(samples, den, den) == max <==> AtMidpoint(max))
  {
    hide SlotOf, SlotValue, Summarise, QuantileSample, AtMidpoint;
    SlowestSample(samples, den);
    SlotOfClamped(QuantileSample(samples, den, den));
    ReportedIff(Summarise(samples).max);
  }

  /** The quantile at zero reports the minimum's bucket, so it is the minimum only at that bucket's midpoint. */
  lemma QuantileAtZeroIff(samples: seq<U64>, den: nat)
    requires 0 < den && samples != []
    ensures var min := Summarise(samples).min;
      && Quantile(samples, 0, den) == SlotValue(SlotOf(min))
      && (Quantile(samples, 0, den) == min <==> AtMidpoint(min))
  {
    hide SlotOf, SlotValue, Summarise, QuantileSample, AtMidpoint;
    FastestSample(samples, den);
    SlotOfClamped(QuantileSample(samples, 0, den));
    ReportedIff(Summarise(samples).min);
  }

  /**
   * The recorder's own test asks for `min <= p50` and `p99 <= max`. Of one bucket of four, 1024 to 1027,
   * a lone sample of 1024 is reported as 1025, and so is a lone sample of 1026.
   */
  lemma QuantilesOutsideTheRange()
    ensures Quantile([1024], 99, 100) == 1025 && Summarise([1024]).max == 1024
    ensures Quantile([1026], 50, 100) == 1025 && Summarise([1026]).min == 1026
  {
    hide SlotOf, SlotValue;
    BucketOf1024();
    OneSample(1024, 99, 100);
    OneSample(1026, 50, 100);
  }

  lemma OneSample(v: U64, num: int, den: nat)
    requires v < CEILING_NANOS && 0 < den
    ensures Quantile([v], num, den) == SlotValue(SlotOf(v))
    ensures Summarise([v]).max == Summarise([v]).min == v
  {
    hide SlotOf, SlotValue, Summarise, Sort;
    assert QuantileSample([v], num, den) == v;
    SummaryExtremes([v]);
  }

  lemma BucketOf1024()
    ensures SlotOf(1024) == SlotOf(1026) == 768 && SlotValue(768) == 1025
  {
    hide SlotOf;
    assert Pow2(1) == 2 && Pow2(2) == 4;
    ScaledRange(768, 2, 256);
    SlotIffRange(1024, 768);
    SlotIffRange(1026, 768);
  }

  // The histogram and the recorder

  /** An owned, merged histogram: what a run reports. */
  datatype Histogram =
    Histogram(counts: seq<nat>, total: nat, sum: nat, min: U64, max: U64, clamped: nat)
  {
    /** The quantile `num / den`, as the first bucket at or past that share of the samples. */
    method QuantileNanos(num: int, den: nat, ghost samples: seq<U64>) returns (r: nat)
      requires 0 < den
      requires this == Report(Summarise(samples), sum)
      ensures r == Quantile(samples, num, den)
    {
      hide SlotOf, SlotValue, Summarise;
      BucketsSumToTotal(samples);
      if total == 0 {
        return 0;
      }
      var target := Max(DivCeil(ClampFraction(num, den) * total, den), 1);
      assert target == NearestRank(|samples|, ClampFraction(num, den), den);
      var seen := 0;
      r := max;
      for slot := 0 to SLOTS
        invariant seen == SumUpTo(counts, slot) < target
      {
        if counts[slot] != 0 {
          seen := seen + counts[slot];
          if target <= seen {
            FirstBucketAtRank(samples, target, slot);
            return SlotValue(slot);
          }
        }
      }
      assert false;
    }
  }

  /** A merged summary as a histogram: an empty one reports a minimum of zero. */
  function Report(c: Summary, sum: nat): Histogram
  {
    Histogram(c.counts, c.total, sum, if c.min == U64_MAX then 0 else c.min, c.max, c.clamped)
  }

  /** One shard of the recorder. */
  class Recorder {
    const counts: array<nat>
    var total: nat
    var sum: U64
    var min: U64
    var max: U64
    var clamped: nat
    ghost var samples: seq<U64>

    ghost predicate Valid()
      reads this, counts
    {
      && counts.Length == SLOTS
      && Cells(counts[..], total, min, max, clamped) == Summarise(samples)
      && sum == Min(SumOf(samples), U64_MAX)
    }

    constructor ()
      ensures Valid() && fresh(counts) && samples == []
    {
      counts := new nat[SLOTS](_ => 0);
      total, sum, min, max, clamped := 0, 0, U64_MAX, 0, 0;
      samples := [];
      new;
      assert counts[..] == Empty().counts;
    }

    method Record(nanos: U64)
      requires Valid()
      modifies this, counts
      ensures Valid() && samples == old(samples) + [nanos]
    {
      hide SlotOf, Summarise, SumOf;
      if CEILING_NANOS < nanos {
        clamped := clamped + 1;
      }
      var value: U64 := Min(nanos, CEILING_NANOS);
      var slot := SlotOf(value);
      counts[slot] := counts[slot] + 1;
      total := total + 1;
      var carried := sum;
      sum := SaturatingAdd(carried, value);
      max := Max(max, value);
      if value == 0 {
        min := 0;
      } else {
        min := Min(min, value);
      }
      SummariseOneMore(samples, nanos, slot);
      assert counts[..] == old(counts[..])[slot := old(counts[..])[slot] + 1];
      samples := samples + [nanos];
    }

    method Reset()
      requires Valid()
      modifies this, counts
      ensures Valid() && samples == []
    {
      for slot := 0 to SLOTS
        invariant forall i :: 0 <= i < slot ==> counts[i] == 0
      {
        counts[slot] := 0;
      }
      total, sum, min, max, clamped := 0, 0, U64_MAX, 0, 0;
      samples := [];
      assert counts[..] == Empty().counts;
    }
  }

  /** Summarising one more sample raises its bucket and the tallies, and moves the extremes. */
  lemma SummariseOneMore(samples: seq<U64>, nanos: U64, slot: nat)
    requires slot == SlotOf(Clamp(nanos))
    ensures Summarise(samples + [nanos]) == (
              var c := Summarise(samples);
              Cells(c.counts[slot := c.counts[slot] + 1], c.total + 1, Min(c.min, Clamp(nanos)),
                    Max(c.max, Clamp(nanos)), c.clamped + if CEILING_NANOS < nanos then 1 else 0))
    ensures SumOf(samples + [nanos]) == SumOf(samples) + Clamp(nanos)
  {
    hide SlotOf, Summarise, Merge, One;
    SummariseAppend(samples, nanos);
    MergeOne(Summarise(samples), nanos, slot);
  }

  lemma MergeOne(c: Summary, nanos: U64, slot: nat)
    requires slot == SlotOf(Clamp(nanos))
    ensures Merge(c, One(nanos)) ==
              Cells(c.counts[slot := c.counts[slot] + 1], c.total + 1, Min(c.min, Clamp(nanos)),
                    Max(c.max, Clamp(nanos)), c.clamped + if CEILING_NANOS < nanos then 1 else 0)
  {
    hide SlotOf;
    SlotOfClamped(nanos);
    assert Merge(c, One(nanos)).counts == c.counts[slot := c.counts[slot] + 1];
  }

  /** Every sample any of the shards holds, shard by shard. */
  ghost function AllSamples(shards: seq<Recorder>): seq<U64>
    reads shards
  {
    if shards == [] then [] else AllSamples(shards[..|shards| - 1]) + shards[|shards| - 1].samples
  }

  /** The sum of the shards' own saturating sums. */
  ghost function SumOfSums(shards: seq<Recorder>): nat
    reads shards
  {
    if shards == [] then 0 else SumOfSums(shards[..|shards| - 1]) + shards[|shards| - 1].sum
  }

  lemma MergeFields(a: Summary, b: Summary, counts: seq<nat>)
    requires |counts| == SLOTS && forall i :: 0 <= i < SLOTS ==> counts[i] == a.counts[i] + b.counts[i]
    ensures Merge(a, b) == Cells(counts, a.total + b.total, Min(a.min, b.min), Max(a.max, b.max),
                                 a.clamped + b.clamped)
  {
    assert Merge(a, b).counts == counts;
  }

  /** The counters of a merge in progress. */
  class Merging {
    const counts: array<nat>
    var total: nat
    var min: U64
    var max: U64
    var clamped: nat

    ghost predicate Holds(c: Summary)
      reads this, counts
    {
      counts.Length == SLOTS && Cells(counts[..], total, min, max, clamped) == c
    }

    constructor ()
      ensures Holds(Empty()) && fresh(counts)
    {
      counts := new nat[SLOTS](_ => 0);
      total, min, max, clamped := 0, U64_MAX, 0, 0;
      new;
      assert counts[..] == Empty().counts;
    }

    /** Add one shard's counters. */
    method Add(shard: Recorder, ghost before: Summary)
      requires Holds(before) && shard.Valid() && shard.counts != counts
      modifies this, counts
      ensures Holds(Merge(before, Summarise(shard.samples)))
    {
      hide SlotOf, Summarise;
      for slot := 0 to SLOTS
        modifies counts
        invariant forall i :: 0 <= i < slot ==> counts[i] == before.counts[i] + shard.counts[i]
        invariant forall i :: slot <= i < SLOTS ==> counts[i] == before.counts[i]
      {
        counts[slot] := counts[slot] + shard.counts[slot];
      }
      MergeFields(before, Summarise(shard.samples), counts[..]);
      total := total + shard.total;
      if shard.min < min {
        min := shard.min;
      }
      max := Max(max, shard.max);
      clamped := clamped + shard.clamped;
    }
  }

  ghost predicate AllValid(shards: seq<Recorder>)
    reads shards, set s <- shards :: s.counts
  {
    forall s <- shards :: s.Valid()
  }

  /** Fold shards `n` onward into a merge in progress. */
  method MergeAll(merging: Merging, shards: seq<Recorder>) returns (sum: nat)
    requires AllValid(shards) && merging.Holds(Empty())
    requires forall s <- shards :: s.counts != merging.counts
    modifies merging, merging.counts
    ensures merging.Holds(Summarise(AllSamples(shards))) && sum == SumOfSums(shards)
  {
    hide Recorder.Valid, Merging.Holds, Summarise, Merge;
    sum := 0;
    assert Summarise([]) == Empty() by { SummariseNothing(); }
    for n := 0 to |shards|
      invariant AllValid(shards)
      invariant sum == SumOfSums(shards[..n])
      invariant merging.Holds(Summarise(AllSamples(shards[..n])))
    {
      assert shards[..n + 1][..n] == shards[..n];
      ghost var all := AllSamples(shards[..n]);
      merging.Add(shards[n], Summarise(all));
      SummariseConcat(all, shards[n].samples);
      sum := sum + shards[n].sum;
    }
    assert shards[..|shards|] == shards;
  }

  lemma SummariseNothing()
    ensures Summarise([]) == Empty()
  {
  }

  /** Merge every shard into the histogram of all their samples. */
  method Merged(shards: seq<Recorder>) returns (h: Histogram)
    requires AllValid(shards)
    ensures h == Report(Summarise(AllSamples(shards)), SumOfSums(shards))
  {
    hide AllSamples, SumOfSums, Summarise;
    var merging := new Merging();
    var sum := MergeAll(merging, shards);
    h := Histogram(merging.counts[..], merging.total, sum, if merging.min == U64_MAX then 0 else merging.min,
                   merging.max, merging.clamped);
  }

  /** One recorder's current counts, read back without a merge. */
  method OfOne(recorder: Recorder) returns (h: Histogram)
    requires recorder.Valid()
    ensures h == Report(Summarise(recorder.samples), recorder.sum)
  {
    h := Histogram(recorder.counts[..], recorder.total, recorder.sum,
                   if recorder.min == U64_MAX then 0 else recorder.min, recorder.max, recorder.clamped);
  }

  const SHARDS := 16

  /** Sixteen divides the word size, so a wrapped counter deals the same shard as an unbounded one. */
  lemma WrapKeepsTheDeal(n: nat)
    ensures (n % (U64_MAX + 1)) % SHARDS == n % SHARDS
    ensures (n + 1) % (U64_MAX + 1) == if n % (U64_MAX + 1) == U64_MAX then 0 else n % (U64_MAX + 1) + 1
  {
    var q, r := n / 0x1_0000_0000_0000_0000, n % 0x1_0000_0000_0000_0000;
    assert n == 16 * (q * 0x1000_0000_0000_0000) + r;
  }

  /** The sharded recorder: a counter deals the shards out round-robin. */
  class RecorderSet {
    const shards: seq<Recorder>
    var next: U64
    /** How many shards have been dealt, however often the word-sized counter has wrapped. */
    ghost var taken: nat

    ghost predicate Valid()
      reads this
    {
      |shards| == SHARDS && next == taken % (U64_MAX + 1)
    }

    /** Every shard is dealt in turn for ever: the counter's wrap-around never skips one. */
    method Take() returns (shard: Recorder)
      requires Valid()
      modifies this
      ensures Valid() && taken == old(taken) + 1
      ensures shard == shards[old(taken) % SHARDS]
    {
      var index := next % SHARDS;
      WrapKeepsTheDeal(taken);
      next := if next == U64_MAX then 0 else next + 1;
      taken := taken + 1;
      shard := shards[index];
    }
  }
}
