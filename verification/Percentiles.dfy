/**
 * The nearest-rank percentiles the measurement harness and the presentation runtime print, and the
 * walked reference the harness is checked against: one rule, computed three ways.
 */
module Percentiles {
  import opened Options
  import opened Words
  import opened OrderStatistics

  /** The exact nearest-rank percentile, with the request clamped to 100. */
  function ExactPercentile(raw: seq<U64>, percent: U64): (v: int)
    requires raw != []
  {
    OrderStatistic(raw, NearestRank(|raw|, Min(percent, 100), 100))
  }

  /** The closed form: it names a rank unless the set is empty or the one product would overflow. */
  method Percentile(raw: seq<U64>, percent: U64) returns (r: Option<int>)
    ensures r.Some? <==> raw != [] && |raw| <= U64_MAX && Min(percent, 100) * |raw| <= U64_MAX
    ensures r.Some? ==> r.value == ExactPercentile(raw, percent)
  {
    var count := |raw|;
    hide Sort;
    var product := count * Min(percent, 100);
    if U64_MAX < count || U64_MAX < product {
      return None;
    }
    var rank := Max(DivCeil(product, 100), 1);
    var index := rank - 1;
    var ordered := Sort(raw);
    return if index < |ordered| then Some(ordered[index]) else None;
  }

  /** The reference: the rank is walked one sample at a time instead of multiplied out. */
  method ReferencePercentile(raw: seq<U64>, percent: U64) returns (r: Option<int>)
    requires |raw| <= U64_MAX
    ensures r.Some? <==> raw != []
    ensures raw != [] && Min(percent, 100) * |raw| <= U64_MAX ==> r == Some(ExactPercentile(raw, percent))
  {
    if raw == [] {
      return None;
    }
    var ordered := Sort(raw);
    var count := |ordered|;
    var clamped := Min(percent, 100);
    var reached := 1;
    ghost var rank := NearestRank(count, clamped, 100);
    ghost var fits := clamped * count <= U64_MAX;
    var chosen: Option<int> := None;
    for position := 0 to count
      invariant chosen == None && 1 <= reached <= U64_MAX
      invariant fits ==> reached <= rank
      invariant fits && 0 < position ==> position < reached == rank
    {
      while SaturatingMul(clamped, count) > SaturatingMul(100, reached)
        invariant 1 <= reached <= U64_MAX
        invariant fits ==> reached <= rank
        decreases U64_MAX - reached
      {
        DivCeilLeast(count * clamped, 100, reached);
        reached := reached + 1;
      }
      DivCeilLeast(count * clamped, 100, reached);
      if reached == position + 1 {
        chosen := Some(ordered[position]);
        break;
      }
    }
    r := if chosen.Some? then chosen else Some(ordered[count - 1]);
  }

  /** The two never disagree: wherever the closed form names a sample, the walk names the same one. */
  method PercentilesAgree(raw: seq<U64>, percent: U64) returns (closed: Option<int>, walked: Option<int>)
    requires |raw| <= U64_MAX
    ensures closed.Some? ==> walked == closed
    ensures closed.None? ==> raw == [] || U64_MAX < Min(percent, 100) * |raw|
  {
    closed := Percentile(raw, percent);
    walked := ReferencePercentile(raw, percent);
  }

  // The mean

  const U128_MAX: nat := 0xFFFF_FFFF_FFFF_FFFF_FFFF_FFFF_FFFF_FFFF

  function Total(raw: seq<U64>): nat
  {
    if raw == [] then 0 else Total(raw[..|raw| - 1]) + raw[|raw| - 1]
  }

  ghost predicate Between(raw: seq<U64>, lo: nat, hi: nat)
  {
    forall i :: 0 <= i < |raw| ==> lo <= raw[i] <= hi
  }

  lemma OneMore(k: nat, n: nat)
    ensures k * (n + 1) == k * n + k
  {
  }

  lemma {:induction false} TotalBetween(raw: seq<U64>, lo: nat, hi: nat)
    requires Between(raw, lo, hi)
    ensures lo * |raw| <= Total(raw) <= hi * |raw|
  {
    if raw != [] {
      TotalBetween(raw[..|raw| - 1], lo, hi);
      OneMore(lo, |raw| - 1);
      OneMore(hi, |raw| - 1);
    }
  }

  lemma WordsBetween(raw: seq<U64>)
    ensures Between(raw, 0, U64_MAX)
  {
  }

  lemma TotalFits(raw: seq<U64>)
    requires |raw| <= U64_MAX
    ensures Total(raw) <= U64_MAX * U64_MAX
  {
    WordsBetween(raw);
    TotalBetween(raw, 0, U64_MAX);
    assert U64_MAX * |raw| <= U64_MAX * U64_MAX;
  }

  lemma MeanBetween(raw: seq<U64>, lo: nat, hi: nat)
    requires raw != [] && Between(raw, lo, hi)
    ensures lo <= Total(raw) / |raw| <= hi
  {
    hide Total, Between;
    TotalBetween(raw, lo, hi);
    QuotientBelow(Total(raw), |raw|, lo);
    QuotientBelow(Total(raw), |raw|, hi + 1);
    assert (hi + 1) * |raw| == hi * |raw| + |raw|;
  }

  /**
   * The mean is refused for an empty set only: the wide accumulator cannot saturate and the quotient
   * always fits a word again, since it lies between the least and the greatest sample.
   */
  method Mean(raw: seq<U64>) returns (r: Option<U64>)
    requires |raw| <= U64_MAX
    ensures r.Some? <==> raw != []
    ensures r.Some? ==> r.value == Total(raw) / |raw|
    ensures r.Some? ==> forall lo: nat, hi: nat :: Between(raw, lo, hi) ==> lo <= r.value <= hi
  {
    hide Between;
    if raw == [] {
      return None;
    }
    var total := 0;
    for i := 0 to |raw|
      invariant total == Total(raw[..i])
    {
      assert raw[..i + 1][..i] == raw[..i];
      TotalFits(raw[..i + 1]);
      total := Min(total + raw[i], U128_MAX);
    }
    assert raw[..|raw|] == raw;
    forall lo: nat, hi: nat | Between(raw, lo, hi) ensures lo <= total / |raw| <= hi {
      MeanBetween(raw, lo, hi);
    }
    WordsBetween(raw);
    r := Some(total / |raw|);
  }

  // Frame intervals

  datatype FramePercentiles = FramePercentiles(samples: nat, p50: int, p95: int, p99: int, max: int)

  /** The rank product saturates; below that it is the exact nearest rank. */
  predicate RankFits(n: nat, permille: nat) { n * permille <= U64_MAX }

  /**
   * Nearest-rank percentiles of measured frame intervals; an empty set reports zeros and no samples.
   * An interval is its key in the total order of floats, whose zero is the float's.
   */
  method PercentilesOf(samples: seq<int>) returns (p: FramePercentiles)
    requires |samples| <= U64_MAX
    ensures p.samples == |samples|
    ensures samples == [] ==> p == FramePercentiles(0, 0, 0, 0, 0)
    ensures samples != [] ==>
      && (RankFits(|samples|, 500) ==> p.p50 == OrderStatistic(samples, NearestRank(|samples|, 500, 1000)))
      && (RankFits(|samples|, 950) ==> p.p95 == OrderStatistic(samples, NearestRank(|samples|, 950, 1000)))
      && (RankFits(|samples|, 990) ==> p.p99 == OrderStatistic(samples, NearestRank(|samples|, 990, 1000)))
      && p.p50 <= p.p95 <= p.p99 <= p.max && p.max in samples
      && forall i :: 0 <= i < |samples| ==> samples[i] <= p.max
  {
    hide Sort, Rank, NearestRank;
    var sorted := Sort(samples);
    if sorted == [] {
      return FramePercentiles(0, 0, 0, 0, 0);
    }
    var max := sorted[|sorted| - 1];
    p := FramePercentiles(|sorted|, Rank(sorted, 500), Rank(sorted, 950), Rank(sorted, 990), max);
    RanksOrdered(samples, 500, 950);
    RanksOrdered(samples, 950, 990);
    RankAtMostMaximum(samples);
  }

  lemma RanksOrdered(samples: seq<int>, low: U64, high: U64)
    requires samples != [] && |samples| <= U64_MAX && low <= high <= 1000
    ensures RankFits(|samples|, low) ==>
              Rank(Sort(samples), low) == OrderStatistic(samples, NearestRank(|samples|, low, 1000))
    ensures RankFits(|samples|, high) ==>
              Rank(Sort(samples), high) == OrderStatistic(samples, NearestRank(|samples|, high, 1000))
    ensures Rank(Sort(samples), low) <= Rank(Sort(samples), high)
  {
    hide Sort, RankIndex, NearestRank, RankFits;
    var n := |samples|;
    RankIndexMonotone(n, low, high);
    if RankFits(n, low) {
      RankIndexIs(n, low);
    }
    if RankFits(n, high) {
      RankIndexIs(n, high);
    }
  }

  lemma RankIndexMonotone(n: U64, low: U64, high: U64)
    requires low <= high
    ensures RankIndex(n, low) <= RankIndex(n, high)
  {
    assert n * low <= n * high;
    var p, q := SaturatingMul(n, low), SaturatingMul(n, high);
    DivCeilLeast(q, 1000, DivCeil(q, 1000));
    DivCeilLeast(p, 1000, DivCeil(q, 1000));
  }

  lemma RankIndexIs(n: U64, permille: U64)
    requires 0 < n && permille <= 1000 && RankFits(n, permille)
    ensures RankIndex(n, permille) == NearestRank(n, permille, 1000) - 1
  {
  }

  lemma RankAtMostMaximum(samples: seq<int>)
    requires samples != [] && |samples| <= U64_MAX
    ensures var max := Sort(samples)[|samples| - 1];
            && max in samples
            && (forall i :: 0 <= i < |samples| ==> samples[i] <= max)
            && forall permille: U64 :: Rank(Sort(samples), permille) <= max
  {
    hide Sort;
    var sorted := Sort(samples);
    assert sorted[|sorted| - 1] in multiset(samples);
    forall i | 0 <= i < |samples|
      ensures samples[i] <= sorted[|sorted| - 1]
    {
      assert samples[i] in multiset(sorted);
    }
  }

  /** The zero-based index of a rank in thousandths, its product saturating. */
  function RankIndex(n: U64, permille: U64): nat { Max(DivCeil(SaturatingMul(n, permille), 1000) - 1, 0) }

  /** The sample of a rank, or the maximum should its index be past the end. */
  function Rank(sorted: seq<int>, permille: U64): int
    requires sorted != [] && |sorted| <= U64_MAX
  {
    var index := RankIndex(|sorted|, permille);
    if index < |sorted| then sorted[index] else sorted[|sorted| - 1]
  }
}
