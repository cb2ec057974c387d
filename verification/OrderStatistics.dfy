/** Sorting and the exact nearest-rank order statistic every percentile in the repository names. */
module OrderStatistics {
  import opened Counting
  import opened Words

  ghost predicate Sorted(s: seq<int>)
  {
    forall i, j :: 0 <= i < j < |s| ==> s[i] <= s[j]
  }

  function Insert(s: seq<int>, x: int): (r: seq<int>)
    ensures multiset(r) == multiset(s) + multiset{x}
    ensures |r| == |s| + 1
  {
    if s == [] || s[|s| - 1] <= x then s + [x]
    else
      assert s == s[..|s| - 1] + [s[|s| - 1]];
      Insert(s[..|s| - 1], x) + [s[|s| - 1]]
  }

  lemma {:induction false} InsertSorted(s: seq<int>, x: int)
    requires Sorted(s)
    ensures Sorted(Insert(s, x))
  {
    if s != [] && x < s[|s| - 1] {
      var init, last := s[..|s| - 1], s[|s| - 1];
      InsertSorted(init, x);
      var r := Insert(init, x);
      forall i | 0 <= i < |r| ensures r[i] <= last {
        assert r[i] in multiset(r);
      }
    }
  }

  /** The ascending rearrangement of `s`. */
  function Sort(s: seq<int>): (r: seq<int>)
    ensures Sorted(r) && multiset(r) == multiset(s)
    ensures |r| == |s|
  {
    if s == [] then []
    else
      assert s == s[..|s| - 1] + [s[|s| - 1]];
      InsertSorted(Sort(s[..|s| - 1]), s[|s| - 1]);
      Insert(Sort(s[..|s| - 1]), s[|s| - 1])
  }

  /** The `k`-th smallest element, one-based. */
  function OrderStatistic(s: seq<int>, k: nat): (v: int)
    requires 1 <= k <= |s|
    ensures v in s
  {
    assert Sort(s)[k - 1] in multiset(Sort(s));
    assert Sort(s)[k - 1] in multiset(s);
    Sort(s)[k - 1]
  }

  /** The counting definition of rank: fewer than `k` elements are below `v`, at least `k` up to it. */
  ghost predicate HasRank(s: seq<int>, k: nat, v: int)
  {
    CountLe(s, v - 1) < k <= CountLe(s, v)
  }

  lemma SortedHasRank(o: seq<int>, k: nat)
    requires Sorted(o) && 1 <= k <= |o|
    ensures HasRank(o, k, o[k - 1])
  {
    hide CountLe;
    var v := o[k - 1];
    var low, high := o[..k], o[k..];
    assert o == low + high;
    CountLeConcat(low, high, v);
    CountLeAll(low, v);
    var below, from := o[..k - 1], o[k - 1..];
    assert o == below + from;
    CountLeConcat(below, from, v - 1);
    CountLeNone(from, v - 1);
  }

  lemma RankUnique(s: seq<int>, k: nat, v: int, w: int)
    requires HasRank(s, k, v) && HasRank(s, k, w)
    ensures v == w
  {
    hide CountLe;
    if v < w {
      CountLeMonotone(s, v, w - 1);
    } else if w < v {
      CountLeMonotone(s, w, v - 1);
    }
  }

  /** The order statistic is the one value the counting definition admits. */
  lemma OrderStatisticIffRank(s: seq<int>, k: nat, v: int)
    requires 1 <= k <= |s|
    ensures v == OrderStatistic(s, k) <==> HasRank(s, k, v)
  {
    hide CountLe, Sort;
    var w := OrderStatistic(s, k);
    SortedHasRank(Sort(s), k);
    CountLeMultiset(Sort(s), s, w);
    CountLeMultiset(Sort(s), s, w - 1);
    if HasRank(s, k, v) {
      RankUnique(s, k, v, w);
    }
  }

  /** Raising every element, or the rank, never lowers the order statistic. */
  lemma OrderStatisticMonotone(a: seq<int>, b: seq<int>, j: nat, k: nat)
    requires |a| == |b| && forall i :: 0 <= i < |a| ==> a[i] <= b[i]
    requires 1 <= j <= k <= |a|
    ensures OrderStatistic(a, j) <= OrderStatistic(b, k)
  {
    hide CountLe, Sort;
    var v, w := OrderStatistic(a, j), OrderStatistic(b, k);
    OrderStatisticIffRank(a, j, v);
    OrderStatisticIffRank(b, k, w);
    if w < v {
      CountLePointwise(a, b, w);
      CountLeMonotone(a, w, v - 1);
    }
  }

  /** The nearest rank of the fraction `num / den` in `n` samples: `ceil(n * num / den)`, at least 1. */
  function NearestRank(n: nat, num: nat, den: nat): (k: nat)
    requires 0 < den && num <= den
    ensures 1 <= k && (0 < n ==> k <= n)
  {
    assert n * num <= n * den;
    DivCeilLeast(n * num, den, n);
    Max(DivCeil(n * num, den), 1)
  }

  lemma NearestRankMonotone(n: nat, num: nat, num': nat, den: nat)
    requires 0 < den && num <= num' <= den
    ensures NearestRank(n, num, den) <= NearestRank(n, num', den)
  {
    assert n * num <= n * num';
    DivCeilLeast(n * num', den, DivCeil(n * num', den));
    DivCeilLeast(n * num, den, DivCeil(n * num', den));
  }
}
