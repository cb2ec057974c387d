/** Order counts over integer sequences: how many elements are at most a threshold. */
module Counting {

  /** The number of elements of `s` that are at most `t`. */
  function CountLe(s: seq<int>, t: int): (n: nat)
    ensures n <= |s|
  {
    if s == [] then 0 else CountLe(s[..|s| - 1], t) + (if s[|s| - 1] <= t then 1 else 0)
  }

  lemma CountLeAppend(s: seq<int>, x: int, t: int)
    ensures CountLe(s + [x], t) == CountLe(s, t) + (if x <= t then 1 else 0)
  {
    assert (s + [x])[..|s|] == s;
  }

  lemma {:induction false} CountLeConcat(a: seq<int>, b: seq<int>, t: int)
    ensures CountLe(a + b, t) == CountLe(a, t) + CountLe(b, t)
  {
    if b == [] {
      assert a + b == a;
    } else {
      assert (a + b)[..|a + b| - 1] == a + b[..|b| - 1];
      CountLeConcat(a, b[..|b| - 1], t);
    }
  }

  /** Replacing one element changes the count by that element alone. */
  lemma {:induction false} CountLeUpdate(s: seq<int>, i: nat, x: int, t: int)
    requires i < |s|
    ensures CountLe(s[i := x], t)
         == CountLe(s, t) - (if s[i] <= t then 1 else 0) + (if x <= t then 1 else 0)
  {
    var last := |s| - 1;
    if i == last {
      assert s[i := x][..last] == s[..last];
    } else {
      assert s[i := x][..last] == s[..last][i := x];
      CountLeUpdate(s[..last], i, x, t);
    }
  }

  lemma {:induction false} CountLeMonotone(s: seq<int>, t: int, u: int)
    requires t <= u
    ensures CountLe(s, t) <= CountLe(s, u)
  {
    if s != [] {
      CountLeMonotone(s[..|s| - 1], t, u);
    }
  }

  /** A pointwise smaller sequence reaches every threshold at least as often. */
  lemma {:induction false} CountLePointwise(a: seq<int>, b: seq<int>, t: int)
    requires |a| == |b| && forall i :: 0 <= i < |a| ==> a[i] <= b[i]
    ensures CountLe(a, t) >= CountLe(b, t)
  {
    if a != [] {
      CountLePointwise(a[..|a| - 1], b[..|b| - 1], t);
    }
  }

  lemma {:induction false} CountLeNone(s: seq<int>, t: int)
    requires forall i :: 0 <= i < |s| ==> t < s[i]
    ensures CountLe(s, t) == 0
  {
    if s != [] {
      CountLeNone(s[..|s| - 1], t);
    }
  }

  lemma {:induction false} CountLeAll(s: seq<int>, t: int)
    requires forall i :: 0 <= i < |s| ==> s[i] <= t
    ensures CountLe(s, t) == |s|
  {
    if s != [] {
      CountLeAll(s[..|s| - 1], t);
    }
  }

  /** A full count says every element is at most the threshold. */
  lemma {:induction false} CountLeFull(s: seq<int>, t: int, i: nat)
    requires i < |s| && CountLe(s, t) == |s|
    ensures s[i] <= t
  {
    if i < |s| - 1 {
      CountLeFull(s[..|s| - 1], t, i);
    }
  }

  /** A zero count says every element is above the threshold. */
  lemma {:induction false} CountLeZero(s: seq<int>, t: int, i: nat)
    requires i < |s| && CountLe(s, t) == 0
    ensures t < s[i]
  {
    if i < |s| - 1 {
      CountLeZero(s[..|s| - 1], t, i);
    }
  }

  /** The last element of a sequence occurs in every rearrangement of it, around the rest. */
  lemma SplitPermutation<T>(a: seq<T>, b: seq<T>) returns (p: seq<T>, q: seq<T>)
    requires a != [] && multiset(a) == multiset(b)
    ensures b == p + [a[|a| - 1]] + q && multiset(a[..|a| - 1]) == multiset(p + q)
  {
    var x := a[|a| - 1];
    assert x in multiset(b);
    var i :| 0 <= i < |b| && b[i] == x;
    p, q := b[..i], b[i + 1..];
    assert a == a[..|a| - 1] + [x];
    assert b == p + [x] + q;
    assert multiset(a[..|a| - 1]) == multiset(a) - multiset{x} == multiset(p + q);
  }

  /** The count depends on the elements and not on their order. */
  lemma {:induction false} CountLeMultiset(a: seq<int>, b: seq<int>, t: int)
    requires multiset(a) == multiset(b)
    ensures CountLe(a, t) == CountLe(b, t)
  {
    if a == [] {
      assert |multiset(a)| == |a| && |multiset(b)| == |b|;
    } else {
      var p, q := SplitPermutation(a, b);
      CountLeMultiset(a[..|a| - 1], p + q, t);
      CountLeConcat(p, q, t);
      CountLeConcat(p + [a[|a| - 1]], q, t);
      CountLeAppend(p, a[|a| - 1], t);
    }
  }
}
