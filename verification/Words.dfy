/** 64-bit unsigned words, with the saturating operations the rig's counters use. */
module Words {

  const U64_MAX := 0xFFFF_FFFF_FFFF_FFFF

  type U64 = x: int | 0 <= x <= U64_MAX

  function Min(a: int, b: int): int { if a <= b then a else b }

  function Max(a: int, b: int): int { if a >= b then a else b }

  function SaturatingAdd(a: U64, b: U64): U64 { Min(a + b, U64_MAX) }

  function SaturatingMul(a: U64, b: U64): U64
  {
    assert 0 <= a * b;
    Min(a * b, U64_MAX)
  }

  function SaturatingSub(a: U64, b: U64): U64 { Max(a - b, 0) }

  /** Quotient rounded up. */
  function DivCeil(a: nat, b: nat): nat
    requires 0 < b
  {
    (a + b - 1) / b
  }

  lemma Division(a: nat, d: nat)
    requires 0 < d
    ensures a == a / d * d + a % d && a % d < d
  {
  }

  lemma ProductMonotone(a: nat, b: nat, d: nat)
    requires a <= b
    ensures a * d <= b * d
  {
  }

  lemma OneMoreTime(a: nat, d: nat)
    ensures (a + 1) * d == a * d + d
  {
  }

  /** The defining property of the rounded-up quotient: it is the least `k` with `a <= k * b`. */
  lemma DivCeilLeast(a: nat, b: nat, k: nat)
    requires 0 < b
    ensures DivCeil(a, b) <= k <==> a <= k * b
  {
    QuotientBelow(a + b - 1, b, k + 1);
    OneMoreTime(k, b);
  }

  lemma QuotientBelow(a: nat, b: nat, k: nat)
    requires 0 < b
    ensures a / b < k <==> a < k * b
  {
    Division(a, b);
    OneMoreTime(a / b, b);
    if a / b < k {
      ProductMonotone(a / b + 1, k, b);
    } else {
      ProductMonotone(k, a / b, b);
    }
  }

  lemma DivisionUnique(a: nat, d: nat, q: nat, r: nat)
    requires r < d && a == q * d + r
    ensures a / d == q && a % d == r
  {
    QuotientBelow(a, d, q);
    QuotientBelow(a, d, q + 1);
    OneMoreTime(q, d);
    Division(a, d);
  }
}
