/**
 * Wrapping 64-bit arithmetic on integers: exclusive or, shifts and products, and the facts that
 * make an xor-shift or a product by an odd constant a permutation of the words.
 */
module BitWords {
  import opened Words
  import opened Buckets

  /** The number of 64-bit words. */
  const WORDS := 0x1_0000_0000_0000_0000

  /** Bitwise exclusive or. */
  function Xor(a: nat, b: nat): (r: nat)
  {
    if a == 0 && b == 0 then 0 else 2 * Xor(a / 2, b / 2) + (a % 2 + b % 2) % 2
  }

  /** A right shift: `k` halvings. */
  function ShiftRight(x: nat, k: nat): nat
  {
    if k == 0 then x else ShiftRight(x / 2, k - 1)
  }

  /** A left shift of a word: `k` wrapping doublings. */
  function ShiftLeft(x: U64, k: nat): U64
    decreases k
  {
    if k == 0 then x else ShiftLeft((2 * x) % WORDS, k - 1)
  }

  function WrappingMul(x: U64, c: U64): U64
  {
    assert 0 <= x * c;
    (x * c) % WORDS
  }

  function WrappingAdd(x: U64, y: U64): U64 { (x + y) % WORDS }

  function XorWord(a: U64, b: U64): U64
  {
    WordsArePowerOfTwo();
    XorFits(a, b, WORDS);
    Xor(a, b)
  }

  function XorShiftRight(x: U64, k: nat): U64
  {
    ShiftRightShrinks(x, k);
    XorWord(x, ShiftRight(x, k))
  }

  function XorShiftLeft(x: U64, k: nat): U64 { XorWord(x, ShiftLeft(x, k)) }

  ghost predicate PowerOfTwo(p: nat)
  {
    p == 1 || (p % 2 == 0 && p != 0 && PowerOfTwo(p / 2))
  }

  lemma Times2(p: nat)
    requires PowerOfTwo(p)
    ensures PowerOfTwo(2 * p)
  {
  }

  lemma Times16(p: nat)
    requires PowerOfTwo(p)
    ensures PowerOfTwo(0x10 * p)
  {
    hide PowerOfTwo;
    Times2(p);
    Times2(2 * p);
    Times2(4 * p);
    Times2(8 * p);
  }

  lemma Times65536(p: nat)
    requires PowerOfTwo(p)
    ensures PowerOfTwo(0x1_0000 * p)
  {
    hide PowerOfTwo;
    Times16(p);
    Times16(0x10 * p);
    Times16(0x100 * p);
    Times16(0x1000 * p);
  }

  lemma WordsArePowerOfTwo()
    ensures PowerOfTwo(WORDS)
  {
    assert PowerOfTwo(1);
    hide PowerOfTwo;
    Times65536(1);
    Times65536(0x1_0000);
    Times65536(0x1_0000_0000);
    Times65536(0x1_0000_0000_0000);
  }

  lemma {:induction false} XorFits(a: nat, b: nat, p: nat)
    requires PowerOfTwo(p) && a < p && b < p
    ensures Xor(a, b) < p
  {
    if p != 1 {
      XorFits(a / 2, b / 2, p / 2);
    }
  }

  lemma XorHalves(a: nat, b: nat)
    ensures Xor(a, b) / 2 == Xor(a / 2, b / 2) && Xor(a, b) % 2 == (a % 2 + b % 2) % 2
  {
  }

  lemma {:induction false} XorEqualIffZero(a: nat, b: nat)
    ensures Xor(a, b) == 0 <==> a == b
  {
    if a != 0 || b != 0 {
      XorEqualIffZero(a / 2, b / 2);
    }
  }

  lemma {:induction false} XorExchange(a: nat, b: nat, c: nat, d: nat)
    requires Xor(a, b) == Xor(c, d)
    ensures Xor(a, c) == Xor(b, d)
    decreases a + b + c + d
  {
    hide Xor;
    XorHalves(a, b);
    XorHalves(c, d);
    XorHalves(a, c);
    XorHalves(b, d);
    if a + b + c + d != 0 {
      XorExchange(a / 2, b / 2, c / 2, d / 2);
    }
  }

  lemma {:induction false} XorShiftsRight(a: nat, b: nat, k: nat)
    ensures ShiftRight(Xor(a, b), k) == Xor(ShiftRight(a, k), ShiftRight(b, k))
  {
    hide Xor;
    if k != 0 {
      XorHalves(a, b);
      XorShiftsRight(a / 2, b / 2, k - 1);
    }
  }

  lemma {:induction false} ShiftRightShrinks(x: nat, k: nat)
    ensures ShiftRight(x, k) <= x
    ensures k != 0 && x != 0 ==> ShiftRight(x, k) < x
  {
    if k != 0 {
      ShiftRightShrinks(x / 2, k - 1);
    }
  }

  lemma XorShiftsOfZero(k: nat)
    ensures XorShiftRight(0, k) == 0 && XorShiftLeft(0, k) == 0
  {
    ShiftRightShrinks(0, k);
    ShiftLeftOfZero(k);
    XorEqualIffZero(0, 0);
  }

  lemma {:induction false} ShiftLeftOfZero(k: nat)
    ensures ShiftLeft(0, k) == 0
    decreases k
  {
    if k != 0 {
      ShiftLeftOfZero(k - 1);
    }
  }

  /** An xor-shift to the right loses nothing: the difference of two preimages shifts to itself. */
  lemma XorShiftRightInjective(x: U64, y: U64, k: nat)
    requires k != 0 && XorShiftRight(x, k) == XorShiftRight(y, k)
    ensures x == y
  {
    var d := Xor(x, y);
    XorExchange(x, ShiftRight(x, k), y, ShiftRight(y, k));
    XorShiftsRight(x, y, k);
    ShiftRightShrinks(d, k);
    XorEqualIffZero(x, y);
  }

  lemma PowerHalves(p: nat)
    requires PowerOfTwo(p) && p != 1
    ensures 0 < p / 2 && p == 2 * (p / 2) && PowerOfTwo(p / 2)
  {
  }

  lemma {:induction false} XorWraps(a: nat, b: nat, p: nat)
    requires PowerOfTwo(p)
    ensures 0 < p && Xor(a % p, b % p) == Xor(a, b) % p
  {
    if p == 1 {
      assert Xor(0, 0) == 0;
    } else {
      PowerHalves(p);
      XorWraps(a / 2, b / 2, p / 2);
      XorWrapsStep(a, b, p, p / 2);
    }
  }

  lemma XorWrapsStep(a: nat, b: nat, p: nat, h: nat)
    requires 0 < h && p == 2 * h && Xor((a / 2) % h, (b / 2) % h) == Xor(a / 2, b / 2) % h
    ensures Xor(a % p, b % p) == Xor(a, b) % p
  {
    hide Xor;
    XorHalves(a, b);
    XorHalves(a % p, b % p);
    WrapHalves(a, p, h);
    WrapHalves(b, p, h);
    WrapHalves(Xor(a, b), p, h);
  }

  lemma WrapHalves(a: nat, p: nat, h: nat)
    requires 0 < h && p == 2 * h
    ensures (a % p) / 2 == (a / 2) % h && (a % p) % 2 == a % 2
  {
    var q, r := Divided(a, p);
    HalfOfWrapped(a, p, h, q, r);
  }

  lemma Divided(a: nat, d: nat) returns (q: nat, r: nat)
    requires 0 < d
    ensures r == a % d && r < d && a == q * d + r
  {
    q, r := a / d, a % d;
    Division(a, d);
  }

  lemma HalfOfWrapped(a: nat, p: nat, h: nat, q: nat, r: nat)
    requires p == 2 * h && a == q * p + r && r < p
    ensures (a / 2) % h == r / 2 && a % 2 == r % 2
  {
    TimesDouble(q, p, h);
    HalfOfDoubled(q * h, r);
    DivisionUnique(a / 2, h, q, r / 2);
  }

  lemma TimesDouble(q: nat, p: nat, h: nat)
    requires p == 2 * h
    ensures q * p == 2 * (q * h)
  {
  }

  lemma HalfOfDoubled(m: nat, r: nat)
    ensures (2 * m + r) / 2 == m + r / 2 && (2 * m + r) % 2 == r % 2
  {
  }

  lemma XorDoubles(a: U64, b: U64)
    ensures (2 * XorWord(a, b)) % WORDS == XorWord((2 * a) % WORDS, (2 * b) % WORDS)
  {
    hide Xor, PowerOfTwo;
    WordsArePowerOfTwo();
    XorHalves(2 * a, 2 * b);
    XorWraps(2 * a, 2 * b, WORDS);
  }

  lemma {:induction false} XorShiftsLeft(a: U64, b: U64, k: nat)
    ensures ShiftLeft(XorWord(a, b), k) == XorWord(ShiftLeft(a, k), ShiftLeft(b, k))
    decreases k
  {
    hide XorWord;
    if k != 0 {
      XorDoubles(a, b);
      XorShiftsLeft((2 * a) % WORDS, (2 * b) % WORDS, k - 1);
    }
  }

  /** A product by a factor with an inverse modulo the word size is a permutation. */
  lemma WrappingMulInjective(x: U64, y: U64, c: U64, inverse: U64)
    requires c * inverse % WORDS == 1
    requires WrappingMul(x, c) == WrappingMul(y, c)
    ensures x == y
  {
    var k := c * inverse / WORDS;
    var t := (x * c) / WORDS - (y * c) / WORDS;
    var d := x - y;
    assert d * c == WORDS * t by {
      Difference(x, y, c);
    }
    Reassociate(d, c, inverse, t, k);
    NoMultiple(d, t * inverse - d * k);
  }

  lemma Difference(x: int, y: int, c: int)
    ensures (x - y) * c == x * c - y * c
  {
  }

  lemma Reassociate(d: int, c: int, inverse: int, t: int, k: int)
    requires d * c == WORDS * t && c * inverse == WORDS * k + 1
    ensures d == WORDS * (t * inverse - d * k)
  {
    calc {
      d * (WORDS * k + 1);
      d * (c * inverse);
      (d * c) * inverse;
      (WORDS * t) * inverse;
      WORDS * (t * inverse);
    }
    assert d * (WORDS * k + 1) == WORDS * (d * k) + d;
  }

  lemma NoMultiple(d: int, m: int)
    requires -WORDS < d < WORDS && d == WORDS * m
    ensures d == 0
  {
  }

  lemma {:induction false} ShiftLeftMultiplies(x: U64, k: nat)
    ensures ShiftLeft(x, k) == (x * Pow2(k)) % WORDS
    decreases k
  {
    if k != 0 {
      ShiftLeftMultiplies((2 * x) % WORDS, k - 1);
      DoubleThenMultiply(x, Pow2(k - 1));
    }
  }

  lemma DoubleThenMultiply(x: nat, p: nat)
    ensures (x * (2 * p)) % WORDS == (((2 * x) % WORDS) * p) % WORDS
  {
    var q, y := (2 * x) / WORDS, (2 * x) % WORDS;
    Regroup(x, p, q, y);
    SameRemainder(y * p, q * p);
  }

  lemma Regroup(x: nat, p: nat, q: nat, y: nat)
    requires 2 * x == WORDS * q + y
    ensures x * (2 * p) == WORDS * (q * p) + y * p
  {
    calc {
      x * (2 * p);
      (2 * x) * p;
      (WORDS * q + y) * p;
      (WORDS * q) * p + y * p;
      WORDS * (q * p) + y * p;
    }
  }

  lemma SameRemainder(a: nat, m: nat)
    ensures (WORDS * m + a) % WORDS == a % WORDS
  {
    var q, r := a / WORDS, a % WORDS;
    DivisionUnique(WORDS * m + a, WORDS, m + q, r);
  }

  /** The left xor-shift of the generator loses nothing: `2^25 - 1` is odd, so it has an inverse. */
  lemma XorShiftLeft25Injective(x: U64, y: U64)
    requires XorShiftLeft(x, 25) == XorShiftLeft(y, 25)
    ensures x == y
  {
    var d := XorWord(x, y);
    XorExchange(x, ShiftLeft(x, 25), y, ShiftLeft(y, 25));
    XorShiftsLeft(x, y, 25);
    ShiftLeftMultiplies(d, 25);
    Pow2Values();
    Pow2Add(8, 8);
    Pow2Add(9, 16);
    ShiftFixpointIsZero(d);
    XorEqualIffZero(x, y);
  }

  lemma ShiftFixpointIsZero(d: U64)
    requires d == (d * 0x200_0000) % WORDS
    ensures d == 0
  {
    var q := (d * 0x200_0000) / WORDS;
    assert d * 0x1FF_FFFF == WORDS * q;
    DivisionUnique(d * 0x1FF_FFFF, WORDS, q, 0);
    WrappingMulInjective(d, 0, 0x1FF_FFFF, 0xFFFB_FFFF_FDFF_FFFF);
  }
}
