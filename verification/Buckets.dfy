/**
 * The logarithmic bucket map of the latency recorder: 256 exact buckets, then 27 octaves of 256
 * equal-width buckets each, with every larger latency clamped into the last one.
 */
module Buckets {
  import opened Words

  const SUB_BITS: nat := 8
  const SUB_BUCKETS: nat := 256
  const OCTAVES: nat := 27
  const SLOTS: nat := SUB_BUCKETS + OCTAVES * SUB_BUCKETS
  /** `2^(SUB_BITS + OCTAVES)` nanoseconds, about 34 seconds. */
  const CEILING_NANOS: nat := 0x8_0000_0000

  function Pow2(n: nat): (p: nat)
    ensures 0 < p
  {
    if n == 0 then 1 else 2 * Pow2(n - 1)
  }

  /** The position of the highest set bit: `63 - leading_zeros` on a 64-bit word. */
  function HighestBit(v: nat): nat
    requires 0 < v
  {
    if v == 1 then 0 else 1 + HighestBit(v / 2)
  }

  function SlotOf(nanos: nat): (slot: nat)
    ensures slot < SLOTS
  {
    var value := Min(nanos, CEILING_NANOS);
    if value < SUB_BUCKETS then value
    else
      OctaveAtLeastSubBits(value);
      var shift := HighestBit(value) - SUB_BITS;
      var index := (value / Pow2(shift)) % SUB_BUCKETS;
      Min(SUB_BUCKETS + shift * SUB_BUCKETS + index, SLOTS - 1)
  }

  datatype Range = Range(low: nat, high: nat)

  /** The inclusive range of latencies one bucket covers. */
  function SlotRange(slot: nat): Range
    requires slot < SLOTS
  {
    if slot < SUB_BUCKETS then Range(slot, slot)
    else
      var shift := (slot - SUB_BUCKETS) / SUB_BUCKETS;
      var index := (slot - SUB_BUCKETS) % SUB_BUCKETS;
      var width := Pow2(shift);
      var low := Pow2(SUB_BITS + shift) + index * width;
      Range(low, low + width - 1)
  }

  /** What a bucket reports: the midpoint of its range. */
  function SlotValue(slot: nat): nat
    requires slot < SLOTS
  {
    var range := SlotRange(slot);
    range.low + (range.high - range.low) / 2
  }

  // Powers of two and the highest bit

  lemma DoubleProduct(p: nat, q: nat)
    ensures 2 * (p * q) == (2 * p) * q == q * (2 * p)
  {
  }

  lemma {:induction false} Pow2Add(m: nat, n: nat)
    ensures Pow2(m + n) == Pow2(m) * Pow2(n)
  {
    if m != 0 {
      Pow2Add(m - 1, n);
      DoubleProduct(Pow2(m - 1), Pow2(n));
    }
  }

  lemma {:induction false} Pow2Monotone(m: nat, n: nat)
    requires m <= n
    ensures Pow2(m) <= Pow2(n)
  {
    if m < n {
      Pow2Monotone(m, n - 1);
    }
  }

  lemma Pow2Values()
    ensures Pow2(0) == 1 && Pow2(SUB_BITS) == SUB_BUCKETS && Pow2(SUB_BITS + 1) == 512
    ensures Pow2(SUB_BITS + OCTAVES) == CEILING_NANOS
  {
    assert Pow2(8) == 256;
    assert Pow2(9) == 512;
    assert Pow2(18) == 0x4_0000 by {
      Pow2Add(9, 9);
    }
    assert Pow2(17) == 0x2_0000 by {
      Pow2Add(8, 9);
    }
    Pow2Add(17, 18);
  }

  lemma {:induction false} HighestBitBounds(v: nat)
    requires 0 < v
    ensures Pow2(HighestBit(v)) <= v < Pow2(HighestBit(v) + 1)
  {
    if v != 1 {
      HighestBitBounds(v / 2);
    }
  }

  lemma OctaveAtLeastSubBits(v: nat)
    requires SUB_BUCKETS <= v
    ensures SUB_BITS <= HighestBit(v)
  {
    HighestBitBounds(v);
    Pow2Values();
    if HighestBit(v) < SUB_BITS {
      Pow2Monotone(HighestBit(v) + 1, SUB_BITS);
    }
  }

  lemma HighestBitUnique(v: nat, n: nat)
    requires Pow2(n) <= v < Pow2(n + 1)
    ensures 0 < v && HighestBit(v) == n
  {
    HighestBitBounds(v);
    if HighestBit(v) < n {
      Pow2Monotone(HighestBit(v) + 1, n);
    } else if n < HighestBit(v) {
      Pow2Monotone(n + 1, HighestBit(v));
    }
  }

  // The map and its ranges

  /** Bucket `shift * 256 + q`: octave `shift`, and a 9-bit mantissa `q` with its top bit set. */
  predicate Scaled(slot: nat, shift: nat, q: nat)
  {
    shift < OCTAVES && 256 <= q < 512 && slot == shift * 256 + q
  }

  lemma ScaledExists(slot: nat)
    requires SUB_BUCKETS <= slot < SLOTS
    ensures Scaled(slot, slot / 256 - 1, slot - (slot / 256 - 1) * 256)
  {
  }

  lemma ScaleRange(width: nat, q: nat)
    ensures 256 * width + (q - 256) * width == q * width
    ensures (q + 1) * width == q * width + width
  {
  }

  lemma ScaledRange(slot: nat, shift: nat, q: nat)
    requires Scaled(slot, shift, q)
    ensures SlotRange(slot) == Range(q * Pow2(shift), (q + 1) * Pow2(shift) - 1)
  {
    hide Pow2;
    Pow2Add(SUB_BITS, shift);
    Pow2Values();
    ScaledIndex(slot, shift, q);
    ScaleRange(Pow2(shift), q);
  }

  lemma ScaledIndex(slot: nat, shift: nat, q: nat)
    requires Scaled(slot, shift, q)
    ensures (slot - SUB_BUCKETS) / SUB_BUCKETS == shift && (slot - SUB_BUCKETS) % SUB_BUCKETS == q - 256
  {
  }

  /** The ranges tile `[0, CEILING_NANOS)` without gap or overlap. */
  lemma RangesTile(slot: nat)
    requires slot < SLOTS
    ensures SlotRange(slot).low <= SlotRange(slot).high
    ensures slot == 0 ==> SlotRange(slot).low == 0
    ensures slot + 1 < SLOTS ==> SlotRange(slot + 1).low == SlotRange(slot).high + 1
    ensures slot + 1 == SLOTS ==> SlotRange(slot).high == CEILING_NANOS - 1
  {
    if SUB_BUCKETS <= slot {
      ScaledExists(slot);
      ScaledTile(slot, slot / 256 - 1, slot - (slot / 256 - 1) * 256);
    } else if slot + 1 == SUB_BUCKETS {
      ScaledRange(slot + 1, 0, 256);
    }
  }

  lemma ScaledTile(slot: nat, shift: nat, q: nat)
    requires Scaled(slot, shift, q)
    ensures SlotRange(slot).low <= SlotRange(slot).high
    ensures slot + 1 < SLOTS ==> SlotRange(slot + 1).low == SlotRange(slot).high + 1
    ensures slot + 1 == SLOTS ==> SlotRange(slot).high == CEILING_NANOS - 1
  {
    ScaledRange(slot, shift, q);
    ScaleRange(Pow2(shift), q);
    if q < 511 {
      ScaledRange(slot + 1, shift, q + 1);
    } else if shift + 1 < OCTAVES {
      ScaledRange(slot + 1, shift + 1, 256);
      assert 256 * Pow2(shift + 1) == 512 * Pow2(shift);
    } else {
      Pow2Values();
      Pow2Add(SUB_BITS + 1, shift);
    }
  }

  lemma {:induction false} RangesOrdered(a: nat, b: nat)
    requires a < b < SLOTS
    ensures SlotRange(a).high < SlotRange(b).low
    decreases b
  {
    RangesTile(a);
    RangesTile(b - 1);
    if a < b - 1 {
      RangesOrdered(a, b - 1);
    }
  }

  lemma Mantissa(v: nat, width: nat) returns (q: nat)
    requires 0 < width && 256 * width <= v < 512 * width
    ensures q == v / width && 256 <= q < 512 && v == q * width + v % width
    ensures q % SUB_BUCKETS == q - 256
  {
    q := v / width;
    Division(v, width);
    if q < 256 {
      ProductMonotone(q + 1, 256, width);
    } else if 512 <= q {
      ProductMonotone(512, q, width);
    }
    ScaleRange(width, q);
  }

  /** The width of the bucket that holds a latency below the ceiling, read off its highest bit. */
  function Width(v: nat): (w: nat)
    ensures w == 1 || (w != 0 && w % 2 == 0)
  {
    if v < SUB_BUCKETS then 1
    else
      OctaveAtLeastSubBits(v);
      Pow2(HighestBit(v) - SUB_BITS)
  }

  lemma OctaveMantissa(v: nat) returns (shift: nat, q: nat)
    requires SUB_BUCKETS <= v < CEILING_NANOS
    ensures Width(v) == Pow2(shift) && Scaled(SlotOf(v), shift, q)
    ensures v == q * Pow2(shift) + v % Pow2(shift) && 256 * Pow2(shift) <= v
  {
    hide SlotOf, HighestBit, Pow2;
    OctaveAtLeastSubBits(v);
    shift := HighestBit(v) - SUB_BITS;
    OctaveBounds(v, shift);
    q := Mantissa(v, Pow2(shift));
    SlotOfOctave(v, shift, q);
  }

  lemma SlotOfOctave(v: nat, shift: nat, q: nat)
    requires SUB_BUCKETS <= v < CEILING_NANOS && HighestBit(v) == SUB_BITS + shift && shift < OCTAVES
    requires q == v / Pow2(shift) && 256 <= q < 512 && q % SUB_BUCKETS == q - 256
    ensures SlotOf(v) == shift * 256 + q
  {
    hide HighestBit, Pow2;
  }

  lemma OctaveBounds(v: nat, shift: nat)
    requires SUB_BUCKETS <= v < CEILING_NANOS && HighestBit(v) == SUB_BITS + shift
    ensures shift < OCTAVES && 256 * Pow2(shift) <= v < 512 * Pow2(shift)
  {
    hide HighestBit;
    HighestBitBounds(v);
    Pow2Values();
    if OCTAVES <= shift {
      Pow2Monotone(SUB_BITS + OCTAVES, HighestBit(v));
    }
    Pow2Add(SUB_BITS, shift);
    Pow2Add(SUB_BITS + 1, shift);
  }

  lemma ExactSlot(v: nat)
    requires v < SUB_BUCKETS
    ensures SlotOf(v) == v && Width(v) == 1 && v % 1 == 0
  {
  }

  lemma SlotCovers(v: nat)
    requires v < CEILING_NANOS
    ensures SlotRange(SlotOf(v)).low <= v <= SlotRange(SlotOf(v)).high
  {
    hide SlotOf;
    if v < SUB_BUCKETS {
      ExactSlot(v);
    } else {
      var shift, q := OctaveMantissa(v);
      ScaledRange(SlotOf(v), shift, q);
      ScaleRange(Pow2(shift), q);
    }
  }

  /** Below the ceiling, a latency is in a bucket exactly when it is in that bucket's range. */
  lemma SlotIffRange(v: nat, slot: nat)
    requires v < CEILING_NANOS && slot < SLOTS
    ensures SlotOf(v) == slot <==> SlotRange(slot).low <= v <= SlotRange(slot).high
  {
    SlotCovers(v);
    if SlotOf(v) < slot {
      RangesOrdered(SlotOf(v), slot);
    } else if slot < SlotOf(v) {
      RangesOrdered(slot, SlotOf(v));
    }
  }

  /** At or past the ceiling every latency lands in the last bucket. */
  lemma SlotAtCeiling(v: nat)
    requires CEILING_NANOS <= v
    ensures SlotOf(v) == SLOTS - 1
  {
    Pow2Values();
    assert Pow2(SUB_BITS + OCTAVES + 1) == 2 * CEILING_NANOS;
    HighestBitUnique(CEILING_NANOS, SUB_BITS + OCTAVES);
  }

  /** A larger latency never lands in an earlier bucket, clamped or not. */
  lemma SlotMonotone(v: nat, w: nat)
    requires v <= w
    ensures SlotOf(v) <= SlotOf(w)
  {
    if CEILING_NANOS <= w {
      SlotAtCeiling(w);
    } else {
      SlotCovers(v);
      SlotCovers(w);
      if SlotOf(w) < SlotOf(v) {
        RangesOrdered(SlotOf(w), SlotOf(v));
      }
    }
  }

  /** A reported midpoint is inside its bucket's range, so it reports back into the same bucket. */
  lemma MidpointInRange(slot: nat)
    requires slot < SLOTS
    ensures SlotRange(slot).low <= SlotValue(slot) <= SlotRange(slot).high
    ensures SlotOf(SlotValue(slot)) == slot
  {
    RangesTile(slot);
    if slot + 1 < SLOTS {
      RangesOrdered(slot, SLOTS - 1);
    }
    RangesTile(SLOTS - 1);
    SlotIffRange(SlotValue(slot), slot);
  }

  lemma SlotValueMonotone(a: nat, b: nat)
    requires a <= b < SLOTS
    ensures SlotValue(a) <= SlotValue(b)
  {
    MidpointInRange(a);
    MidpointInRange(b);
    if a < b {
      RangesOrdered(a, b);
    }
  }

  // What a bucket reports of the latency it holds

  /** Below the ceiling a latency is reported as its own multiple of the width, plus half the width rounded down. */
  lemma ReportedValue(v: nat)
    requires v < CEILING_NANOS
    ensures v % Width(v) <= v && SlotValue(SlotOf(v)) == v - v % Width(v) + (Width(v) - 1) / 2
    ensures Width(v) == 1 || 256 * Width(v) <= v
  {
    hide SlotOf, HighestBit;
    if v < SUB_BUCKETS {
      ExactSlot(v);
    } else {
      var shift, q := OctaveMantissa(v);
      ScaledRange(SlotOf(v), shift, q);
      ScaleRange(Pow2(shift), q);
    }
  }

  /** At the ceiling the last bucket's midpoint falls short. */
  lemma ReportedCeiling()
    ensures SlotValue(SlotOf(CEILING_NANOS)) < CEILING_NANOS
  {
    hide SlotOf, SlotRange, SlotValue;
    SlotAtCeiling(CEILING_NANOS);
    MidpointInRange(SLOTS - 1);
    RangesTile(SLOTS - 1);
  }

  /** The quantisation bound: a latency below the ceiling is reported within one part in 512. */
  lemma MidpointError(v: nat)
    requires v < CEILING_NANOS
    ensures -(v / 512) <= SlotValue(SlotOf(v)) - v <= v / 512
  {
    hide SlotOf, SlotValue, Width;
    ReportedValue(v);
    var w, r := Width(v), v % Width(v);
    assert r < w;
    if w != 1 {
      assert 512 * (w / 2) <= v;
    }
  }
}
