/**
 * Exclusive or on given 64-bit words: a word spelled in hexadecimal digits, whose exclusive or is taken
 * digit by digit, bit by bit.
 */
module HexWords {
  import opened Words
  import opened BitWords

  datatype Digit = Digit(b3: bool, b2: bool, b1: bool, b0: bool)
  {
    function Value(): nat { Nibble(b3, b2, b1, b0) }

    function Xored(d: Digit): Digit { Digit(b3 != d.b3, b2 != d.b2, b1 != d.b1, b0 != d.b0) }
  }

  const H0 := Digit(false, false, false, false)
  const H1 := Digit(false, false, false, true)
  const H2 := Digit(false, false, true, false)
  const H3 := Digit(false, false, true, true)
  const H4 := Digit(false, true, false, false)
  const H5 := Digit(false, true, false, true)
  const H6 := Digit(false, true, true, false)
  const H7 := Digit(false, true, true, true)
  const H8 := Digit(true, false, false, false)
  const H9 := Digit(true, false, false, true)
  const HA := Digit(true, false, true, false)
  const HB := Digit(true, false, true, true)
  const HC := Digit(true, true, false, false)
  const HD := Digit(true, true, false, true)
  const HE := Digit(true, true, true, false)
  const HF := Digit(true, true, true, true)

  /** Four digits. */
  datatype Quad = Quad(d3: Digit, d2: Digit, d1: Digit, d0: Digit)
  {
    function Value(): nat { 0x1000 * d3.Value() + 0x100 * d2.Value() + 0x10 * d1.Value() + d0.Value() }

    function Xored(q: Quad): Quad { Quad(d3.Xored(q.d3), d2.Xored(q.d2), d1.Xored(q.d1), d0.Xored(q.d0)) }
  }

  /** Sixteen digits. */
  datatype Hex = Hex(q3: Quad, q2: Quad, q1: Quad, q0: Quad)
  {
    function Value(): nat
    {
      0x1_0000_0000_0000 * q3.Value() + 0x1_0000_0000 * q2.Value() + 0x1_0000 * q1.Value() + q0.Value()
    }

    function Xored(w: Hex): Hex { Hex(q3.Xored(w.q3), q2.Xored(w.q2), q1.Xored(w.q1), q0.Xored(w.q0)) }
  }

  function Bit(b: bool): nat { if b then 1 else 0 }

  function Nibble(x3: bool, x2: bool, x1: bool, x0: bool): nat { 8 * Bit(x3) + 4 * Bit(x2) + 2 * Bit(x1) + Bit(x0) }

  lemma XorPeelsBit(a: nat, b: nat, x: bool, y: bool)
    ensures Xor(2 * a + Bit(x), 2 * b + Bit(y)) == 2 * Xor(a, b) + Bit(x != y)
  {
    hide Xor;
    XorHalves(2 * a + Bit(x), 2 * b + Bit(y));
  }

  lemma XorPeelsPair(a: nat, b: nat, x1: bool, x0: bool, y1: bool, y0: bool)
    ensures Xor(4 * a + 2 * Bit(x1) + Bit(x0), 4 * b + 2 * Bit(y1) + Bit(y0))
         == 4 * Xor(a, b) + 2 * Bit(x1 != y1) + Bit(x0 != y0)
  {
    hide Xor, Bit;
    XorPeelsBit(a, b, x1, y1);
    XorPeelsBit(2 * a + Bit(x1), 2 * b + Bit(y1), x0, y0);
  }

  lemma XorPeelsNibble(a: nat, b: nat, x3: bool, x2: bool, x1: bool, x0: bool, y3: bool, y2: bool, y1: bool, y0: bool)
    ensures Xor(0x10 * a + Nibble(x3, x2, x1, x0), 0x10 * b + Nibble(y3, y2, y1, y0))
         == 0x10 * Xor(a, b) + Nibble(x3 != y3, x2 != y2, x1 != y1, x0 != y0)
  {
    hide Xor, Bit;
    XorPeelsPair(a, b, x3, x2, y3, y2);
    XorPeelsPair(4 * a + 2 * Bit(x3) + Bit(x2), 4 * b + 2 * Bit(y3) + Bit(y2), x1, x0, y1, y0);
  }

  lemma XorPeelsDigit(a: nat, b: nat, d: Digit, e: Digit)
    ensures Xor(0x10 * a + d.Value(), 0x10 * b + e.Value()) == 0x10 * Xor(a, b) + d.Xored(e).Value()
  {
    hide Xor, Nibble;
    XorPeelsNibble(a, b, d.b3, d.b2, d.b1, d.b0, e.b3, e.b2, e.b1, e.b0);
  }

  lemma XorPeelsByte(a: nat, b: nat, d1: Digit, d0: Digit, e1: Digit, e0: Digit)
    ensures Xor(0x100 * a + 0x10 * d1.Value() + d0.Value(), 0x100 * b + 0x10 * e1.Value() + e0.Value())
         == 0x100 * Xor(a, b) + 0x10 * d1.Xored(e1).Value() + d0.Xored(e0).Value()
  {
    hide Xor, Digit.Value, Digit.Xored;
    XorPeelsDigit(a, b, d1, e1);
    XorPeelsDigit(0x10 * a + d1.Value(), 0x10 * b + e1.Value(), d0, e0);
  }

  lemma XorPeelsQuad(a: nat, b: nat, p: Quad, q: Quad)
    ensures Xor(0x1_0000 * a + p.Value(), 0x1_0000 * b + q.Value()) == 0x1_0000 * Xor(a, b) + p.Xored(q).Value()
  {
    hide Xor, Digit.Value, Digit.Xored;
    XorPeelsByte(a, b, p.d3, p.d2, q.d3, q.d2);
    XorPeelsByte(0x100 * a + 0x10 * p.d3.Value() + p.d2.Value(), 0x100 * b + 0x10 * q.d3.Value() + q.d2.Value(),
                 p.d1, p.d0, q.d1, q.d0);
  }

  lemma XorPeelsHalf(a: nat, b: nat, p1: Quad, p0: Quad, q1: Quad, q0: Quad)
    ensures Xor(0x1_0000_0000 * a + 0x1_0000 * p1.Value() + p0.Value(),
                0x1_0000_0000 * b + 0x1_0000 * q1.Value() + q0.Value())
         == 0x1_0000_0000 * Xor(a, b) + 0x1_0000 * p1.Xored(q1).Value() + p0.Xored(q0).Value()
  {
    hide Xor, Quad.Value, Quad.Xored;
    XorPeelsQuad(a, b, p1, q1);
    XorPeelsQuad(0x1_0000 * a + p1.Value(), 0x1_0000 * b + q1.Value(), p0, q0);
  }

  /** The exclusive or of two words is taken digit by digit. */
  lemma XorByDigits(v: Hex, w: Hex)
    ensures Xor(v.Value(), w.Value()) == v.Xored(w).Value()
  {
    hide Xor, Quad.Value, Quad.Xored;
    XorEqualIffZero(0, 0);
    XorPeelsHalf(0, 0, v.q3, v.q2, w.q3, w.q2);
    XorPeelsHalf(0x1_0000 * v.q3.Value() + v.q2.Value(), 0x1_0000 * w.q3.Value() + w.q2.Value(), v.q1, v.q0, w.q1, w.q0);
  }

  lemma DigitValues()
    ensures
      && H0.Value() == 0 && H1.Value() == 1 && H2.Value() == 2 && H3.Value() == 3
      && H4.Value() == 4 && H5.Value() == 5 && H6.Value() == 6 && H7.Value() == 7
      && H8.Value() == 8 && H9.Value() == 9 && HA.Value() == 10 && HB.Value() == 11
      && HC.Value() == 12 && HD.Value() == 13 && HE.Value() == 14 && HF.Value() == 15
  {
  }

  /** A given exclusive or, from the spelling of its three words. */
  lemma XorIs(a: nat, b: nat, c: nat, v: Hex, w: Hex, x: Hex)
    requires v.Value() == a && w.Value() == b && x.Value() == c && v.Xored(w) == x
    ensures Xor(a, b) == c
  {
    hide Xor, Hex.Value, Hex.Xored;
    XorByDigits(v, w);
  }
}
