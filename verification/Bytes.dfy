/** Bytes and the exclusive or of unsigned values. */
module Bytes {
  type byte = x: int | 0 <= x < 256

  function Zeros(k: nat): (z: seq<byte>)
    ensures |z| == k && forall i :: 0 <= i < k ==> z[i] == 0
  {
    seq(k, i => 0)
  }

  /** Exclusive or, one binary digit at a time. */
  function XorNat(a: nat, b: nat): nat {
    if a == 0 && b == 0 then 0
    else 2 * XorNat(a / 2, b / 2) + (if a % 2 == b % 2 then 0 else 1)
  }

  lemma XorDigits(a: nat, b: nat)
    ensures XorNat(a, b) / 2 == XorNat(a / 2, b / 2)
    ensures XorNat(a, b) % 2 == if a % 2 == b % 2 then 0 else 1
  {
  }

  lemma XorNatPush(a: nat, b: nat, i: nat, j: nat)
    requires i < 2 && j < 2
    ensures XorNat(2 * a + i, 2 * b + j) == 2 * XorNat(a, b) + (if i == j then 0 else 1)
  {
  }

  lemma {:induction false} XorNatAssociates(a: nat, b: nat, c: nat)
    ensures XorNat(XorNat(a, b), c) == XorNat(a, XorNat(b, c))
    decreases a + b + c
  {
    if a + b + c > 0 {
      XorDigits(a, b);
      XorDigits(b, c);
      XorDigits(XorNat(a, b), c);
      XorDigits(a, XorNat(b, c));
      XorNatAssociates(a / 2, b / 2, c / 2);
    }
  }

  lemma {:induction false} XorNatCommutes(a: nat, b: nat)
    ensures XorNat(a, b) == XorNat(b, a)
    decreases a + b
  {
    if a + b > 0 {
      XorNatCommutes(a / 2, b / 2);
    }
  }

  lemma {:induction false} XorNatUnits(a: nat)
    ensures XorNat(a, a) == 0 && XorNat(a, 0) == a && XorNat(0, a) == a
  {
    if a > 0 {
      XorNatUnits(a / 2);
    }
  }

  /** Adding digit strings that do not overlap a power of two, or both carry its digit. */
  lemma {:induction false} XorNatHigh(a: nat, b: nat, k: nat)
    requires a < 2 * Two(k) && b < 2 * Two(k)
    ensures XorNat(a, b) < 2 * Two(k)
    ensures XorNat(a, b) >= Two(k) <==> (a >= Two(k)) != (b >= Two(k))
  {
    if a + b > 0 && k > 0 {
      XorNatHigh(a / 2, b / 2, k - 1);
    }
  }

  function Two(k: nat): (p: nat)
    ensures p > 0
  {
    if k == 0 then 1 else 2 * Two(k - 1)
  }

  lemma {:induction false} XorNatTop(a: nat, b: nat, k: nat)
    requires a < Two(k) && b < Two(k)
    ensures XorNat(Two(k) + a, Two(k) + b) == XorNat(a, b)
  {
    if k > 0 {
      assert (Two(k) + a) / 2 == Two(k - 1) + a / 2 && (Two(k) + b) / 2 == Two(k - 1) + b / 2;
      XorNatTop(a / 2, b / 2, k - 1);
    }
  }

  /** Exclusive or of two bytes, the ^ of rs.c. */
  function Xor(a: byte, b: byte): byte {
    assert Two(7) == 128;
    XorNatHigh(a, b, 7);
    XorNat(a, b)
  }

  /** The number that the low k bits of a machine byte spell. */
  function Digits(v: bv8, k: nat): (d: nat)
    ensures d < Two(k)
    decreases k
  {
    if k == 0 then 0 else 2 * Digits(v >> 1, k - 1) + (if v & 1 != 0 then 1 else 0)
  }

  function Bit(v: bv8, mask: bv8, weight: nat): nat {
    if v & mask != 0 then weight else 0
  }

  lemma DigitsStep(v: bv8, w: bv8, k: nat, bit: nat)
    requires k > 0 && w == v >> 1 && bit == if v & 1 != 0 then 1 else 0
    ensures Digits(v, k) == 2 * Digits(w, k - 1) + bit
  {
  }

  lemma DigitsOfPair(v: bv8, k: nat)
    requires k >= 2
    ensures Digits(v, k) == 4 * Digits(v >> 2, k - 2) + Bit(v, 0x01, 1) + Bit(v, 0x02, 2)
  {
    hide Digits;
    DigitsStep(v, v >> 1, k, Bit(v, 0x01, 1));
    DigitsStep(v >> 1, v >> 2, k - 1, Bit(v, 0x02, 1));
  }

  lemma HighBits(v: bv8)
    ensures 4 * Bit(v >> 2, 0x01, 1) == Bit(v, 0x04, 4) && 4 * Bit(v >> 2, 0x02, 2) == Bit(v, 0x08, 8)
    ensures 16 * Bit(v >> 4, 0x01, 1) == Bit(v, 0x10, 16) && 16 * Bit(v >> 4, 0x02, 2) == Bit(v, 0x20, 32)
    ensures 64 * Bit(v >> 6, 0x01, 1) == Bit(v, 0x40, 64) && 64 * Bit(v >> 6, 0x02, 2) == Bit(v, 0x80, 128)
    ensures (v >> 2) >> 2 == v >> 4 && (v >> 4) >> 2 == v >> 6
  {
  }

  lemma DigitsOfByte(v: bv8)
    ensures Digits(v, 8) == Bit(v, 0x01, 1) + Bit(v, 0x02, 2) + Bit(v, 0x04, 4) + Bit(v, 0x08, 8)
                            + Bit(v, 0x10, 16) + Bit(v, 0x20, 32) + Bit(v, 0x40, 64) + Bit(v, 0x80, 128)
  {
    hide Digits, Bit;
    DigitsOfPair(v, 8);
    DigitsOfPair(v >> 2, 6);
    DigitsOfPair(v >> 4, 4);
    DigitsOfPair(v >> 6, 2);
    HighBits(v);
    NoDigits((v >> 6) >> 2);
  }

  lemma NoDigits(v: bv8)
    ensures Digits(v, 0) == 0
  {
  }

  lemma XorHalves(u: bv8, v: bv8, u': bv8, v': bv8, x': bv8, i: nat, j: nat)
    requires u' == u >> 1 && v' == v >> 1 && x' == (u ^ v) >> 1
    requires i == Bit(u, 1, 1) && j == Bit(v, 1, 1)
    ensures x' == u' ^ v' && Bit(u ^ v, 1, 1) == if i == j then 0 else 1
  {
  }

  lemma XorDigitsStep(u: bv8, v: bv8, k: nat)
    requires k > 0
    requires XorNat(Digits(u >> 1, k - 1), Digits(v >> 1, k - 1)) == Digits((u ^ v) >> 1, k - 1)
    ensures XorNat(Digits(u, k), Digits(v, k)) == Digits(u ^ v, k)
  {
    hide XorNat, Digits;
    var i, j, x := Bit(u, 1, 1), Bit(v, 1, 1), u ^ v;
    DigitsStep(u, u >> 1, k, i);
    DigitsStep(v, v >> 1, k, j);
    DigitsStep(x, x >> 1, k, Bit(x, 1, 1));
    XorHalves(u, v, u >> 1, v >> 1, x >> 1, i, j);
    XorNatPush(Digits(u >> 1, k - 1), Digits(v >> 1, k - 1), i, j);
  }

  /** The digitwise definition is the machine's exclusive or. */
  lemma {:induction false} XorNatIsBits(u: bv8, v: bv8, k: nat)
    ensures XorNat(Digits(u, k), Digits(v, k)) == Digits(u ^ v, k)
    decreases k
  {
    if k == 0 {
      NoDigits(u);
      NoDigits(v);
      NoDigits(u ^ v);
    } else {
      XorHalves(u, v, u >> 1, v >> 1, (u ^ v) >> 1, Bit(u, 1, 1), Bit(v, 1, 1));
      XorNatIsBits(u >> 1, v >> 1, k - 1);
      XorDigitsStep(u, v, k);
    }
  }

  lemma XorAssociates(a: byte, b: byte, c: byte)
    ensures Xor(Xor(a, b), c) == Xor(a, Xor(b, c))
  {
    XorNatAssociates(a, b, c);
  }

  lemma XorCommutes(a: byte, b: byte)
    ensures Xor(a, b) == Xor(b, a)
  {
    XorNatCommutes(a, b);
  }

  lemma XorUnits(a: byte)
    ensures Xor(a, a) == 0 && Xor(a, 0) == a && Xor(0, a) == a
  {
    XorNatUnits(a);
  }

  lemma XorInterchange(a: byte, b: byte, c: byte, d: byte)
    ensures Xor(Xor(a, b), Xor(c, d)) == Xor(Xor(a, c), Xor(b, d))
  {
    hide Xor;
    XorAssociates(a, b, Xor(c, d));
    XorAssociates(b, c, d);
    XorCommutes(b, c);
    XorAssociates(c, b, d);
    XorAssociates(a, c, Xor(b, d));
  }

  lemma XorCancels(a: byte, b: byte)
    ensures Xor(a, Xor(a, b)) == b && Xor(Xor(b, a), a) == b
    ensures Xor(a, b) == 0 <==> a == b
  {
    hide Xor;
    XorAssociates(a, a, b);
    XorAssociates(b, a, a);
    XorUnits(a);
    XorUnits(b);
    XorAssociates(a, b, b);
  }
}
