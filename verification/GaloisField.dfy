/** The field GF(2^8) with the primitive polynomial 1 + x^2 + x^3 + x^4 + x^8. */
module GaloisField {
  import opened Bytes


  /** 1 + x^2 + x^3 + x^4 + x^8. */
  const PRIMITIVE := 0x11d

  /** Multiplication by the primitive element x. */
  function Times2(a: byte): byte {
    if a < 128 then 2 * a else Reduce(a)
  }

  function Reduce(a: byte): (r: byte)
    requires a >= 128
    ensures r == XorNat(2 * a, PRIMITIVE)
    ensures r == Xor(2 * a - 256, 0x1d)
  {
    assert Two(8) == 256;
    XorNatTop(2 * a - 256, 0x1d, 8);
    Xor(2 * a - 256, 0x1d)
  }

  lemma Times2Xor(a: byte, b: byte)
    ensures Times2(Xor(a, b)) == Xor(Times2(a), Times2(b))
  {
    assert Two(7) == 128;
    XorNatHigh(a, b, 7);
    assert XorNat(2 * a, 2 * b) == 2 * XorNat(a, b);
    if a >= 128 {
      XorNatAssociates(2 * a, PRIMITIVE, Times2(b));
      XorNatAssociates(PRIMITIVE, 2 * b, PRIMITIVE);
      XorNatCommutes(PRIMITIVE, 2 * b);
      XorNatAssociates(2 * b, PRIMITIVE, PRIMITIVE);
      XorNatUnits(PRIMITIVE);
      XorNatUnits(2 * b);
      XorNatAssociates(2 * a, 2 * b, PRIMITIVE);
    } else if b >= 128 {
      XorNatAssociates(2 * a, 2 * b, PRIMITIVE);
    }
  }

  lemma Times2Zero(a: byte)
    ensures Times2(a) == 0 <==> a == 0
  {
    if a >= 128 {
      XorDigits(2 * a, PRIMITIVE);
    }
  }

  lemma Times2Injective(a: byte, b: byte)
    requires Times2(a) == Times2(b)
    ensures a == b
  {
    Times2Xor(a, b);
    XorCancels(Times2(a), Times2(b));
    Times2Zero(Xor(a, b));
    XorCancels(a, b);
  }

  ghost function Shift(i: nat, b: byte): byte {
    if i == 0 then b else Times2(Shift(i - 1, b))
  }

  /** The i-th power of the primitive element. */
  ghost function Exp(i: nat): byte {
    Shift(i, 1)
  }

  lemma {:induction false} ShiftXor(i: nat, a: byte, b: byte)
    ensures Shift(i, Xor(a, b)) == Xor(Shift(i, a), Shift(i, b))
  {
    if i > 0 {
      ShiftXor(i - 1, a, b);
      Times2Xor(Shift(i - 1, a), Shift(i - 1, b));
    }
  }

  lemma {:induction false} ShiftAdd(i: nat, j: nat, b: byte)
    ensures Shift(i + j, b) == Shift(i, Shift(j, b))
  {
    if i > 0 {
      ShiftAdd(i - 1, j, b);
    }
  }

  lemma {:induction false} ShiftInjective(i: nat, a: byte, b: byte)
    requires Shift(i, a) == Shift(i, b)
    ensures a == b
  {
    if i > 0 {
      Times2Injective(Shift(i - 1, a), Shift(i - 1, b));
      ShiftInjective(i - 1, a, b);
    }
  }

  lemma {:induction false} ShiftZero(i: nat)
    ensures Shift(i, 0) == 0
  {
    if i > 0 {
      ShiftZero(i - 1);
    }
  }

  lemma ExpNonzero(i: nat)
    ensures Exp(i) != 0
  {
    ShiftZero(i);
    if Exp(i) == 0 {
      ShiftInjective(i, 1, 0);
    }
  }

  function Times2Bits(v: bv8): bv8 {
    (v << 1) ^ (if v & 0x80 != 0 then 0x1d else 0)
  }

  function Times2Four(v: bv8): bv8 {
    Times2Bits(Times2Bits(Times2Bits(Times2Bits(v))))
  }

  lemma DoubleDigits(v: bv8)
    ensures Digits(v << 1, 8) == if v & 0x80 == 0 then 2 * Digits(v, 8) else 2 * Digits(v, 8) - 256
  {
    hide Digits, Bit;
    DigitsOfByte(v);
    DigitsOfByte(v << 1);
    DoubleBits(v);
    var sum := Bit(v, 0x01, 1) + Bit(v, 0x02, 2) + Bit(v, 0x04, 4) + Bit(v, 0x08, 8)
               + Bit(v, 0x10, 16) + Bit(v, 0x20, 32) + Bit(v, 0x40, 64);
    assert Digits(v << 1, 8) == 2 * sum && Digits(v, 8) == sum + Bit(v, 0x80, 128);
  }

  lemma DoubleBits(v: bv8)
    ensures Bit(v << 1, 0x01, 1) == 0
    ensures Bit(v << 1, 0x02, 2) == 2 * Bit(v, 0x01, 1) && Bit(v << 1, 0x04, 4) == 2 * Bit(v, 0x02, 2)
    ensures Bit(v << 1, 0x08, 8) == 2 * Bit(v, 0x04, 4) && Bit(v << 1, 0x10, 16) == 2 * Bit(v, 0x08, 8)
    ensures Bit(v << 1, 0x20, 32) == 2 * Bit(v, 0x10, 16) && Bit(v << 1, 0x40, 64) == 2 * Bit(v, 0x20, 32)
    ensures Bit(v << 1, 0x80, 128) == 2 * Bit(v, 0x40, 64)
    ensures Bit(v, 0x80, 128) == if v & 0x80 == 0 then 0 else 128
  {
  }

  lemma TopDigit(v: bv8)
    ensures v & 0x80 == 0 <==> Digits(v, 8) < 128
  {
    hide Digits;
    DigitsOfByte(v);
  }

  lemma ReductionDigits()
    ensures Digits(0x1d, 8) == 0x1d
  {
    hide Digits;
    DigitsOfByte(0x1d);
  }

  lemma Times2IsBits(v: bv8)
    ensures Digits(v, 8) < 256 && Times2(Digits(v, 8)) == Digits(Times2Bits(v), 8)
  {
    hide Digits, XorNat;
    DoubleDigits(v);
    TopDigit(v);
    ReductionDigits();
    XorNatIsBits(v << 1, 0x1d, 8);
  }

  lemma ExpBlocks(i: nat, v: bv8)
    requires Exp(i) == Digits(v, 8)
    ensures Exp(i + 1) == Digits(Times2Bits(v), 8)
    ensures Exp(i + 4) == Digits(Times2Four(v), 8)
    ensures Exp(i + 16) == Digits(Times2Four(Times2Four(Times2Four(Times2Four(v)))), 8)
  {
    hide Times2Bits, Times2Four, Digits, Exp;
    ExpFour(i, v);
    ExpFour(i + 4, Times2Four(v));
    ExpFour(i + 8, Times2Four(Times2Four(v)));
    ExpFour(i + 12, Times2Four(Times2Four(Times2Four(v))));
  }

  lemma ExpFour(i: nat, v: bv8)
    requires Exp(i) == Digits(v, 8)
    ensures Exp(i + 1) == Digits(Times2Bits(v), 8)
    ensures Exp(i + 4) == Digits(Times2Four(v), 8)
  {
    hide Times2Bits, Times2, Digits, Exp;
    ExpStep(i);
    ExpStep(i + 1);
    ExpStep(i + 2);
    ExpStep(i + 3);
    Times2IsBits(v);
    Times2IsBits(Times2Bits(v));
    Times2IsBits(Times2Bits(Times2Bits(v)));
    Times2IsBits(Times2Bits(Times2Bits(Times2Bits(v))));
  }

  lemma ExpStep(i: nat)
    ensures Exp(0) == 1 && Exp(i + 1) == Times2(Exp(i))
  {
  }

  lemma SomeDigits()
    ensures Digits(0x01, 8) == 0x01 && Digits(0x02, 8) == 0x02 && Digits(0x1d, 8) == 0x1d && Digits(0x26, 8) == 0x26
    ensures Digits(0x0a, 8) == 0x0a && Digits(0xd6, 8) == 0xd6 && Digits(0xd7, 8) == 0xd7
  {
    hide Digits;
    DigitsOfByte(0x01);
    DigitsOfByte(0x02);
    DigitsOfByte(0x1d);
    DigitsOfByte(0x26);
    DigitsOfByte(0x0a);
    DigitsOfByte(0xd6);
    DigitsOfByte(0xd7);
  }

  /** The powers that decide the order of the primitive element. */
  lemma SomePowers()
    ensures Exp(1) == 0x02 && Exp(8) == 0x1d && Exp(15) == 0x26 && Exp(51) == 0x0a && Exp(85) == 0xd6
    ensures Exp(170) == 0xd7 && Exp(255) == 0x01
  {
    hide Exp, Digits;
    SomeDigits();
    ExpStep(0);
    ExpBlocks(0, 0x01);
    ExpBlocks(4, 0x10);
    ExpBlocks(8, 0x1d);
    ExpBlocks(12, 0xcd);
    ExpBlocks(13, 0x87);
    ExpBlocks(14, 0x13);
    ExpBlocks(16, 0x4c);
    ExpBlocks(32, 0x9d);
    ExpBlocks(48, 0x46);
    ExpBlocks(64, 0x5f);
    ExpBlocks(80, 0xfd);
    ExpBlocks(96, 0xd9);
    ExpBlocks(112, 0x81);
    ExpBlocks(128, 0x85);
    ExpBlocks(144, 0xa8);
    ExpBlocks(160, 0xe6);
    ExpBlocks(176, 0xe3);
    ExpBlocks(192, 0x82);
    ExpBlocks(208, 0x51);
    ExpBlocks(224, 0x12);
    ExpBlocks(49, 0x8c);
    ExpBlocks(50, 0x05);
    ExpBlocks(84, 0x6b);
    ExpBlocks(164, 0xc6);
    ExpBlocks(168, 0xfc);
    ExpBlocks(169, 0xe5);
    ExpBlocks(240, 0x2c);
    ExpBlocks(244, 0xfa);
    ExpBlocks(248, 0x1b);
    ExpBlocks(252, 0xad);
    ExpBlocks(253, 0x47);
    ExpBlocks(254, 0x8e);
  }

  lemma {:induction false} PeriodOnce(i: nat)
    ensures Exp(i + 255) == Exp(i)
  {
    hide Shift;
    SomePowers();
    ShiftAdd(i, 255, 1);
  }

  lemma {:induction false} ExpMod(i: nat)
    ensures Exp(i) == Exp(i % 255)
  {
    hide Exp;
    if i >= 255 {
      PeriodOnce(i - 255);
      ExpMod(i - 255);
      assert i % 255 == (i - 255) % 255;
    }
  }

  /** No smaller positive power returns to one: the order of x is exactly 255. */
  lemma {:induction false} ExpNotOne(k: nat)
    requires 0 < k < 255
    ensures Exp(k) != 1
    decreases k
  {
    hide Exp;
    if Exp(k) == 1 {
      SomePowers();
      var r := 255 % k;
      ExpMultiple(k, 255 / k, r);
      ExpStep(0);
      if r > 0 {
        ExpNotOne(r);
      } else {
        var m, q := ProperDivisor(k);
        ExpMultiple(k, q, 0);
      }
    }
  }

  lemma {:induction false} ExpMultiple(k: nat, q: nat, r: nat)
    requires Exp(k) == 1
    ensures Exp(q * k + r) == Exp(r)
  {
    hide Shift;
    if q > 0 {
      var i := (q - 1) * k + r;
      ExpMultiple(k, q - 1, r);
      assert q * k + r == i + k;
      ShiftAdd(i, k, 1);
    }
  }

  lemma ProperDivisor(k: nat) returns (m: nat, q: nat)
    requires 0 < k < 255 && 255 % k == 0
    ensures m in {15, 51, 85} && q * k == m
  {
    var c := 255 / k;
    assert c * k == 255;
    if k > 15 {
      assert c * k >= 16 * c;
    }
    assert k in {1, 3, 5, 15, 17, 51, 85};
    m := if 15 % k == 0 then 15 else if 51 % k == 0 then 51 else 85;
    q := m / k;
  }

  lemma ExpInjective(i: nat, j: nat)
    requires i < 255 && j < 255 && Exp(i) == Exp(j)
    ensures i == j
  {
    if i < j {
      ShiftAdd(i, j - i, 1);
      ShiftInjective(i, 1, Exp(j - i));
      ExpNotOne(j - i);
    } else if j < i {
      ExpInjective(j, i);
    }
  }

  /** Pigeonhole: an injective list of n values in [1, n] meets every value. */
  lemma {:induction false} Pigeonhole(s: seq<int>, v: int)
    requires forall i :: 0 <= i < |s| ==> 1 <= s[i] <= |s|
    requires forall i, j :: 0 <= i < j < |s| ==> s[i] != s[j]
    requires 1 <= v <= |s|
    ensures v in s
  {
    var n := |s|;
    if v !in s {
      if n in s {
        var k :| 0 <= k < n && s[k] == n;
        var rest := s[..k] + s[k + 1..];
        if v < n {
          Pigeonhole(rest, v);
        }
      } else {
        Pigeonhole(s[1..], s[0]);
      }
    }
  }

  ghost function ExpTable(n: nat): (s: seq<int>)
    requires n <= 255
    ensures |s| == n
    ensures forall i :: 0 <= i < n ==> s[i] == Exp(i)
  {
    if n == 0 then [] else ExpTable(n - 1) + [Exp(n - 1)]
  }

  lemma ExpSurjective(b: byte)
    requires b != 0
    ensures exists i: nat :: i < 255 && Exp(i) == b
  {
    var s := ExpTable(255);
    forall i | 0 <= i < 255
      ensures 1 <= s[i] <= 255
    {
      ExpNonzero(i);
    }
    forall i, j | 0 <= i < j < 255
      ensures s[i] != s[j]
    {
      if Exp(i) == Exp(j) {
        ExpInjective(i, j);
      }
    }
    Pigeonhole(s, b);
    var i :| 0 <= i < 255 && s[i] == b;
  }

  /** The discrete logarithm that the table index_of stores. */
  ghost function Log(b: byte): (i: nat)
    requires b != 0
    ensures i < 255 && Exp(i) == b
  {
    ExpSurjective(b);
    var i: nat :| i < 255 && Exp(i) == b;
    i
  }

  lemma LogExp(i: nat)
    ensures Exp(i) != 0 && Log(Exp(i)) == i % 255
  {
    ExpNonzero(i);
    ExpMod(i);
    ExpInjective(Log(Exp(i)), i % 255);
  }

  /** The field product, computed through logarithms as the tables do. */
  ghost function Mul(a: byte, b: byte): byte {
    if a == 0 || b == 0 then 0 else Exp(Log(a) + Log(b))
  }

  lemma MulExp(i: nat, j: nat)
    ensures Mul(Exp(i), Exp(j)) == Exp(i + j)
  {
    hide Shift;
    LogExp(i);
    LogExp(j);
    ExpMod(i % 255 + j % 255);
    ExpMod(i + j);
    assert (i % 255 + j % 255) % 255 == (i + j) % 255;
  }

  lemma MulShift(i: nat, b: byte)
    ensures Mul(Exp(i), b) == Shift(i, b)
  {
    hide Shift;
    if b == 0 {
      ShiftZero(i);
    } else {
      MulExp(i, Log(b));
      ShiftAdd(i, Log(b), 1);
    }
  }

  lemma MulCommutes(a: byte, b: byte)
    ensures Mul(a, b) == Mul(b, a)
  {
  }

  lemma MulAssociates(a: byte, b: byte, c: byte)
    ensures Mul(Mul(a, b), c) == Mul(a, Mul(b, c))
  {
    if a != 0 && b != 0 && c != 0 {
      MulExp(Log(a) + Log(b), Log(c));
      MulExp(Log(a), Log(b) + Log(c));
    }
  }

  lemma MulDistributes(a: byte, b: byte, c: byte)
    ensures Mul(a, Xor(b, c)) == Xor(Mul(a, b), Mul(a, c))
    ensures Mul(Xor(b, c), a) == Xor(Mul(b, a), Mul(c, a))
  {
    if a == 0 {
      XorUnits(0);
    } else {
      ShiftXor(Log(a), b, c);
      MulShift(Log(a), Xor(b, c));
      MulShift(Log(a), b);
      MulShift(Log(a), c);
    }
    MulCommutes(a, Xor(b, c));
    MulCommutes(a, b);
    MulCommutes(a, c);
  }

  lemma MulUnit(a: byte)
    ensures Mul(1, a) == a && Mul(a, 1) == a && Mul(0, a) == 0 && Mul(a, 0) == 0
  {
    assert Exp(0) == 1;
    MulShift(0, a);
  }

  lemma MulNonzero(a: byte, b: byte)
    ensures Mul(a, b) == 0 <==> a == 0 || b == 0
  {
    if a != 0 && b != 0 {
      ExpNonzero(Log(a) + Log(b));
    }
  }

  lemma MulCancels(a: byte, b: byte, c: byte)
    requires a != 0 && Mul(a, b) == Mul(a, c)
    ensures b == c
  {
    MulDistributes(a, b, c);
    XorCancels(Mul(a, b), Mul(a, c));
    MulNonzero(a, Xor(b, c));
    XorCancels(b, c);
  }

  /** The product of two bytes read as polynomials over GF(2), reduced by the primitive polynomial. */
  ghost function PolynomialProduct(a: byte, b: byte): byte
    decreases b
  {
    if b == 0 then 0
    else Xor(if b % 2 == 1 then a else 0, PolynomialProduct(Times2(a), b / 2))
  }

  lemma LowBit(b: byte)
    ensures b < 128 ==> Times2(b) == 2 * b
    ensures Xor(b % 2, 2 * (b / 2)) == b
  {
    XorNatUnits(b / 2);
  }

  /** Adding logarithms multiplies polynomials: the tables implement the field. */
  lemma {:induction false} MulIsPolynomialProduct(a: byte, b: byte)
    ensures Mul(a, b) == PolynomialProduct(a, b)
    decreases b
  {
    MulUnit(a);
    if b > 0 {
      var half := b / 2;
      LowBit(b);
      LowBit(half);
      MulDistributes(a, b % 2, 2 * half);
      MulIsPolynomialProduct(Times2(a), half);
      assert Exp(0) == 1 && Exp(1) == Times2(Exp(0)) == 2;
      assert Shift(1, half) == Times2(Shift(0, half)) && Shift(1, a) == Times2(Shift(0, a));
      MulShift(1, half);
      MulShift(1, a);
      MulAssociates(a, 2, half);
      MulCommutes(a, 2);
    }
  }
}
