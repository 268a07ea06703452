/** The 32-bit words of the hash functions and their byte orders. */
module Words {
  import opened Bytes

  const WORD: int := 0x1_0000_0000

  type word = x: int | 0 <= x < WORD

  function AndNat(a: nat, b: nat): nat {
    if a == 0 || b == 0 then 0
    else 2 * AndNat(a / 2, b / 2) + (if a % 2 == 1 && b % 2 == 1 then 1 else 0)
  }

  function OrNat(a: nat, b: nat): nat {
    if a == 0 && b == 0 then 0
    else 2 * OrNat(a / 2, b / 2) + (if a % 2 == 1 || b % 2 == 1 then 1 else 0)
  }

  lemma {:induction false} WordBounds(a: nat, b: nat, k: nat)
    requires a < Two(k) && b < Two(k)
    ensures AndNat(a, b) < Two(k) && OrNat(a, b) < Two(k) && XorNat(a, b) < Two(k)
    decreases k
  {
    if k > 0 {
      WordBounds(a / 2, b / 2, k - 1);
    }
  }

  lemma WordIsTwo32()
    ensures Two(32) == WORD
  {
    assert Two(8) == 256;
    TwoAdd(8, 8);
    TwoAdd(16, 16);
  }

  lemma {:induction false} TwoAdd(i: nat, j: nat)
    ensures Two(i + j) == Two(i) * Two(j)
  {
    if i > 0 {
      TwoAdd(i - 1, j);
    }
  }

  function And(a: word, b: word): word {
    WordIsTwo32();
    WordBounds(a, b, 32);
    AndNat(a, b)
  }

  function Or(a: word, b: word): word {
    WordIsTwo32();
    WordBounds(a, b, 32);
    OrNat(a, b)
  }

  function XorWord(a: word, b: word): word {
    WordIsTwo32();
    WordBounds(a, b, 32);
    XorNat(a, b)
  }

  function Not(a: word): word {
    WORD - 1 - a
  }

  /** Addition of unsigned words. */
  function Wrap(x: int): word {
    x % WORD
  }

  function ShiftLeft(v: word, n: nat): word
    decreases n
  {
    if n == 0 then v else ShiftLeft(2 * v % WORD, n - 1)
  }

  function ShiftRight(v: word, n: nat): (r: word)
    ensures r <= v
    decreases n
  {
    if n == 0 then v else ShiftRight(v / 2, n - 1)
  }

  /** Rotation to the left by n bits. */
  function RotL(v: word, n: nat): word
    requires n <= 32
  {
    Or(ShiftLeft(v, n), ShiftRight(v, 32 - n))
  }

  // ---------- byte order ----------

  function LittleEndian(b0: byte, b1: byte, b2: byte, b3: byte): word {
    b0 + 0x100 * b1 + 0x1_0000 * b2 + 0x100_0000 * b3
  }

  function BigEndian(b0: byte, b1: byte, b2: byte, b3: byte): word {
    LittleEndian(b3, b2, b1, b0)
  }

  /** Byte k of a word, least significant first. */
  function ByteOf(w: word, k: nat): byte
    requires k < 4
  {
    if k == 0 then w % 0x100
    else if k == 1 then w / 0x100 % 0x100
    else if k == 2 then w / 0x1_0000 % 0x100
    else w / 0x100_0000
  }

  lemma BytesRoundTrip(w: word)
    ensures LittleEndian(ByteOf(w, 0), ByteOf(w, 1), ByteOf(w, 2), ByteOf(w, 3)) == w
  {
    var q1, q2, q3 := w / 0x100, w / 0x1_0000, w / 0x100_0000;
    assert q2 == q1 / 0x100 && q3 == q2 / 0x100;
  }

  // ---------- byte swapping with rotations and masks ----------

  lemma AndPush(a: nat, b: nat, i: nat, j: nat)
    requires i < 2 && j < 2
    ensures AndNat(2 * a + i, 2 * b + j) == 2 * AndNat(a, b) + (if i == 1 && j == 1 then 1 else 0)
  {
  }

  lemma AndZero()
    ensures AndNat(0, 0) == 0 == OrNat(0, 0)
  {
  }

  lemma OrPush(a: nat, b: nat, i: nat, j: nat)
    requires i < 2 && j < 2
    ensures OrNat(2 * a + i, 2 * b + j) == 2 * OrNat(a, b) + (if i == 1 || j == 1 then 1 else 0)
  {
  }

  lemma AndBase4(p: nat, q: nat, r: nat, s: nat)
    requires r < 4 && s < 4
    ensures AndNat(4 * p + r, 4 * q + s) == 4 * AndNat(p, q) + AndNat(r, s)
  {
    hide AndNat;
    var r', s', i, j := r / 2, s / 2, r % 2, s % 2;
    AndPush(2 * p + r', 2 * q + s', i, j);
    AndPush(p, q, r', s');
    AndPush(r', s', i, j);
    AndPush(0, 0, r', s');
    AndZero();
  }

  lemma AndBase16(p: nat, q: nat, r: nat, s: nat)
    requires r < 16 && s < 16
    ensures AndNat(16 * p + r, 16 * q + s) == 16 * AndNat(p, q) + AndNat(r, s)
  {
    hide AndNat;
    AndBase4(4 * p + r / 4, 4 * q + s / 4, r % 4, s % 4);
    AndBase4(p, q, r / 4, s / 4);
    AndBase4(r / 4, s / 4, r % 4, s % 4);
  }

  lemma AndBase256(p: nat, q: nat, r: nat, s: nat)
    requires r < 256 && s < 256
    ensures AndNat(256 * p + r, 256 * q + s) == 256 * AndNat(p, q) + AndNat(r, s)
  {
    hide AndNat;
    AndBase16(16 * p + r / 16, 16 * q + s / 16, r % 16, s % 16);
    AndBase16(p, q, r / 16, s / 16);
    AndBase16(r / 16, s / 16, r % 16, s % 16);
  }

  lemma OrBase4(p: nat, q: nat, r: nat, s: nat)
    requires r < 4 && s < 4
    ensures OrNat(4 * p + r, 4 * q + s) == 4 * OrNat(p, q) + OrNat(r, s)
  {
    hide OrNat;
    var r', s', i, j := r / 2, s / 2, r % 2, s % 2;
    OrPush(2 * p + r', 2 * q + s', i, j);
    OrPush(p, q, r', s');
    OrPush(r', s', i, j);
    OrPush(0, 0, r', s');
    AndZero();
  }

  lemma OrBase16(p: nat, q: nat, r: nat, s: nat)
    requires r < 16 && s < 16
    ensures OrNat(16 * p + r, 16 * q + s) == 16 * OrNat(p, q) + OrNat(r, s)
  {
    hide OrNat;
    OrBase4(4 * p + r / 4, 4 * q + s / 4, r % 4, s % 4);
    OrBase4(p, q, r / 4, s / 4);
    OrBase4(r / 4, s / 4, r % 4, s % 4);
  }

  lemma OrBase256(p: nat, q: nat, r: nat, s: nat)
    requires r < 256 && s < 256
    ensures OrNat(256 * p + r, 256 * q + s) == 256 * OrNat(p, q) + OrNat(r, s)
  {
    hide OrNat;
    OrBase16(16 * p + r / 16, 16 * q + s / 16, r % 16, s % 16);
    OrBase16(p, q, r / 16, s / 16);
    OrBase16(r / 16, s / 16, r % 16, s % 16);
  }

  lemma {:induction false} MaskUnits(a: nat, k: nat)
    requires a < Two(k)
    ensures AndNat(a, 0) == 0 == AndNat(0, a) && OrNat(a, 0) == a == OrNat(0, a)
    ensures AndNat(a, Two(k) - 1) == a
    decreases k
  {
    if k > 0 {
      MaskUnits(a / 2, k - 1);
    }
  }

  lemma AndBytes(a0: byte, a1: byte, a2: byte, a3: byte, m0: byte, m1: byte, m2: byte, m3: byte)
    ensures AndNat(LittleEndian(a0, a1, a2, a3), LittleEndian(m0, m1, m2, m3))
         == AndNat(a0, m0) + 0x100 * AndNat(a1, m1) + 0x1_0000 * AndNat(a2, m2) + 0x100_0000 * AndNat(a3, m3)
  {
    hide AndNat;
    AndBase256(a1 + 0x100 * (a2 + 0x100 * a3), m1 + 0x100 * (m2 + 0x100 * m3), a0, m0);
    AndBase256(a2 + 0x100 * a3, m2 + 0x100 * m3, a1, m1);
    AndBase256(a3, m3, a2, m2);
  }

  lemma OrBytes(a0: byte, a1: byte, a2: byte, a3: byte, m0: byte, m1: byte, m2: byte, m3: byte)
    ensures OrNat(LittleEndian(a0, a1, a2, a3), LittleEndian(m0, m1, m2, m3))
         == OrNat(a0, m0) + 0x100 * OrNat(a1, m1) + 0x1_0000 * OrNat(a2, m2) + 0x100_0000 * OrNat(a3, m3)
  {
    hide OrNat;
    OrBase256(a1 + 0x100 * (a2 + 0x100 * a3), m1 + 0x100 * (m2 + 0x100 * m3), a0, m0);
    OrBase256(a2 + 0x100 * a3, m2 + 0x100 * m3, a1, m1);
    OrBase256(a3, m3, a2, m2);
  }

  lemma ByteMask(a: byte)
    ensures AndNat(a, 0) == 0 && AndNat(a, 0xff) == a && OrNat(a, 0) == a && OrNat(0, a) == a
  {
    assert Two(8) == 0x100;
    MaskUnits(a, 8);
  }

  /** A whole number of words adds nothing to the remainder. */
  lemma WholeWords(r: int, q: int)
    ensures (r + WORD * q) % WORD == r % WORD
  {
  }

  /** Scaling by m before or after taking the remainder is the same. */
  lemma ScaleModulo(m: int, a: int)
    ensures m * (a % WORD) % WORD == m * a % WORD
  {
    var q, r := a / WORD, a % WORD;
    Scaled(m, r, q);
    WholeWords(m * r, m * q);
  }

  lemma Scaled(m: int, r: int, q: int)
    ensures m * (r + WORD * q) == m * r + WORD * (m * q)
  {
  }

  lemma ShiftStep(l: word, n: nat)
    ensures ShiftLeft(l, 0) == l == ShiftRight(l, 0)
    ensures ShiftLeft(l, n + 1) == ShiftLeft(2 * l % WORD, n) && ShiftRight(l, n + 1) == ShiftRight(l / 2, n)
  {
  }

  lemma ShiftsByTwo(l: word)
    ensures ShiftLeft(l, 2) == 4 * l % WORD && ShiftRight(l, 2) == l / 4
  {
    hide ShiftLeft, ShiftRight;
    ScaleModulo(2, 2 * l);
    ShiftStep(l, 1);
    ShiftStep(2 * l % WORD, 0);
    ShiftStep(4 * l % WORD, 0);
    ShiftStep(l / 2, 0);
    ShiftStep(l / 4, 0);
  }

  lemma ShiftsByNibble(l: word)
    ensures ShiftLeft(l, 4) == 16 * l % WORD && ShiftRight(l, 4) == l / 16
  {
    hide ShiftLeft, ShiftRight;
    ScaleModulo(4, 4 * l);
    ShiftAgain(l, 2, 2);
    ShiftsByTwo(l);
    ShiftsByTwo(4 * l % WORD);
    ShiftsByTwo(l / 4);
  }

  lemma ShiftsByByte(l: word)
    ensures ShiftLeft(l, 8) == 256 * l % WORD && ShiftRight(l, 8) == l / 256
  {
    hide ShiftLeft, ShiftRight;
    ScaleModulo(16, 16 * l);
    ShiftAgain(l, 4, 4);
    ShiftsByNibble(l);
    ShiftsByNibble(16 * l % WORD);
    ShiftsByNibble(l / 16);
  }

  lemma {:induction false} ShiftAgain(l: word, m: nat, n: nat)
    ensures ShiftLeft(l, m + n) == ShiftLeft(ShiftLeft(l, m), n)
    ensures ShiftRight(l, m + n) == ShiftRight(ShiftRight(l, m), n)
    decreases m
  {
    if m > 0 {
      ShiftAgain(2 * l % WORD, m - 1, n);
      ShiftAgain(l / 2, m - 1, n);
    }
  }

  lemma ShiftBytes(b0: byte, b1: byte, b2: byte, b3: byte)
    ensures ShiftLeft(LittleEndian(b0, b1, b2, b3), 8) == LittleEndian(0, b0, b1, b2)
    ensures ShiftRight(LittleEndian(b0, b1, b2, b3), 8) == LittleEndian(b1, b2, b3, 0)
  {
    hide ShiftLeft, ShiftRight;
    ShiftsByByte(LittleEndian(b0, b1, b2, b3));
    BytesUp(b0, b1, b2, b3);
    BytesDown(b0, b1, b2, b3);
  }

  lemma BytesUp(b0: byte, b1: byte, b2: byte, b3: byte)
    ensures 256 * (LittleEndian(b0, b1, b2, b3) as int) % WORD == LittleEndian(0, b0, b1, b2) as int
  {
    var low := LittleEndian(0, b0, b1, b2) as int;
    assert 256 * (LittleEndian(b0, b1, b2, b3) as int) == WORD * (b3 as int) + low;
    WholeWords(low, b3);
  }

  lemma BytesDown(b0: byte, b1: byte, b2: byte, b3: byte)
    ensures LittleEndian(b0, b1, b2, b3) / 256 == LittleEndian(b1, b2, b3, 0)
  {
    assert LittleEndian(b0, b1, b2, b3) == 256 * LittleEndian(b1, b2, b3, 0) + b0;
  }

  lemma ShiftThreeBytes(b0: byte, b1: byte, b2: byte, b3: byte)
    ensures ShiftLeft(LittleEndian(b0, b1, b2, b3), 24) == LittleEndian(0, 0, 0, b0)
    ensures ShiftRight(LittleEndian(b0, b1, b2, b3), 24) == LittleEndian(b3, 0, 0, 0)
  {
    hide ShiftLeft, ShiftRight, LittleEndian;
    var l := LittleEndian(b0, b1, b2, b3);
    ShiftAgain(l, 8, 16);
    ShiftBytes(b0, b1, b2, b3);
    ShiftAgain(ShiftLeft(l, 8), 8, 8);
    ShiftAgain(ShiftRight(l, 8), 8, 8);
    ShiftBytes(0, b0, b1, b2);
    ShiftBytes(0, 0, b0, b1);
    ShiftBytes(b1, b2, b3, 0);
    ShiftBytes(b2, b3, 0, 0);
  }

  lemma Rotations(b0: byte, b1: byte, b2: byte, b3: byte)
    ensures RotL(LittleEndian(b0, b1, b2, b3), 24) == LittleEndian(b1, b2, b3, b0)
    ensures RotL(LittleEndian(b0, b1, b2, b3), 8) == LittleEndian(b3, b0, b1, b2)
  {
    hide OrNat, ShiftLeft, ShiftRight;
    ShiftBytes(b0, b1, b2, b3);
    ShiftThreeBytes(b0, b1, b2, b3);
    OrBytes(0, 0, 0, b0, b1, b2, b3, 0);
    OrBytes(0, b0, b1, b2, b3, 0, 0, 0);
    ByteMask(b0);
    ByteMask(b1);
    ByteMask(b2);
    ByteMask(b3);
  }

  /** The byte-order macro: two rotations, two masks. */
  function SwapBytes(l: word): word {
    Or(And(RotL(l, 24), 0xff00ff00), And(RotL(l, 8), 0x00ff00ff))
  }

  /** It turns a little-endian load into a big-endian one. */
  lemma SwapIsBigEndian(b0: byte, b1: byte, b2: byte, b3: byte)
    ensures SwapBytes(LittleEndian(b0, b1, b2, b3)) == BigEndian(b0, b1, b2, b3)
  {
    hide OrNat, AndNat, RotL;
    Rotations(b0, b1, b2, b3);
    AndBytes(b1, b2, b3, b0, 0, 0xff, 0, 0xff);
    AndBytes(b3, b0, b1, b2, 0xff, 0, 0xff, 0);
    ByteMask(b0);
    ByteMask(b1);
    ByteMask(b2);
    ByteMask(b3);
    OrBytes(0, b2, 0, b0, b3, 0, b1, 0);
  }

  /** The words of a 64-byte block, most significant byte first. */
  function BigEndianWord(block: seq<byte>, t: nat): word
    requires |block| == 64 && t < 16
  {
    BigEndian(block[4 * t], block[4 * t + 1], block[4 * t + 2], block[4 * t + 3])
  }

  function LittleEndianWord(block: seq<byte>, t: nat): word
    requires |block| == 64 && t < 16
  {
    LittleEndian(block[4 * t], block[4 * t + 1], block[4 * t + 2], block[4 * t + 3])
  }

  function LittleEndianBytes(w: word): (s: seq<byte>)
    ensures |s| == 4
  {
    [ByteOf(w, 0), ByteOf(w, 1), ByteOf(w, 2), ByteOf(w, 3)]
  }

  function BigEndianBytes(w: word): (s: seq<byte>)
    ensures |s| == 4
  {
    [ByteOf(w, 3), ByteOf(w, 2), ByteOf(w, 1), ByteOf(w, 0)]
  }
}
