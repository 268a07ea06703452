/** CRC-32: the table-driven update against division of polynomials over two elements. */
module Crc32 {
  import opened Bytes
  import opened Words

  // ---------- machine words and their numbers ----------

  function Half(v: bv32): bv32 { v >> 1 }

  function Odd(v: bv32): bool { v & 1 != 0 }

  function Sum(u: bv32, v: bv32): bv32 { u ^ v }

  /** The number that the low k bits of a machine word spell. */
  function Digits(v: bv32, k: nat): (d: nat)
    ensures d < Two(k)
    decreases k
  {
    hide Half, Odd;
    if k == 0 then 0 else 2 * Digits(Half(v), k - 1) + (if Odd(v) then 1 else 0)
  }

  function Value(v: bv32): word {
    WordIsTwo32();
    Digits(v, 32)
  }

  lemma SumBits(u: bv32, v: bv32)
    ensures Half(Sum(u, v)) == Sum(Half(u), Half(v))
    ensures Odd(Sum(u, v)) <==> Odd(u) != Odd(v)
  {
  }

  lemma DigitsStep(v: bv32, w: bv32, k: nat, bit: nat)
    requires k > 0 && w == Half(v) && bit == if Odd(v) then 1 else 0
    ensures Digits(v, k) == 2 * Digits(w, k - 1) + bit
  {
    hide Half, Odd;
  }

  lemma NoDigits(v: bv32)
    ensures Digits(v, 0) == 0
  {
  }

  lemma {:induction false} SumIsXor(u: bv32, v: bv32, k: nat)
    ensures XorNat(Digits(u, k), Digits(v, k)) == Digits(Sum(u, v), k)
    decreases k
  {
    hide Half, Odd, Sum, XorNat, Digits;
    if k == 0 {
      NoDigits(u);
      NoDigits(v);
      NoDigits(Sum(u, v));
      XorNatUnits(0);
    } else {
      var i, j := if Odd(u) then 1 else 0, if Odd(v) then 1 else 0;
      var u', v' := Half(u), Half(v);
      SumIsXor(u', v', k - 1);
      SumBits(u, v);
      DigitsStep(u, u', k, i);
      DigitsStep(v, v', k, j);
      DigitsStep(Sum(u, v), Sum(u', v'), k, if i == j then 0 else 1);
      XorNatPush(Digits(u', k - 1), Digits(v', k - 1), i, j);
    }
  }

  lemma ValueXor(u: bv32, v: bv32)
    ensures Value(Sum(u, v)) == XorNat(Value(u), Value(v))
  {
    hide Digits, Sum;
    SumIsXor(u, v, 32);
  }

  // ---------- the bit-by-bit register ----------

  /** The generator polynomial without its highest term, lowest bit the highest power. */
  const GENERATOR: bv32 := 0xedb88320

  function Step(c: nat): nat {
    if c % 2 == 0 then c / 2 else XorNat(c / 2, Value(GENERATOR))
  }

  function Steps(c: nat, n: nat): nat
    decreases n
  {
    if n == 0 then c else Steps(Step(c), n - 1)
  }

  /** A byte is added to the low end, then shifted out. */
  function ByteStep(c: nat, b: byte): nat {
    Steps(XorNat(c, b), 8)
  }

  /** The register after a message. */
  ghost function Register(c: nat, m: seq<byte>): nat
    decreases |m|
  {
    if m == [] then c else Register(ByteStep(c, m[0]), m[1..])
  }

  lemma {:induction false} RegisterConcat(c: nat, a: seq<byte>, b: seq<byte>)
    ensures Register(c, a + b) == Register(Register(c, a), b)
    decreases |a|
  {
    hide ByteStep;
    if a == [] {
      assert a + b == b;
    } else {
      assert (a + b)[0] == a[0] && (a + b)[1..] == a[1..] + b;
      RegisterConcat(ByteStep(c, a[0]), a[1..], b);
    }
  }

  lemma XorInterchangeNat(a: nat, b: nat, c: nat, d: nat)
    ensures XorNat(XorNat(a, b), XorNat(c, d)) == XorNat(XorNat(a, c), XorNat(b, d))
  {
    hide XorNat;
    XorNatAssociates(a, b, XorNat(c, d));
    XorNatAssociates(b, c, d);
    XorNatCommutes(b, c);
    XorNatAssociates(c, b, d);
    XorNatAssociates(a, c, XorNat(b, d));
  }

  lemma StepLinear(a: nat, b: nat)
    ensures Step(XorNat(a, b)) == XorNat(Step(a), Step(b))
  {
    hide XorNat, Value;
    var p := Value(GENERATOR);
    XorDigits(a, b);
    XorInterchangeNat(a / 2, p, b / 2, p);
    XorNatUnits(p);
    XorNatUnits(XorNat(a / 2, b / 2));
    XorNatAssociates(a / 2, b / 2, p);
    XorNatAssociates(a / 2, p, b / 2);
    XorNatCommutes(p, b / 2);
  }

  lemma {:induction false} StepsLinear(a: nat, b: nat, n: nat)
    ensures Steps(XorNat(a, b), n) == XorNat(Steps(a, n), Steps(b, n))
    decreases n
  {
    hide Step, XorNat;
    if n > 0 {
      StepLinear(a, b);
      StepsLinear(Step(a), Step(b), n - 1);
    }
  }

  /** Zero bits are shifted out unchanged. */
  lemma StepsDouble(c: nat, n: nat)
    ensures Steps(2 * c, n + 1) == Steps(c, n)
  {
    hide XorNat, Value;
  }

  lemma {:induction false} StepLast(c: nat, n: nat)
    ensures Steps(c, n + 1) == Step(Steps(c, n))
    decreases n
  {
    hide Step;
    if n > 0 {
      StepLast(Step(c), n - 1);
    }
  }

  lemma StepsWholeBytes(q: nat)
    ensures Steps(256 * q, 8) == q
  {
    hide Steps;
    StepsDouble(128 * q, 7);
    StepsDouble(64 * q, 6);
    StepsDouble(32 * q, 5);
    StepsDouble(16 * q, 4);
    StepsDouble(8 * q, 3);
    StepsDouble(4 * q, 2);
    StepsDouble(2 * q, 1);
    StepsDouble(q, 0);
    NoSteps(q);
  }

  lemma NoSteps(c: nat)
    ensures Steps(c, 0) == c && Steps(c, 1) == Step(c)
  {
    hide Step;
  }

  lemma {:induction false} XorNatTopOne(j: nat, k: nat)
    requires j < Two(k)
    ensures XorNat(Two(k), j) == Two(k) + j
    decreases k
  {
    if k == 0 {
      XorNatUnits(1);
    } else {
      XorNatTopOne(j / 2, k - 1);
    }
  }

  lemma PushZero(r: nat, q: nat)
    ensures XorNat(r, 2 * q) == 2 * XorNat(r / 2, q) + r % 2
  {
    hide XorNat;
    XorNatPush(r / 2, q, r % 2, 0);
  }

  lemma NibbleApart(r: nat, q: nat)
    requires r < 16
    ensures XorNat(r, 16 * q) == r + 16 * q
  {
    hide XorNat;
    PushZero(r, 8 * q);
    PushZero(r / 2, 4 * q);
    PushZero(r / 4, 2 * q);
    PushZero(r / 8, q);
    XorNatUnits(q);
  }

  lemma PushNibble(r: nat, q: nat)
    ensures XorNat(r, 16 * q) == 16 * XorNat(r / 16, q) + r % 16
  {
    hide XorNat;
    PushZero(r, 8 * q);
    PushZero(r / 2, 4 * q);
    PushZero(r / 4, 2 * q);
    PushZero(r / 8, q);
  }

  /** A word is the sum of its low byte and the rest, without carries. */
  lemma LowByteApart(r: byte, q: nat)
    ensures XorNat(r, 256 * q) == r + 256 * q
  {
    hide XorNat;
    PushNibble(r, 16 * q);
    NibbleApart(r / 16, q);
  }

  // ---------- the table ----------

  type Row = s: seq<bv32> | |s| == 16 witness seq(16, i => 0)

  /** The precomputed table, sixteen entries to the row. */
  const ROW0: Row := [
    0x00000000, 0x77073096, 0xee0e612c, 0x990951ba, 0x076dc419, 0x706af48f, 0xe963a535, 0x9e6495a3,
    0x0edb8832, 0x79dcb8a4, 0xe0d5e91e, 0x97d2d988, 0x09b64c2b, 0x7eb17cbd, 0xe7b82d07, 0x90bf1d91]
  const ROW1: Row := [
    0x1db71064, 0x6ab020f2, 0xf3b97148, 0x84be41de, 0x1adad47d, 0x6ddde4eb, 0xf4d4b551, 0x83d385c7,
    0x136c9856, 0x646ba8c0, 0xfd62f97a, 0x8a65c9ec, 0x14015c4f, 0x63066cd9, 0xfa0f3d63, 0x8d080df5]
  const ROW2: Row := [
    0x3b6e20c8, 0x4c69105e, 0xd56041e4, 0xa2677172, 0x3c03e4d1, 0x4b04d447, 0xd20d85fd, 0xa50ab56b,
    0x35b5a8fa, 0x42b2986c, 0xdbbbc9d6, 0xacbcf940, 0x32d86ce3, 0x45df5c75, 0xdcd60dcf, 0xabd13d59]
  const ROW3: Row := [
    0x26d930ac, 0x51de003a, 0xc8d75180, 0xbfd06116, 0x21b4f4b5, 0x56b3c423, 0xcfba9599, 0xb8bda50f,
    0x2802b89e, 0x5f058808, 0xc60cd9b2, 0xb10be924, 0x2f6f7c87, 0x58684c11, 0xc1611dab, 0xb6662d3d]
  const ROW4: Row := [
    0x76dc4190, 0x01db7106, 0x98d220bc, 0xefd5102a, 0x71b18589, 0x06b6b51f, 0x9fbfe4a5, 0xe8b8d433,
    0x7807c9a2, 0x0f00f934, 0x9609a88e, 0xe10e9818, 0x7f6a0dbb, 0x086d3d2d, 0x91646c97, 0xe6635c01]
  const ROW5: Row := [
    0x6b6b51f4, 0x1c6c6162, 0x856530d8, 0xf262004e, 0x6c0695ed, 0x1b01a57b, 0x8208f4c1, 0xf50fc457,
    0x65b0d9c6, 0x12b7e950, 0x8bbeb8ea, 0xfcb9887c, 0x62dd1ddf, 0x15da2d49, 0x8cd37cf3, 0xfbd44c65]
  const ROW6: Row := [
    0x4db26158, 0x3ab551ce, 0xa3bc0074, 0xd4bb30e2, 0x4adfa541, 0x3dd895d7, 0xa4d1c46d, 0xd3d6f4fb,
    0x4369e96a, 0x346ed9fc, 0xad678846, 0xda60b8d0, 0x44042d73, 0x33031de5, 0xaa0a4c5f, 0xdd0d7cc9]
  const ROW7: Row := [
    0x5005713c, 0x270241aa, 0xbe0b1010, 0xc90c2086, 0x5768b525, 0x206f85b3, 0xb966d409, 0xce61e49f,
    0x5edef90e, 0x29d9c998, 0xb0d09822, 0xc7d7a8b4, 0x59b33d17, 0x2eb40d81, 0xb7bd5c3b, 0xc0ba6cad]
  const ROW8: Row := [
    0xedb88320, 0x9abfb3b6, 0x03b6e20c, 0x74b1d29a, 0xead54739, 0x9dd277af, 0x04db2615, 0x73dc1683,
    0xe3630b12, 0x94643b84, 0x0d6d6a3e, 0x7a6a5aa8, 0xe40ecf0b, 0x9309ff9d, 0x0a00ae27, 0x7d079eb1]
  const ROW9: Row := [
    0xf00f9344, 0x8708a3d2, 0x1e01f268, 0x6906c2fe, 0xf762575d, 0x806567cb, 0x196c3671, 0x6e6b06e7,
    0xfed41b76, 0x89d32be0, 0x10da7a5a, 0x67dd4acc, 0xf9b9df6f, 0x8ebeeff9, 0x17b7be43, 0x60b08ed5]
  const ROWA: Row := [
    0xd6d6a3e8, 0xa1d1937e, 0x38d8c2c4, 0x4fdff252, 0xd1bb67f1, 0xa6bc5767, 0x3fb506dd, 0x48b2364b,
    0xd80d2bda, 0xaf0a1b4c, 0x36034af6, 0x41047a60, 0xdf60efc3, 0xa867df55, 0x316e8eef, 0x4669be79]
  const ROWB: Row := [
    0xcb61b38c, 0xbc66831a, 0x256fd2a0, 0x5268e236, 0xcc0c7795, 0xbb0b4703, 0x220216b9, 0x5505262f,
    0xc5ba3bbe, 0xb2bd0b28, 0x2bb45a92, 0x5cb36a04, 0xc2d7ffa7, 0xb5d0cf31, 0x2cd99e8b, 0x5bdeae1d]
  const ROWC: Row := [
    0x9b64c2b0, 0xec63f226, 0x756aa39c, 0x026d930a, 0x9c0906a9, 0xeb0e363f, 0x72076785, 0x05005713,
    0x95bf4a82, 0xe2b87a14, 0x7bb12bae, 0x0cb61b38, 0x92d28e9b, 0xe5d5be0d, 0x7cdcefb7, 0x0bdbdf21]
  const ROWD: Row := [
    0x86d3d2d4, 0xf1d4e242, 0x68ddb3f8, 0x1fda836e, 0x81be16cd, 0xf6b9265b, 0x6fb077e1, 0x18b74777,
    0x88085ae6, 0xff0f6a70, 0x66063bca, 0x11010b5c, 0x8f659eff, 0xf862ae69, 0x616bffd3, 0x166ccf45]
  const ROWE: Row := [
    0xa00ae278, 0xd70dd2ee, 0x4e048354, 0x3903b3c2, 0xa7672661, 0xd06016f7, 0x4969474d, 0x3e6e77db,
    0xaed16a4a, 0xd9d65adc, 0x40df0b66, 0x37d83bf0, 0xa9bcae53, 0xdebb9ec5, 0x47b2cf7f, 0x30b5ffe9]
  const ROWF: Row := [
    0xbdbdf21c, 0xcabac28a, 0x53b39330, 0x24b4a3a6, 0xbad03605, 0xcdd70693, 0x54de5729, 0x23d967bf,
    0xb3667a2e, 0xc4614ab8, 0x5d681b02, 0x2a6f2b94, 0xb40bbe37, 0xc30c8ea1, 0x5a05df1b, 0x2d02ef8d]

  function RowAt(k: nat): Row
    requires k < 16
  {
    match k
    case 0 => ROW0 case 1 => ROW1 case 2 => ROW2 case 3 => ROW3
    case 4 => ROW4 case 5 => ROW5 case 6 => ROW6 case 7 => ROW7
    case 8 => ROW8 case 9 => ROW9 case 10 => ROWA case 11 => ROWB
    case 12 => ROWC case 13 => ROWD case 14 => ROWE case _ => ROWF
  }

  function Entry(i: byte): bv32 {
    RowAt(i / 16)[i % 16]
  }

  function Table(i: byte): word {
    Value(Entry(i))
  }

  /** Row s is row r with x added to every entry. */
  ghost predicate RowSums(x: bv32, r: Row, s: Row) {
    && s[0] == Sum(x, r[0]) && s[1] == Sum(x, r[1]) && s[2] == Sum(x, r[2]) && s[3] == Sum(x, r[3])
    && s[4] == Sum(x, r[4]) && s[5] == Sum(x, r[5]) && s[6] == Sum(x, r[6]) && s[7] == Sum(x, r[7])
    && s[8] == Sum(x, r[8]) && s[9] == Sum(x, r[9]) && s[10] == Sum(x, r[10]) && s[11] == Sum(x, r[11])
    && s[12] == Sum(x, r[12]) && s[13] == Sum(x, r[13]) && s[14] == Sum(x, r[14]) && s[15] == Sum(x, r[15])
  }

  lemma RowSumsAt(x: bv32, r: Row, s: Row, c: nat)
    requires RowSums(x, r, s) && c < 16
    ensures s[c] == Sum(x, r[c])
  {
    hide Sum;
    match c
    case 0 => case 1 => case 2 => case 3 =>
    case 4 => case 5 => case 6 => case 7 =>
    case 8 => case 9 => case 10 => case 11 =>
    case 12 => case 13 => case 14 => case _ =>
  }

  lemma RowsFollow1()
    ensures RowSums(RowAt(1)[0], ROW0, RowAt(1))
    ensures RowSums(RowAt(2)[0], ROW0, RowAt(2))
  {
  }

  lemma RowsFollow2()
    ensures RowSums(RowAt(3)[0], ROW0, RowAt(3))
    ensures RowSums(RowAt(4)[0], ROW0, RowAt(4))
  {
  }

  lemma RowsFollow3()
    ensures RowSums(RowAt(5)[0], ROW0, RowAt(5))
    ensures RowSums(RowAt(6)[0], ROW0, RowAt(6))
  {
  }

  lemma RowsFollow4()
    ensures RowSums(RowAt(7)[0], ROW0, RowAt(7))
    ensures RowSums(RowAt(8)[0], ROW0, RowAt(8))
  {
  }

  lemma RowsFollow5()
    ensures RowSums(RowAt(9)[0], ROW0, RowAt(9))
    ensures RowSums(RowAt(10)[0], ROW0, RowAt(10))
  {
  }

  lemma RowsFollow6()
    ensures RowSums(RowAt(11)[0], ROW0, RowAt(11))
    ensures RowSums(RowAt(12)[0], ROW0, RowAt(12))
  {
  }

  lemma RowsFollow7()
    ensures RowSums(RowAt(13)[0], ROW0, RowAt(13))
    ensures RowSums(RowAt(14)[0], ROW0, RowAt(14))
  {
  }

  lemma RowsFollow8()
    ensures RowSums(RowAt(15)[0], ROW0, RowAt(15))
  {
  }

  /** The entries with one high bit more are the sums with the entry of that bit. */
  ghost predicate Doubles(s: Row) {
    && s[0] == 0 && s[1] == Sum(s[1], s[0]) && s[2] == Sum(s[2], s[0]) && s[3] == Sum(s[2], s[1])
    && s[4] == Sum(s[4], s[0]) && s[5] == Sum(s[4], s[1]) && s[6] == Sum(s[4], s[2]) && s[7] == Sum(s[4], s[3])
    && s[8] == Sum(s[8], s[0]) && s[9] == Sum(s[8], s[1]) && s[10] == Sum(s[8], s[2]) && s[11] == Sum(s[8], s[3])
    && s[12] == Sum(s[8], s[4]) && s[13] == Sum(s[8], s[5]) && s[14] == Sum(s[8], s[6]) && s[15] == Sum(s[8], s[7])
  }

  function Heads(): Row {
    [ROW0[0], ROW1[0], ROW2[0], ROW3[0], ROW4[0], ROW5[0], ROW6[0], ROW7[0],
     ROW8[0], ROW9[0], ROWA[0], ROWB[0], ROWC[0], ROWD[0], ROWE[0], ROWF[0]]
  }

  lemma FirstRowDoubles()
    ensures Doubles(ROW0)
  {
  }

  lemma HeadsDouble()
    ensures Doubles(Heads())
  {
  }

  function HalfStep(v: bv32): bv32 {
    if Odd(v) then Sum(Half(v), GENERATOR) else Half(v)
  }

  /** The entry of a power of two is one step on from that of the next power. */
  lemma PowersStep()
    ensures Entry(128) == GENERATOR
    ensures Entry(64) == HalfStep(Entry(128)) && Entry(32) == HalfStep(Entry(64)) && Entry(16) == HalfStep(Entry(32))
    ensures Entry(8) == HalfStep(Entry(16)) && Entry(4) == HalfStep(Entry(8)) && Entry(2) == HalfStep(Entry(4))
    ensures Entry(1) == HalfStep(Entry(2))
  {
  }

  lemma ValueUnfold(v: bv32)
    ensures Value(v) == 2 * Digits(Half(v), 31) + (if Odd(v) then 1 else 0)
  {
    hide Half, Odd;
  }

  function Halved(v: bv32, k: nat): bv32
    decreases k
  {
    if k == 0 then v else Halved(Half(v), k - 1)
  }

  lemma {:induction false} DigitAbove(v: bv32, k: nat)
    ensures Digits(v, k + 1) >= Digits(v, k)
    ensures !Odd(Halved(v, k)) ==> Digits(v, k + 1) == Digits(v, k)
    decreases k
  {
    hide Half, Odd;
    if k > 0 {
      DigitAbove(Half(v), k - 1);
    }
  }

  lemma {:induction false} HalvedLater(v: bv32, i: nat, j: nat)
    ensures Halved(v, i + j) == Halved(Halved(v, i), j)
    decreases i
  {
    hide Half;
    if i > 0 {
      HalvedLater(Half(v), i - 1, j);
    }
  }

  function ByteGone(v: bv32): bv32 { v >> 8 }

  lemma HalvedByte(v: bv32)
    ensures Halved(v, 8) == ByteGone(v)
  {
    hide Half, ByteGone;
    ByteHalves(v);
  }

  lemma ByteHalves(v: bv32)
    ensures Half(Half(Half(Half(Half(Half(Half(Half(v)))))))) == ByteGone(v)
  {
  }

  lemma AllGone(v: bv32)
    ensures !Odd(ByteGone(ByteGone(ByteGone(ByteGone(v)))))
  {
  }

  /** A shifted word has no bit 31. */
  lemma HalfFits(v: bv32)
    ensures Digits(Half(v), 32) == Digits(Half(v), 31)
  {
    hide Half, Odd, Halved, Digits, ByteGone;
    var v1 := ByteGone(v);
    var v2 := ByteGone(v1);
    var v3 := ByteGone(v2);
    HalvedByte(v);
    HalvedByte(v1);
    HalvedByte(v2);
    HalvedByte(v3);
    HalvedLater(v, 8, 24);
    HalvedLater(v1, 8, 16);
    HalvedLater(v2, 8, 8);
    AllGone(v);
    HalvedUnfold(v);
    DigitAbove(Half(v), 31);
  }

  lemma HalvedUnfold(v: bv32)
    ensures Halved(v, 32) == Halved(Half(v), 31)
  {
    hide Half;
  }

  /** A step on machine words is a step on their numbers. */
  lemma ValueStep(v: bv32)
    ensures Value(HalfStep(v)) == Step(Value(v))
  {
    hide XorNat, Digits, Half, Odd, Sum;
    ValueUnfold(v);
    HalfFits(v);
    ValueXor(Half(v), GENERATOR);
  }

  lemma PowerIsSteps(p: byte)
    requires p in {1, 2, 4, 8, 16, 32, 64, 128}
    ensures Table(p) == Steps(p, 8)
  {
    hide Step, Steps, Value, HalfStep, Entry;
    PowersStep();
    StepsOfTop();
    PowerDown(64);
    PowerDown(32);
    PowerDown(16);
    PowerDown(8);
    PowerDown(4);
    PowerDown(2);
    PowerDown(1);
  }

  lemma StepsOfTop()
    ensures Steps(128, 8) == Value(GENERATOR)
  {
    hide Steps, Value, XorNat;
    StepsDouble(64, 7);
    StepsDouble(32, 6);
    StepsDouble(16, 5);
    StepsDouble(8, 4);
    StepsDouble(4, 3);
    StepsDouble(2, 2);
    StepsDouble(1, 1);
    NoSteps(1);
    XorNatUnits(Value(GENERATOR));
  }

  lemma PowerDown(x: nat)
    requires 0 < x < 128 && Entry(x) == HalfStep(Entry(2 * x)) && Table(2 * x) == Steps(2 * x, 8)
    ensures Table(x) == Steps(x, 8)
  {
    hide Step, Steps, Value, HalfStep, Entry;
    StepsDouble(x, 8);
    StepLast(2 * x, 8);
    ValueStep(Entry(2 * x));
  }

  lemma RowFollows(k: nat)
    requires 0 < k < 16
    ensures RowSums(RowAt(k)[0], ROW0, RowAt(k))
  {
    hide RowSums, RowAt, ROW0;
    match k
    case 1 | 2 => RowsFollow1();
    case 3 | 4 => RowsFollow2();
    case 5 | 6 => RowsFollow3();
    case 7 | 8 => RowsFollow4();
    case 9 | 10 => RowsFollow5();
    case 11 | 12 => RowsFollow6();
    case 13 | 14 => RowsFollow7();
    case _ => RowsFollow8();
  }

  lemma RowSum(r: nat, c: nat)
    requires 0 < r < 16 && c < 16
    ensures RowAt(r)[c] == Sum(RowAt(r)[0], ROW0[c])
  {
    hide Sum, RowSums, RowAt, ROW0;
    RowFollows(r);
    RowSumsAt(RowAt(r)[0], ROW0, RowAt(r), c);
  }

  lemma DoublesAt(s: Row, i: nat, p: nat)
    requires Doubles(s) && p in {1, 2, 4, 8} && p <= i < 2 * p && i < 16
    ensures s[i] == Sum(s[p], s[i - p])
  {
    hide Sum;
    match i
    case 1 => case 2 => case 3 => case 4 => case 5 =>
    case 6 => case 7 => case 8 => case 9 => case 10 =>
    case 11 => case 12 => case 13 => case 14 => case _ =>
  }

  lemma SumLaws(a: bv32, b: bv32, c: bv32)
    ensures Sum(Sum(a, b), c) == Sum(a, Sum(b, c)) && Sum(0, a) == a
  {
  }

  lemma HeadIs(r: nat)
    requires r < 16
    ensures Heads()[r] == RowAt(r)[0] && ROW0[0] == 0
  {
    hide ROW1, ROW2, ROW3, ROW4, ROW5, ROW6, ROW7, ROW8, ROW9, ROWA, ROWB, ROWC, ROWD, ROWE, ROWF;
  }

  lemma FirstRow()
    ensures RowAt(0) == ROW0
  {
  }

  /** Entries split at their highest bit. */
  lemma EntrySplit(i: byte, p: byte)
    requires p in {1, 2, 4, 8, 16, 32, 64, 128} && p <= i < 2 * p
    ensures Entry(i) == Sum(Entry(p), Entry(i - p))
  {
    hide Sum, Heads, RowAt, ROW0;
    FirstRow();
    if p < 16 {
      FirstRowDoubles();
      DoublesAt(ROW0, i, p);
    } else {
      var r, c, q := i / 16, i % 16, p / 16;
      assert (i - p) / 16 == r - q && (i - p) % 16 == c && p % 16 == 0;
      HeadsDouble();
      DoublesAt(Heads(), r, q);
      HeadIs(r);
      HeadIs(q);
      HeadIs(r - q);
      RowSum(r, c);
      SumLaws(RowAt(q)[0], RowAt(r - q)[0], ROW0[c]);
      SumLaws(ROW0[c], 0, 0);
      if r > q {
        RowSum(r - q, c);
      }
    }
  }

  /** Every entry of the table is eight steps of its index. */
  lemma {:induction false} TableIsSteps(i: byte)
    ensures Table(i) == Steps(i, 8)
    decreases i
  {
    hide Steps, Value, Entry, XorNat, Sum;
    if i == 0 {
      EntryZero();
    } else {
      var k := if i >= 128 then 7 else if i >= 64 then 6 else if i >= 32 then 5 else if i >= 16 then 4
               else if i >= 8 then 3 else if i >= 4 then 2 else if i >= 2 then 1 else 0;
      var p: byte := if i >= 128 then 128 else if i >= 64 then 64 else if i >= 32 then 32 else if i >= 16 then 16
               else if i >= 8 then 8 else if i >= 4 then 4 else if i >= 2 then 2 else 1;
      PowersOfTwo();
      EntrySplit(i, p);
      ValueXor(Entry(p), Entry(i - p));
      XorNatTopOne(i - p, k);
      StepsLinear(p, i - p, 8);
      PowerIsSteps(p);
      TableIsSteps(i - p);
    }
  }

  lemma PowersOfTwo()
    ensures Two(0) == 1 && Two(1) == 2 && Two(2) == 4 && Two(3) == 8
    ensures Two(4) == 16 && Two(5) == 32 && Two(6) == 64 && Two(7) == 128
  {
    assert Two(4) == 16;
  }

  lemma EntryZero()
    ensures Table(0) == 0 == Steps(0, 8)
  {
    hide Steps, Sum;
    StepsWholeBytes(0);
    ValueXor(0, 0);
    SumLaws(0, 0, 0);
    XorNatUnits(Value(0));
  }

  /** One pass of the update loop is eight steps. */
  lemma ByteByTable(c: nat, b: byte)
    ensures ByteStep(c, b) == XorNat(Table(Xor(b, c % 256)), c / 256)
  {
    hide Steps, Table, XorNat, Xor;
    var r, q := c % 256, c / 256;
    LowByteApart(r, q);
    XorNatCommutes(r, b);
    XorNatCommutes(c, b);
    XorNatAssociates(b, r, 256 * q);
    XorIs(b, r);
    StepsLinear(Xor(b, r), 256 * q, 8);
    TableIsSteps(Xor(b, r));
    StepsWholeBytes(q);
  }

  lemma XorIs(a: byte, b: byte)
    ensures Xor(a, b) == XorNat(a, b)
  {
  }

  lemma {:induction false} RegisterFits(c: word, m: seq<byte>)
    ensures Register(c, m) < WORD
    decreases |m|
  {
    hide XorNat, Table, ByteStep;
    if m != [] {
      ByteByTable(c, m[0]);
      WordIsTwo32();
      WordBounds(Table(Xor(m[0], c % 256)), c / 256, 32);
      RegisterFits(ByteStep(c, m[0]), m[1..]);
    }
  }

  /** CrcUpdate. */
  method Update(crc0: word, buffer: array<byte>, at: nat, length: int) returns (crc: word)
    requires at <= buffer.Length && at + length <= buffer.Length
    ensures crc == Register(crc0, if length <= 0 then [] else buffer[at..at + length])
  {
    hide Register, XorNat, Table, Xor, ByteStep;
    crc := crc0;
    var i := 0;
    NoMessage(crc0);
    assert buffer[at..at] == [];
    while i < length
      invariant 0 <= i && (length >= 0 ==> i <= length) && (length < 0 ==> i == 0)
      invariant crc == Register(crc0, buffer[at..at + i])
    {
      ByteByTable(crc, buffer[at + i]);
      RegisterConcat(crc0, buffer[at..at + i], [buffer[at + i]]);
      OneByte(crc, buffer[at + i]);
      assert buffer[at..at + i + 1] == buffer[at..at + i] + [buffer[at + i]];
      crc := XorWord(Table(Xor(buffer[at + i], crc % 256)), crc / 256);
      i := i + 1;
    }
  }

  lemma NoMessage(c: nat)
    ensures Register(c, []) == c
  {
  }

  lemma OneByte(c: nat, b: byte)
    ensures Register(c, [b]) == ByteStep(c, b)
  {
    hide ByteStep;
    assert [b][1..] == [];
  }

  // ---------- division of polynomials ----------

  /** Binary digits, lowest first; as a polynomial, highest power first. */
  function Bits(n: nat, k: nat): (p: seq<bool>)
    ensures |p| == k
    decreases k
  {
    if k == 0 then [] else [n % 2 == 1] + Bits(n / 2, k - 1)
  }

  ghost function MessageBits(m: seq<byte>): (p: seq<bool>)
    ensures |p| == 8 * |m|
  {
    if m == [] then [] else Bits(m[0], 8) + MessageBits(m[1..])
  }

  function Nil(k: nat): (p: seq<bool>)
    ensures |p| == k
  {
    seq(k, i => false)
  }

  function Plus(a: seq<bool>, b: seq<bool>): (p: seq<bool>)
    requires |a| == |b|
    ensures |p| == |a| && forall i :: 0 <= i < |p| ==> p[i] == (a[i] != b[i])
  {
    seq(|a|, i requires 0 <= i < |a| => a[i] != b[i])
  }

  /** x^26+x^23+x^22+x^16+x^12+x^11+x^10+x^8+x^7+x^5+x^4+x^2+x+1, the generator without x^32. */
  function Tail(): (p: seq<bool>)
    ensures |p| == 32
  {
    seq(32, i => 31 - i in {26, 23, 22, 16, 12, 11, 10, 8, 7, 5, 4, 2, 1, 0})
  }

  /** Adds r to the 32 highest powers of p. */
  function AddFront(p: seq<bool>, r: seq<bool>): (s: seq<bool>)
    requires |p| >= 32 == |r|
    ensures |s| == |p|
  {
    Plus(p[..32], r) + p[32..]
  }

  /** One step of long division: cancel the highest power. */
  function Reduced(p: seq<bool>): (s: seq<bool>)
    requires |p| > 32
    ensures |s| == |p| - 1
  {
    if p[0] then AddFront(p[1..], Tail()) else p[1..]
  }

  function Remainder(p: seq<bool>): (r: seq<bool>)
    requires |p| >= 32
    ensures |r| == 32
    decreases |p|
  {
    if |p| == 32 then p else Remainder(Reduced(p))
  }

  function Quotient(p: seq<bool>): (q: seq<bool>)
    requires |p| >= 32
    ensures |q| == |p| - 32
    decreases |p|
  {
    if |p| == 32 then [] else [p[0]] + Quotient(Reduced(p))
  }

  /** The generator, or nothing, at the highest power of n + 32 coefficients. */
  function Top(b: bool, n: nat): (p: seq<bool>)
    requires n > 0
    ensures |p| == n + 32 && p[0] == b
  {
    if b then [true] + Tail() + Nil(n - 1) else Nil(n + 32)
  }

  /** The product of q and the generator. */
  function Product(q: seq<bool>): (p: seq<bool>)
    ensures |p| == |q| + 32
    decreases |q|
  {
    if q == [] then Nil(32)
    else Plus(Top(q[0], |q|), [false] + Product(q[1..]))
  }

  lemma ProductAt(q: seq<bool>, i: nat)
    requires q != [] && i < |q| + 31
    ensures Product(q)[0] == q[0] && Product(q)[i + 1] == (Top(q[0], |q|)[i + 1] != Product(q[1..])[i])
  {
    hide Top, Tail;
    var t, later := Top(q[0], |q|), [false] + Product(q[1..]);
    assert Product(q) == Plus(t, later);
    assert later[0] == false && later[i + 1] == Product(q[1..])[i];
  }

  lemma ReducedAt(p: seq<bool>, i: nat)
    requires |p| > 32 && i < |p| - 1
    ensures Reduced(p)[i] == (p[i + 1] != Top(p[0], |p| - 32)[i + 1])
  {
    hide Tail;
  }

  lemma DivisionStep(p: seq<bool>)
    requires |p| > 32
    ensures Quotient(p) == [p[0]] + Quotient(Reduced(p)) && Quotient(p)[1..] == Quotient(Reduced(p))
    ensures Remainder(p) == Remainder(Reduced(p))
  {
    hide Reduced;
  }

  /** Long division divides. */
  lemma {:induction false} DivisionIdentity(p: seq<bool>)
    requires |p| >= 32
    ensures Plus(Product(Quotient(p)), Nil(|p| - 32) + Remainder(p)) == p
    decreases |p|
  {
    hide Top, Product, Quotient, Remainder, Reduced;
    var sum := Plus(Product(Quotient(p)), Nil(|p| - 32) + Remainder(p));
    if |p| == 32 {
      DivisionEnds(p);
    } else {
      var s := Reduced(p);
      DivisionIdentity(s);
      DivisionStep(p);
      forall j | 0 <= j < |p|
        ensures sum[j] == p[j]
      {
        if j == 0 {
          ProductAt(Quotient(p), 0);
        } else {
          ProductAt(Quotient(p), j - 1);
          ReducedAt(p, j - 1);
          assert s[j - 1] == (Product(Quotient(s))[j - 1] != (Nil(|s| - 32) + Remainder(s))[j - 1]);
        }
      }
    }
  }

  lemma DivisionEnds(p: seq<bool>)
    requires |p| == 32
    ensures Quotient(p) == [] && Remainder(p) == p && Product([]) == Nil(32) && Plus(Nil(32), Nil(0) + p) == p
  {
  }

  /** There is only one quotient and remainder. */
  lemma {:induction false} DivisionUnique(q: seq<bool>, r: seq<bool>, q': seq<bool>, r': seq<bool>)
    requires |q| == |q'| && |r| == 32 == |r'|
    requires Plus(Product(q), Nil(|q|) + r) == Plus(Product(q'), Nil(|q|) + r')
    ensures q == q' && r == r'
    decreases |q|
  {
    hide Top, Product;
    var p, p' := Plus(Product(q), Nil(|q|) + r), Plus(Product(q'), Nil(|q|) + r');
    if q == [] {
      forall i | 0 <= i < 32
        ensures r[i] == r'[i]
      {
        assert p[i] == p'[i];
      }
    } else {
      ProductAt(q, 0);
      ProductAt(q', 0);
      assert p[0] == q[0] && p'[0] == q'[0];
      var s, s' := Plus(Product(q[1..]), Nil(|q| - 1) + r), Plus(Product(q'[1..]), Nil(|q| - 1) + r');
      forall i | 0 <= i < |s|
        ensures s[i] == s'[i]
      {
        ProductAt(q, i);
        ProductAt(q', i);
        assert p[i + 1] == p'[i + 1];
      }
      DivisionUnique(q[1..], r, q'[1..], r');
    }
  }

  // ---------- the register divides ----------

  /** The register shifted out by one power. */
  function ShiftOut(r: seq<bool>): (s: seq<bool>)
    requires |r| == 32
    ensures |s| == 32
  {
    if r[0] then Plus(r[1..] + [false], Tail()) else r[1..] + [false]
  }

  function Flip(r: seq<bool>, b: bool): (s: seq<bool>)
    requires |r| == 32
    ensures |s| == 32
  {
    [r[0] != b] + r[1..]
  }

  /** The register fed with the coefficients of a message, highest power first. */
  function Feed(r: seq<bool>, p: seq<bool>): (s: seq<bool>)
    requires |r| == 32
    ensures |s| == 32
    decreases |p|
  {
    if p == [] then r else Feed(ShiftOut(Flip(r, p[0])), p[1..])
  }

  lemma {:induction false} FeedConcat(r: seq<bool>, p: seq<bool>, q: seq<bool>)
    requires |r| == 32
    ensures Feed(r, p + q) == Feed(Feed(r, p), q)
    decreases |p|
  {
    hide ShiftOut, Flip;
    if p == [] {
      assert p + q == q;
    } else {
      assert (p + q)[0] == p[0] && (p + q)[1..] == p[1..] + q;
      FeedConcat(ShiftOut(Flip(r, p[0])), p[1..], q);
    }
  }

  /** Feeding a message is dividing it, times x^32, with the register added to its front. */
  lemma {:induction false} FeedIsRemainder(r: seq<bool>, p: seq<bool>)
    requires |r| == 32
    ensures Feed(r, p) == Remainder(AddFront(p + Nil(32), r))
    decreases |p|
  {
    hide Tail;
    var l := AddFront(p + Nil(32), r);
    if p == [] {
      assert l == r;
    } else {
      var r' := ShiftOut(Flip(r, p[0]));
      FeedIsRemainder(r', p[1..]);
      FeedStep(r, p);
    }
  }

  lemma FeedStep(r: seq<bool>, p: seq<bool>)
    requires |r| == 32 && p != []
    ensures Reduced(AddFront(p + Nil(32), r)) == AddFront(p[1..] + Nil(32), ShiftOut(Flip(r, p[0])))
  {
    hide Tail, Reduced, AddFront, ShiftOut, Flip;
    var l, s := AddFront(p + Nil(32), r), ShiftOut(Flip(r, p[0]));
    var a, b := Reduced(l), AddFront(p[1..] + Nil(32), s);
    forall i | 0 <= i < |a|
      ensures a[i] == b[i]
    {
      assert (p + Nil(32))[i + 1] == (p[1..] + Nil(32))[i];
      AddFrontAt(p + Nil(32), r, 0);
      AddFrontAt(p + Nil(32), r, i + 1);
      ReducedFrontAt(l, i);
      AddFrontAt(p[1..] + Nil(32), s, i);
      if i < 32 {
        ShiftOutAt(r, p[0], i);
      }
    }
  }

  lemma AddFrontAt(p: seq<bool>, r: seq<bool>, i: nat)
    requires |p| >= 32 == |r| && i < |p|
    ensures AddFront(p, r)[i] == if i < 32 then p[i] != r[i] else p[i]
  {
  }

  lemma ReducedFrontAt(p: seq<bool>, i: nat)
    requires |p| > 32 && i < |p| - 1
    ensures Reduced(p)[i] == if p[0] && i < 32 then p[i + 1] != Tail()[i] else p[i + 1]
  {
    hide Tail, AddFront;
    AddFrontAt(p[1..], Tail(), i);
  }

  lemma ShiftOutAt(r: seq<bool>, b: bool, i: nat)
    requires |r| == 32 && i < 32
    ensures var low := if i < 31 then r[i + 1] else false;
            ShiftOut(Flip(r, b))[i] == if r[0] != b then low != Tail()[i] else low
  {
    hide Tail;
  }

  lemma {:induction false} BitsXor(a: nat, b: nat, k: nat)
    ensures Bits(XorNat(a, b), k) == Plus(Bits(a, k), Bits(b, k))
    decreases k
  {
    hide XorNat;
    if k > 0 {
      XorDigits(a, b);
      BitsXor(a / 2, b / 2, k - 1);
    }
  }

  lemma {:induction false} BitsTop(n: nat, k: nat)
    requires n < Two(k)
    ensures Bits(n, k + 1) == Bits(n, k) + [false]
    decreases k
  {
    if k > 0 {
      BitsTop(n / 2, k - 1);
    }
  }

  lemma HalfBits(c: word)
    ensures Bits(c / 2, 32) == Bits(c, 32)[1..] + [false]
  {
    hide Two;
    WordIsTwo32();
    TwoHalf();
    BitsTop(c / 2, 31);
  }

  lemma TwoHalf()
    ensures Two(32) == 2 * Two(31)
  {
  }

  /** The bits of a machine word, lowest first. */
  function WordBits(v: bv32, k: nat): (p: seq<bool>)
    ensures |p| == k
    decreases k
  {
    if k == 0 then [] else [Odd(v)] + WordBits(Half(v), k - 1)
  }

  lemma {:induction false} DigitsBits(v: bv32, k: nat)
    ensures Bits(Digits(v, k), k) == WordBits(v, k)
    decreases k
  {
    hide Half, Odd;
    if k > 0 {
      DigitsBits(Half(v), k - 1);
      var d, b := Digits(Half(v), k - 1), if Odd(v) then 1 else 0;
      assert (2 * d + b) / 2 == d && (2 * d + b) % 2 == b;
    }
  }

  function Nibble(v: bv32): (p: seq<bool>)
    ensures |p| == 4
  {
    [v & 0x01 != 0, v & 0x02 != 0, v & 0x04 != 0, v & 0x08 != 0]
  }

  function Upper(v: bv32): bv32 { v >> 4 }

  lemma WordBitsUnfold(v: bv32, w: bv32, k: nat)
    requires w == Half(v)
    ensures WordBits(v, k + 1) == [Odd(v)] + WordBits(w, k)
  {
    hide Half, Odd;
  }

  lemma FourBits(v: bv32, k: nat)
    ensures WordBits(v, k + 4)
         == [Odd(v), Odd(Half(v)), Odd(Half(Half(v))), Odd(Half(Half(Half(v))))]
            + WordBits(Half(Half(Half(Half(v)))), k)
  {
    hide Half, Odd, WordBits;
    var v1 := Half(v);
    var v2 := Half(v1);
    var v3 := Half(v2);
    WordBitsUnfold(v, v1, k + 3);
    WordBitsUnfold(v1, v2, k + 2);
    WordBitsUnfold(v2, v3, k + 1);
    WordBitsUnfold(v3, Half(v3), k);
  }

  lemma OddMasks(v: bv32)
    ensures [Odd(v), Odd(Half(v)), Odd(Half(Half(v))), Odd(Half(Half(Half(v))))] == Nibble(v)
    ensures Half(Half(Half(Half(v)))) == Upper(v)
  {
  }

  lemma NibbleBits(v: bv32, w: bv32, k: nat)
    requires w == Upper(v)
    ensures WordBits(v, k + 4) == Nibble(v) + WordBits(w, k)
  {
    hide Half, Odd, WordBits, Nibble, Upper;
    FourBits(v, k);
    OddMasks(v);
  }

  lemma GeneratorNibbles()
    ensures Upper(GENERATOR) == 0xedb8832 && Upper(0xedb8832) == 0xedb883 && Upper(0xedb883) == 0xedb88
    ensures Upper(0xedb88) == 0xedb8 && Upper(0xedb8) == 0xedb && Upper(0xedb) == 0xed && Upper(0xed) == 0xe
    ensures Upper(0xe) == 0
    ensures Nibble(GENERATOR) == [false, false, false, false] && Nibble(0xedb8832) == [false, true, false, false]
    ensures Nibble(0xedb883) == [true, true, false, false] && Nibble(0xedb88) == [false, false, false, true]
    ensures Nibble(0xedb8) == [false, false, false, true] && Nibble(0xedb) == [true, true, false, true]
    ensures Nibble(0xed) == [true, false, true, true] && Nibble(0xe) == [false, true, true, true]
  {
  }

  lemma TailBytes()
    ensures Tail() == [false, false, false, false, false, true, false, false]
                      + [true, true, false, false, false, false, false, true]
                      + [false, false, false, true, true, true, false, true]
                      + [true, false, true, true, false, true, true, true]
  {
  }

  /** The constant of crc32.c spells the generator of section 8 of RFC 1952. */
  lemma GeneratorIsTail()
    ensures Bits(Value(GENERATOR), 32) == Tail()
  {
    hide Digits, Bits, WordBits, Nibble, Upper, Tail;
    DigitsBits(GENERATOR, 32);
    GeneratorNibbles();
    NibbleBits(GENERATOR, 0xedb8832, 28);
    NibbleBits(0xedb8832, 0xedb883, 24);
    NibbleBits(0xedb883, 0xedb88, 20);
    NibbleBits(0xedb88, 0xedb8, 16);
    NibbleBits(0xedb8, 0xedb, 12);
    NibbleBits(0xedb, 0xed, 8);
    NibbleBits(0xed, 0xe, 4);
    NibbleBits(0xe, 0, 0);
    TailBytes();
    NoBits(0);
  }

  lemma NoBits(v: bv32)
    ensures WordBits(v, 0) == []
  {
  }

  lemma ShiftOutBits(c: word)
    ensures Bits(Step(c), 32) == ShiftOut(Bits(c, 32))
  {
    hide XorNat, Value, Tail;
    GeneratorIsTail();
    HalfBits(c);
    BitsXor(c / 2, Value(GENERATOR), 32);
  }

  lemma StepFits(c: word)
    ensures Step(c) < WORD
  {
    hide XorNat, Value;
    WordIsTwo32();
    WordBounds(c / 2, Value(GENERATOR), 32);
  }

  lemma FlipBits(c: word, b: nat)
    requires b < 2
    ensures XorNat(c, b) < WORD && Bits(XorNat(c, b), 32) == Flip(Bits(c, 32), b == 1)
  {
    hide XorNat;
    WordIsTwo32();
    WordBounds(c, b, 32);
    XorDigits(c, b);
    XorNatUnits(c / 2);
  }

  /** Adding a whole byte at once is feeding its bits one by one. */
  lemma {:induction false} ByteFeed(c: word, b: nat, n: nat)
    requires b < Two(n)
    ensures Steps(XorNat(c, b), n) < WORD && Bits(Steps(XorNat(c, b), n), 32) == Feed(Bits(c, 32), Bits(b, n))
    decreases n
  {
    hide XorNat, Step, ShiftOut, Flip, Bits, Feed, Steps;
    if n == 0 {
      XorNatUnits(c);
      NothingFed(c, b);
    } else {
      var i, h := b % 2, b / 2;
      var x := XorNat(c, i);
      var c' := Step(x);
      Unfolds(XorNat(c, b), b, n);
      FlipBits(c, i);
      ShiftOutBits(x);
      StepFits(x);
      StepSplits(c, b);
      ByteFeed(c', h, n - 1);
      FeedFirst(Bits(c, 32), i == 1, Bits(h, n - 1));
    }
  }

  lemma NothingFed(c: nat, b: nat)
    ensures Steps(c, 0) == c && Feed(Bits(c, 32), Bits(b, 0)) == Bits(c, 32)
  {
  }

  lemma Unfolds(x: nat, b: nat, n: nat)
    requires n > 0
    ensures Steps(x, n) == Steps(Step(x), n - 1) && Bits(b, n) == [b % 2 == 1] + Bits(b / 2, n - 1)
  {
    hide Step;
  }

  lemma FeedFirst(r: seq<bool>, b: bool, p: seq<bool>)
    requires |r| == 32
    ensures Feed(r, [b] + p) == Feed(ShiftOut(Flip(r, b)), p)
  {
    hide ShiftOut, Flip;
    assert ([b] + p)[1..] == p;
  }

  lemma StepSplits(c: nat, b: nat)
    ensures Step(XorNat(c, b)) == XorNat(Step(XorNat(c, b % 2)), b / 2)
  {
    hide XorNat, Step;
    PushZero(b % 2, b / 2);
    XorNatUnits(b / 2);
    XorNatAssociates(c, b % 2, 2 * (b / 2));
    XorSmall(b % 2, b / 2);
    StepLinear(XorNat(c, b % 2), 2 * (b / 2));
    StepEven(b / 2);
  }

  lemma XorSmall(i: nat, h: nat)
    requires i < 2
    ensures XorNat(i, 2 * h) == 2 * h + i
  {
    hide XorNat;
    PushZero(i, h);
    XorNatUnits(h);
  }

  lemma StepEven(h: nat)
    ensures Step(2 * h) == h
  {
    hide XorNat, Value;
  }

  lemma {:induction false} RegisterFeed(c: word, m: seq<byte>)
    ensures Register(c, m) < WORD && Bits(Register(c, m), 32) == Feed(Bits(c, 32), MessageBits(m))
    decreases |m|
  {
    hide XorNat, Steps, Bits, Flip, ShiftOut;
    if m != [] {
      assert Two(8) == 256;
      ByteFeed(c, m[0], 8);
      RegisterFeed(ByteStep(c, m[0]), m[1..]);
      FeedConcat(Bits(c, 32), Bits(m[0], 8), MessageBits(m[1..]));
    }
  }

  /** What the CRC of a message divides: the message times x^32, its first 32 coefficients complemented. */
  ghost function Dividend(m: seq<byte>): (p: seq<bool>)
    ensures |p| == 8 * |m| + 32
  {
    AddFront(MessageBits(m) + Nil(32), seq(32, i => true))
  }

  /** The register is the remainder of the division, and nothing else divides out. */
  lemma RegisterIsRemainder(m: seq<byte>)
    ensures Register(0xffff_ffff, m) < WORD
    ensures var r := Bits(Register(0xffff_ffff, m), 32);
            && (exists q :: |q| == 8 * |m| && Plus(Product(q), Nil(8 * |m|) + r) == Dividend(m))
            && forall q, r' ::
                 |q| == 8 * |m| && |r'| == 32 && Plus(Product(q), Nil(8 * |m|) + r') == Dividend(m) ==> r' == r
  {
    hide Register, Product, Quotient, Remainder, MessageBits, Bits, AddFront;
    var d, w := Dividend(m), 0xffff_ffff;
    RegisterFeed(w, m);
    OnesBits();
    FeedIsRemainder(Bits(w, 32), MessageBits(m));
    DivisionIdentity(d);
    var q0, r := Quotient(d), Remainder(d);
    forall q, r' | |q| == 8 * |m| && |r'| == 32 && Plus(Product(q), Nil(8 * |m|) + r') == d
      ensures r' == r
    {
      DivisionUnique(q, r', q0, r);
    }
  }

  lemma OnesBits()
    ensures Bits(0xffff_ffff, 32) == seq(32, i => true)
  {
    WordIsTwo32();
    OnesAre(32);
  }

  lemma {:induction false} OnesAre(k: nat)
    ensures Bits(Two(k) - 1, k) == seq(k, i => true)
    decreases k
  {
    if k > 0 {
      assert (Two(k) - 1) / 2 == Two(k - 1) - 1 && (Two(k) - 1) % 2 == 1;
      OnesAre(k - 1);
    }
  }
}
