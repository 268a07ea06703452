/** MD5: byte-by-byte buffering around the compression function. */
module Md5 {
  import opened Bytes
  import opened Words
  import opened Blocks
  import opened Counters
  import opened MessageDigest

  /** The additive constant of each step. */
  const SINE: seq<word> := [
    0xd76aa478, 0xe8c7b756, 0x242070db, 0xc1bdceee, 0xf57c0faf, 0x4787c62a, 0xa8304613, 0xfd469501,
    0x698098d8, 0x8b44f7af, 0xffff5bb1, 0x895cd7be, 0x6b901122, 0xfd987193, 0xa679438e, 0x49b40821,
    0xf61e2562, 0xc040b340, 0x265e5a51, 0xe9b6c7aa, 0xd62f105d, 0x02441453, 0xd8a1e681, 0xe7d3fbc8,
    0x21e1cde6, 0xc33707d6, 0xf4d50d87, 0x455a14ed, 0xa9e3e905, 0xfcefa3f8, 0x676f02d9, 0x8d2a4c8a,
    0xfffa3942, 0x8771f681, 0x6d9d6122, 0xfde5380c, 0xa4beea44, 0x4bdecfa9, 0xf6bb4b60, 0xbebfbc70,
    0x289b7ec6, 0xeaa127fa, 0xd4ef3085, 0x04881d05, 0xd9d4d039, 0xe6db99e5, 0x1fa27cf8, 0xc4ac5665,
    0xf4292244, 0x432aff97, 0xab9423a7, 0xfc93a039, 0x655b59c3, 0x8f0ccc92, 0xffeff47d, 0x85845dd1,
    0x6fa87e4f, 0xfe2ce6e0, 0xa3014314, 0x4e0811a1, 0xf7537e82, 0xbd3af235, 0x2ad7d2bb, 0xeb86d391
  ]

  /** Which message word step t reads. */
  function Index(t: nat): nat
    requires t < 64
    ensures Index(t) < 16
  {
    if t < 16 then t else if t < 32 then (5 * t + 1) % 16 else if t < 48 then (3 * t + 5) % 16 else 7 * t % 16
  }

  /** How far step t rotates. */
  function Shift(t: nat): (n: nat)
    requires t < 64
    ensures 0 < n < 32
  {
    if t < 16 then [7, 12, 17, 22][t % 4]
    else if t < 32 then [5, 9, 14, 20][t % 4]
    else if t < 48 then [4, 11, 16, 23][t % 4]
    else [6, 10, 15, 21][t % 4]
  }

  /** The basic functions F, G, H and I of section 3.4 of RFC 1321. */
  function Basic(t: nat, x: word, y: word, z: word): word {
    if t < 16 then Or(And(x, y), And(Not(x), z))
    else if t < 32 then Or(And(x, z), And(y, Not(z)))
    else if t < 48 then XorWord(XorWord(x, y), z)
    else XorWord(y, Or(x, Not(z)))
  }

  /** One step: a = b + ((a + f(b, c, d) + X[k] + T[t]) rotated), with the registers renamed for the next. */
  function Step(r: Registers, x: Words16, t: nat): Registers
    requires t < 64
  {
    var sum := Wrap(r.a + Basic(t, r.b, r.c, r.d) + x[Index(t)] + SINE[t]);
    Registers(r.d, Wrap(RotL(sum, Shift(t)) + r.b), r.b, r.c)
  }

  function Steps(r: Registers, x: Words16, t: nat): Registers
    requires t <= 64
  {
    if t == 0 then r else Step(Steps(r, x, t - 1), x, t - 1)
  }

  function CompressWords(h: Registers, x: Words16): Registers {
    var r := Steps(h, x, 64);
    Registers(Wrap(h.a + r.a), Wrap(h.b + r.b), Wrap(h.c + r.c), Wrap(h.d + r.d))
  }

  function Compress(h: Registers, block: Block): Registers {
    CompressWords(h, WordsOf(block))
  }

  ghost function Compression(): (Registers, Block) -> Registers {
    (h: Registers, b: Block) => Compress(h, b)
  }

  ghost function Hash(h: Registers, m: seq<byte>): Registers
    requires |m| % BLOCK == 0
  {
    Fold(Compression(), h, m)
  }

  lemma HashBlock(h: Registers, m: seq<byte>, b: seq<byte>)
    requires |m| % BLOCK == 0 && |b| == BLOCK
    ensures Hash(h, m + b) == Compress(Hash(h, m), b)
  {
    hide Compress;
    FoldConcat(Compression(), h, m, b);
    FoldOne(Compression(), Hash(h, m), b);
  }

  /** The MD5 digest of a message. */
  ghost function Digest(m: seq<byte>): (d: seq<byte>)
    ensures |d| == 16
  {
    DigestBytes(Hash(INITIAL, Padded(m)))
  }

  /** The carry test on the old counter agrees with the one on the addend. */
  lemma CarryEitherWay(lo: word, c: word)
    ensures (lo + c) % WORD < lo <==> (lo + c) % WORD < c
  {
    if lo + c >= WORD {
      assert lo + c == (lo + c - WORD) + WORD;
    }
  }

  lemma StepsUnfold(r: Registers, x: Words16, t: nat)
    requires t < 64
    ensures Steps(r, x, 0) == r && Steps(r, x, t + 1) == Step(Steps(r, x, t), x, t)
  {
    hide Step;
  }

  /** The macros FF, GG, HH and II. */
  method Round(a: word, b: word, c: word, d: word, x: array<word>, t: nat) returns (a': word)
    requires t < 64 && x.Length == 16
    ensures Registers(d, a', b, c) == Step(Registers(a, b, c, d), x[..], t)
  {
    hide Basic, RotL;
    a' := Wrap(a + (Basic(t, b, c, d) + x[Index(t)] + SINE[t]));
    a' := RotL(a', Shift(t));
    a' := Wrap(a' as int + b);
  }

  class Context {
    var i0: word
    var i1: word
    const buf: array<word>
    const input: array<byte>
    const digest: array<byte>
    ghost var message: seq<byte>

    ghost function Repr(): set<object> {
      {this, buf, input, digest}
    }

    /** The context is what absorbing the message leaves behind. */
    ghost predicate Valid()
      reads Repr()
    {
      && Allocated()
      && RegistersOf(buf[..]) == Hash(INITIAL, Whole(message))
      && input[..|message| % BLOCK] == Rest(message)
      && Counts(i0, i1, |message|)
    }

    ghost predicate Allocated() {
      && buf.Length == 4 && input.Length == BLOCK && digest.Length == 16
      && buf as object != input && buf as object != digest && input != digest
    }

    /** MD5Init. */
    constructor ()
      ensures Valid() && message == [] && fresh(Repr())
    {
      buf := new word[4](i => if i == 0 then 0x67452301 else if i == 1 then 0xefcdab89 else if i == 2 then 0x98badcfe
                              else 0x10325476);
      input := new byte[BLOCK](i => 0);
      digest := new byte[16](i => 0);
      i0, i1 := 0, 0;
      message := [];
      new;
      hide Hash, Whole, Rest;
      EmptyHash();
      assert input[..0] == [];
    }

    lemma EmptyHash()
      ensures Hash(INITIAL, Whole([])) == INITIAL && Rest([]) == []
    {
      hide Compress;
      assert Whole([]) == [];
    }

    /** Transform: 64 steps, the registers renamed in groups of four. */
    method Transform(x: array<word>)
      requires buf.Length == 4 && x.Length == 16 && x != buf
      modifies buf
      ensures RegistersOf(buf[..]) == CompressWords(RegistersOf(old(buf[..])), x[..])
    {
      hide Step, Steps;
      ghost var h := RegistersOf(buf[..]);
      var a, b, c, d := buf[0], buf[1], buf[2], buf[3];
      StepsUnfold(h, x[..], 0);
      for g := 0 to 16
        invariant Registers(a, b, c, d) == Steps(h, x[..], 4 * g)
        invariant buf[..] == old(buf[..])
      {
        var t := 4 * g;
        StepsUnfold(h, x[..], t);
        StepsUnfold(h, x[..], t + 1);
        StepsUnfold(h, x[..], t + 2);
        StepsUnfold(h, x[..], t + 3);
        a := Round(a, b, c, d, x, t);
        d := Round(d, a, b, c, x, t + 1);
        c := Round(c, d, a, b, x, t + 2);
        b := Round(b, c, d, a, x, t + 3);
      }
      buf[0] := Wrap(buf[0] as int + a);
      buf[1] := Wrap(buf[1] as int + b);
      buf[2] := Wrap(buf[2] as int + c);
      buf[3] := Wrap(buf[3] as int + d);
    }

    /** Loads the first n words of the input buffer. */
    method LoadWords(x: array<word>, n: nat)
      requires input.Length == BLOCK && x.Length == 16 && n <= 16 && x as object != input
      modifies x
      ensures forall t :: 0 <= t < n ==> x[t] == LittleEndianWord(input[..], t)
      ensures forall t :: n <= t < 16 ==> x[t] == old(x[t])
    {
      for i := 0 to n
        invariant forall t :: 0 <= t < i ==> x[t] == LittleEndianWord(input[..], t)
        invariant forall t :: n <= t < 16 ==> x[t] == old(x[t])
      {
        x[i] := LittleEndian(input[4 * i], input[4 * i + 1], input[4 * i + 2], input[4 * i + 3]);
      }
    }

    /** MD5Update: one byte at a time. */
    method Update(data: array<byte>, at: nat, inLen: nat)
      requires Valid() && at + inLen <= data.Length && inLen < WORD
      requires data !in Repr()
      modifies Repr()
      ensures Valid() && message == old(message) + data[at..at + inLen]
    {
      hide Hash, Compress, CompressWords, Counts, Whole, Rest;
      ghost var m := message;
      CountsModulo(i0, i1, |m|);
      var mdi: nat := i0 / 8 % 64;
      var c: word := 8 * inLen % WORD;
      CountsAdd(i0, i1, |m|, inLen, c);
      CarryEitherWay(i0, c);
      if (i0 + c) % WORD < i0 {
        i1 := (i1 + 1) % WORD;
      }
      i0 := (i0 + c) % WORD;
      i1 := (i1 + inLen / 0x2000_0000) % WORD;
      message := m + data[at..at + inLen];
      assert data[at..at + 0] == [];
      assert m + [] == m;
      for k := 0 to inLen
        invariant Allocated() && mdi == |m + data[at..at + k]| % BLOCK
        invariant RegistersOf(buf[..]) == Hash(INITIAL, Whole(m + data[at..at + k]))
        invariant input[..mdi] == Rest(m + data[at..at + k])
        invariant Counts(i0, i1, |message|) && message == m + data[at..at + inLen]
      {
        assert m + data[at..at + k + 1] == m + data[at..at + k] + [data[at + k]];
        mdi := AbsorbByte(data[at + k], mdi, m + data[at..at + k]);
      }
    }

    /** One pass of the update loop: store the byte, compress when the buffer is full. */
    method AbsorbByte(b: byte, mdi0: nat, ghost m: seq<byte>) returns (mdi: nat)
      requires Allocated() && mdi0 == |m| % BLOCK
      requires RegistersOf(buf[..]) == Hash(INITIAL, Whole(m)) && input[..mdi0] == Rest(m)
      modifies buf, input
      ensures mdi == |m + [b]| % BLOCK
      ensures RegistersOf(buf[..]) == Hash(INITIAL, Whole(m + [b])) && input[..mdi] == Rest(m + [b])
    {
      hide Hash, CompressWords, Whole, Rest, RegistersOf;
      mdi := mdi0;
      input[mdi] := b;
      mdi := mdi + 1;
      assert input[..mdi] == Rest(m) + [b];
      if mdi == 0x40 {
        var x := new word[16];
        LoadWords(x, 16);
        assert x[..] == WordsOf(input[..]);
        HashBlock(INITIAL, Whole(m), input[..]);
        WholeGrows(m, [b], 1);
        assert [b][..1] == [b] && input[..] == input[..mdi];
        Transform(x);
        mdi := 0;
      } else {
        RestGrows(m, [b]);
      }
    }

    /** MD5Final. */
    method Final()
      requires Valid()
      modifies Repr()
      ensures digest[..] == Digest(old(message))
    {
      hide Hash, Counts, Whole, Rest, CompressWords, LengthBytes, RegistersOf;
      ghost var m := message;
      var x := new word[16];
      x[14] := i0;
      x[15] := i1;
      ghost var lo, hi := i0, i1;
      CountsModulo(i0, i1, |m|);
      var mdi: nat := i0 / 8 % 64;
      var padLen := if mdi < 56 then 56 - mdi else 120 - mdi;
      var padding := new byte[64](i => if i == 0 then 0x80 else 0);
      assert padding[0..padLen] == [0x80] + Zeros(padLen - 1);
      Update(padding, 0, padLen);
      LoadWords(x, 14);
      FinalBlock(input[..], x[..], lo, hi, m, message, padLen);
      Transform(x);
      PutDigest();
    }

    /** The last 16 words are the words of the block that padding and length complete. */
    lemma FinalBlock(mem: seq<byte>, x: seq<word>, lo: word, hi: word, m: seq<byte>, padded: seq<byte>, padLen: nat)
      requires |mem| == BLOCK && |x| == 16 && Counts(lo, hi, |m|)
      requires padLen == (if |m| % BLOCK < 56 then 56 - |m| % BLOCK else 120 - |m| % BLOCK)
      requires padded == m + ([0x80] + Zeros(padLen - 1))
      requires mem[..|padded| % BLOCK] == Rest(padded)
      requires forall t :: 0 <= t < 14 ==> x[t] == LittleEndianWord(mem, t)
      requires x[14] == lo && x[15] == hi
      ensures Hash(INITIAL, Padded(m)) == CompressWords(Hash(INITIAL, Whole(padded)), x)
    {
      hide Hash, Counts, Whole, Rest, CompressWords, LittleEndian, ByteOf;
      CountsSplit(lo, hi, |m|);
      PaddedLength(|m|, padLen);
      var block: Block := mem[..56] + LengthBytes(|m|);
      assert Padded(m) == padded + LengthBytes(|m|);
      assert LengthBytes(|m|)[..8] == LengthBytes(|m|);
      assert |padded| % BLOCK == 56;
      assert block == Rest(padded) + LengthBytes(|m|);
      WholeGrows(padded, LengthBytes(|m|), 8);
      WholeIsAll(Padded(m));
      HashBlock(INITIAL, Whole(padded), block);
      BytesRoundTrip(lo);
      BytesRoundTrip(hi);
      forall t | 0 <= t < 16
        ensures x[t] == WordsOf(block)[t]
      {
        if t < 14 {
          assert block[4 * t] == mem[4 * t] && block[4 * t + 1] == mem[4 * t + 1];
          assert block[4 * t + 2] == mem[4 * t + 2] && block[4 * t + 3] == mem[4 * t + 3];
        }
      }
      assert x == WordsOf(block);
    }

    lemma PaddedLength(n: nat, padLen: nat)
      requires padLen == (if n % BLOCK < 56 then 56 - n % BLOCK else 120 - n % BLOCK)
      ensures (n + padLen) % BLOCK == 56 && padLen - 1 == (119 - n % BLOCK) % BLOCK
    {
    }

    lemma CountsSplit(lo: word, hi: word, n: nat)
      requires Counts(lo, hi, n)
      ensures LittleEndianBytes(lo) + LittleEndianBytes(hi) == LengthBytes(n)
    {
      hide LittleEndianBytes;
      var bits := 8 * n % (WORD * WORD);
      assert bits / WORD == hi && bits % WORD == lo;
    }

    method PutDigest()
      requires Allocated()
      modifies digest
      ensures digest[..] == DigestBytes(RegistersOf(buf[..]))
    {
      hide ByteOf;
      for i := 0 to 4
        invariant forall k :: 0 <= k < i ==> digest[4 * k..4 * k + 4] == LittleEndianBytes(buf[k])
      {
        digest[4 * i] := ByteOf(buf[i], 0);
        digest[4 * i + 1] := ByteOf(buf[i], 1);
        digest[4 * i + 2] := ByteOf(buf[i], 2);
        digest[4 * i + 3] := ByteOf(buf[i], 3);
      }
      assert digest[..] == digest[0..4] + digest[4..8] + digest[8..12] + digest[12..16];
    }
  }
}
