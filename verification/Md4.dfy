/** MD4: buffering around the compression function, with a byte counter in two words. */
module Md4 {
  import opened Bytes
  import opened Words
  import opened Blocks
  import opened MessageDigest
  import opened Slices

  /** Which message word step t reads. */
  function Index(t: nat): nat
    requires t < 48
    ensures Index(t) < 16
  {
    if t < 16 then t
    else if t < 32 then t % 4 * 4 + (t - 16) / 4
    else [0, 8, 4, 12][t % 4] + [0, 2, 1, 3][(t - 32) / 4]
  }

  /** How far step t rotates. */
  function Shift(t: nat): (n: nat)
    requires t < 48
    ensures 0 < n < 32
  {
    if t < 16 then [3, 7, 11, 19][t % 4] else if t < 32 then [3, 5, 9, 13][t % 4] else [3, 9, 11, 15][t % 4]
  }

  function Constant(t: nat): word {
    if t < 16 then 0 else if t < 32 then 0x5A827999 else 0x6ED9EBA1
  }

  /** The auxiliary functions F, G and H of section 3.4 of RFC 1320. */
  function Auxiliary(t: nat, x: word, y: word, z: word): word {
    if t < 16 then Or(And(x, y), And(Not(x), z))
    else if t < 32 then Or(Or(And(x, y), And(x, z)), And(y, z))
    else XorWord(XorWord(x, y), z)
  }

  /** One step: a = (a + f(b, c, d) + X[k] + constant) rotated, with the registers renamed for the next. */
  function Step(r: Registers, x: Words16, t: nat): Registers
    requires t < 48
  {
    Registers(r.d, RotL(Wrap(r.a + Auxiliary(t, r.b, r.c, r.d) + x[Index(t)] + Constant(t)), Shift(t)), r.b, r.c)
  }

  function Steps(r: Registers, x: Words16, t: nat): Registers
    requires t <= 48
  {
    if t == 0 then r else Step(Steps(r, x, t - 1), x, t - 1)
  }

  function Compress(h: Registers, block: Block): Registers {
    var r := Steps(h, WordsOf(block), 48);
    Registers(Wrap(h.a + r.a), Wrap(h.b + r.b), Wrap(h.c + r.c), Wrap(h.d + r.d))
  }

  ghost function Compression(): (Registers, Block) -> Registers {
    (h: Registers, b: Block) => Compress(h, b)
  }

  ghost function Hash(h: Registers, m: seq<byte>): Registers
    requires |m| % BLOCK == 0
  {
    Fold(Compression(), h, m)
  }

  lemma HashBlock(h: Registers, m: seq<byte>, b: seq<byte>)
    requires |m| % BLOCK == 0 && |b| == BLOCK
    ensures Hash(h, m + b) == Compress(Hash(h, m), b)
  {
    hide Compress;
    FoldConcat(Compression(), h, m, b);
    FoldOne(Compression(), Hash(h, m), b);
  }

  /** The MD4 digest of a message. */
  ghost function Digest(m: seq<byte>): (d: seq<byte>)
    ensures |d| == 16
  {
    DigestBytes(Hash(INITIAL, Padded(m)))
  }

  lemma StepsUnfold(r: Registers, x: Words16, t: nat)
    requires t < 48
    ensures Steps(r, x, 0) == r && Steps(r, x, t + 1) == Step(Steps(r, x, t), x, t)
  {
    hide Step;
  }

  /** The two 32-bit totals hold the byte length modulo 2^64. */
  ghost predicate Totals(lo: word, hi: word, n: nat) {
    lo + WORD * hi == n % (WORD * WORD)
  }

  lemma TotalsAdd(lo: word, hi: word, n: nat, len: word)
    requires Totals(lo, hi, n)
    ensures var lo' := (lo + len) % WORD;
            Totals(lo', if lo' < len then (hi + 1) % WORD else hi, n + len)
  {
    var q := n / (WORD * WORD);
    assert n == lo + WORD * hi + WORD * WORD * q;
    var lo' := (lo + len) % WORD;
    var carry := if lo' < len then 1 else 0;
    assert lo + len == lo' + WORD * carry;
    var hi' := (hi + carry) % WORD;
    assert n + len == lo' + WORD * hi' + WORD * WORD * (q + (hi + carry) / WORD);
    TwoWordModulo(n + len, lo', hi', q + (hi + carry) / WORD);
  }

  lemma TwoWordModulo(n: nat, lo: word, hi: word, q: int)
    requires n == lo + WORD * hi + WORD * WORD * q
    ensures n % (WORD * WORD) == lo + WORD * hi
  {
  }

  lemma TotalsModulo(lo: word, hi: word, n: nat)
    requires Totals(lo, hi, n)
    ensures lo % BLOCK == n % BLOCK
  {
    var q := n / (WORD * WORD);
    assert n == lo + BLOCK * (0x400_0000 * hi + 0x400_0000 * WORD * q);
  }

  lemma OrEight(r: nat, q: nat)
    requires r < 8
    ensures OrNat(r, 8 * q) == r + 8 * q
  {
    hide OrNat;
    OrPush(r / 2, 4 * q, r % 2, 0);
    OrPush(r / 4, 2 * q, r / 2 % 2, 0);
    OrPush(0, q, r / 4, 0);
    OrZero(q);
  }

  lemma {:induction false} OrZero(q: nat)
    ensures OrNat(0, q) == q
  {
    if q > 0 {
      OrZero(q / 2);
    }
  }

  lemma LowPart(lo: word)
    ensures 8 * lo == 8 * lo % WORD + WORD * (lo / 0x2000_0000)
  {
  }

  lemma HighPart(hi: word)
    ensures 8 * hi == 8 * (hi % 0x2000_0000) + WORD * (hi / 0x2000_0000) && 8 * hi % WORD == 8 * (hi % 0x2000_0000)
  {
    var keep, over := hi % 0x2000_0000, hi / 0x2000_0000;
    assert 8 * hi == 8 * keep + WORD * over;
  }

  lemma TwoWordSplit(n: nat, lo: word, hi: word)
    requires n % (WORD * WORD) == lo + WORD * hi
    ensures n % (WORD * WORD) % WORD == lo && n % (WORD * WORD) / WORD == hi
  {
  }

  /** The two words of the bit length, as md4_finish forms them from the byte totals. */
  lemma BitLength(lo: word, hi: word, n: nat)
    requires Totals(lo, hi, n)
    ensures LittleEndianBytes(8 * lo % WORD) + LittleEndianBytes(Or(lo / 0x2000_0000, 8 * hi % WORD)) == LengthBytes(n)
  {
    hide LittleEndianBytes, OrNat;
    LowPart(lo);
    HighPart(hi);
    var low, top, keep, over := 8 * lo % WORD, lo / 0x2000_0000, hi % 0x2000_0000, hi / 0x2000_0000;
    OrEight(top, keep);
    var q := n / (WORD * WORD);
    assert n == lo + WORD * hi + WORD * WORD * q;
    TwoWordModulo(8 * n, low, top + 8 * keep, 8 * q + over);
    TwoWordSplit(8 * n, low, top + 8 * keep);
  }

  class Context {
    var total0: word
    var total1: word
    const state: array<word>
    const buffer: array<byte>
    ghost var message: seq<byte>

    ghost predicate Allocated() {
      state.Length == 4 && buffer.Length == BLOCK && state as object != buffer
    }

    ghost function Repr(): set<object> {
      {this, state, buffer}
    }

    /** The context is what absorbing the message leaves behind. */
    ghost predicate Valid()
      reads Repr()
    {
      && Allocated()
      && RegistersOf(state[..]) == Hash(INITIAL, Whole(message))
      && buffer[..|message| % BLOCK] == Rest(message)
      && Totals(total0, total1, |message|)
    }

    constructor ()
      ensures Allocated() && Valid() && message == [] && fresh(Repr())
    {
      state := new word[4](i => if i == 0 then 0x67452301 else if i == 1 then 0xEFCDAB89 else if i == 2 then 0x98BADCFE
                                else 0x10325476);
      buffer := new byte[BLOCK](i => 0);
      total0, total1 := 0, 0;
      message := [];
      new;
      hide Hash, Whole, Rest;
      EmptyHash();
      assert buffer[..0] == [];
    }

    /** md4_starts. */
    method Starts()
      requires Allocated()
      modifies Repr()
      ensures Valid() && message == []
    {
      hide Hash;
      hide Whole, Rest;
      total0, total1 := 0, 0;
      state[0] := 0x67452301;
      state[1] := 0xEFCDAB89;
      state[2] := 0x98BADCFE;
      state[3] := 0x10325476;
      message := [];
      EmptyHash();
      assert buffer[..0] == [];
    }

    lemma EmptyHash()
      ensures Hash(INITIAL, Whole([])) == INITIAL && Rest([]) == []
    {
      hide Compress;
      assert Whole([]) == [];
    }

    /** The macros P of the three rounds. */
    method Round(a: word, b: word, c: word, d: word, x: array<word>, t: nat) returns (a': word)
      requires t < 48 && x.Length == 16
      ensures Registers(d, a', b, c) == Step(Registers(a, b, c, d), x[..], t)
    {
      hide Auxiliary, RotL;
      a' := Wrap(a + (Auxiliary(t, b, c, d) + x[Index(t)] + Constant(t)));
      a' := RotL(a', Shift(t));
    }

    /** md4_process: compresses the block at data[at]. */
    method Process(data: array<byte>, at: nat)
      requires Allocated() && at + BLOCK <= data.Length && data as object != state
      modifies state
      ensures RegistersOf(state[..]) == Compress(RegistersOf(old(state[..])), data[at..at + BLOCK])
    {
      hide Step, Steps;
      var x := new word[16];
      ghost var block: Block := data[at..at + BLOCK];
      for i := 0 to 16
        invariant forall t :: 0 <= t < i ==> x[t] == LittleEndianWord(block, t)
        invariant data[at..at + BLOCK] == block && state[..] == old(state[..])
      {
        x[i] := LittleEndian(data[at + 4 * i], data[at + 4 * i + 1], data[at + 4 * i + 2], data[at + 4 * i + 3]);
      }
      assert x[..] == WordsOf(block);
      ghost var h := RegistersOf(state[..]);
      var a, b, c, d := state[0], state[1], state[2], state[3];
      StepsUnfold(h, x[..], 0);
      for g := 0 to 12
        invariant Registers(a, b, c, d) == Steps(h, x[..], 4 * g)
        invariant state[..] == old(state[..]) && x[..] == WordsOf(block)
      {
        var t := 4 * g;
        StepsUnfold(h, x[..], t);
        StepsUnfold(h, x[..], t + 1);
        StepsUnfold(h, x[..], t + 2);
        StepsUnfold(h, x[..], t + 3);
        a := Round(a, b, c, d, x, t);
        d := Round(d, a, b, c, x, t + 1);
        c := Round(c, d, a, b, x, t + 2);
        b := Round(b, c, d, a, x, t + 3);
      }
      state[0] := Wrap(state[0] as int + a);
      state[1] := Wrap(state[1] as int + b);
      state[2] := Wrap(state[2] as int + c);
      state[3] := Wrap(state[3] as int + d);
    }

    method CopyInto(data: array<byte>, from: nat, to: nat, n: nat)
      requires from + n <= data.Length && to + n <= buffer.Length && data != buffer
      modifies buffer
      ensures buffer[to..to + n] == data[from..from + n]
      ensures buffer[..to] == old(buffer[..to])
    {
      forall i | 0 <= i < n {
        buffer[to + i] := data[from + i];
      }
    }

    /** md4_update. */
    method Update(input: array<byte>, at: nat, ilen: int)
      requires Valid() && ilen < 0x8000_0000 && at + ilen <= input.Length
      requires input != buffer && input as object != state
      modifies Repr()
      ensures Valid() && message == old(message) + (if ilen <= 0 then [] else input[at..at + ilen])
    {
      hide Hash, Compress, Totals, Whole, Rest, RegistersOf;
      if ilen <= 0 {
        return;
      }

      ghost var m, d := message, input[at..at + ilen];
      TotalsModulo(total0, total1, |m|);
      TotalsAdd(total0, total1, |m|, ilen);
      var left: nat := total0 % 64;
      var fill := 64 - left;
      total0 := (total0 + ilen) % WORD;
      if total0 < ilen {
        total1 := (total1 + 1) % WORD;
      }
      message := m + d;
      Absorb(input, at, ilen, left, fill, m, d);
    }

    /** The buffering of md4_update: complete a started block, hash whole blocks, keep the rest. */
    method Absorb(input: array<byte>, at: nat, ilen: nat, left: nat, fill: nat, ghost m: seq<byte>, ghost d: seq<byte>)
      requires Allocated() && ilen > 0 && at + ilen <= input.Length && input != buffer && input as object != state
      requires d == input[at..at + ilen] && left == |m| % BLOCK && fill == 64 - left
      requires RegistersOf(state[..]) == Hash(INITIAL, Whole(m)) && buffer[..left] == Rest(m)
      modifies state, buffer
      ensures RegistersOf(state[..]) == Hash(INITIAL, Whole(m + d)) && buffer[..|m + d| % BLOCK] == Rest(m + d)
    {
      hide Hash, Compress, Whole, Rest, RegistersOf;
      var done := 0;
      var kept := left;
      ghost var r := Rest(m);
      assert Whole(m) + [] == Whole(m);
      if left != 0 && ilen >= fill {
        CopyInto(input, at, left, fill);
        assert buffer[0..0 + BLOCK] == buffer[..left] + buffer[left..left + fill];
        SliceWithin(input[..], at, ilen, 0, fill);
        HashBlock(INITIAL, Whole(m), r + d[..fill]);
        Process(buffer, 0);
        done := fill;
        kept := 0;
      }
      if left == 0 || done == fill {
        done := ProcessBlocks(input, at, ilen, done, Whole(m), r, d);
        KeepRest(input, at, ilen, done, m, d);
      } else {
        RestGrows(m, d);
        CopyInto(input, at, left, ilen);
        assert buffer[..left + ilen] == buffer[..left] + buffer[left..left + ilen];
      }
    }

    /** Keeps what is left of the input when the blocks before position done are hashed. */
    method KeepRest(input: array<byte>, at: nat, ilen: nat, done: nat, ghost m: seq<byte>, ghost d: seq<byte>)
      requires Allocated() && done <= ilen && at + ilen <= input.Length && input != buffer
      requires d == input[at..at + ilen] && ilen - done < BLOCK && (|m| + done) % BLOCK == 0
      modifies buffer
      ensures buffer[..|m + d| % BLOCK] == Rest(m + d)
      ensures Whole(m + d) == Whole(m) + (Rest(m) + d[..done])
    {
      hide Whole, Rest;
      WholeGrows(m, d, done);
      SliceWithin(input[..], at, ilen, done, ilen);
      CopyInto(input, at + done, 0, ilen - done);
      assert buffer[..ilen - done] == buffer[0..0 + (ilen - done)];
    }

    /** The loop over whole blocks of the input. */
    method ProcessBlocks(input: array<byte>, at: nat, ilen: nat, start: nat, ghost w: seq<byte>,
            ghost r: seq<byte>, ghost d: seq<byte>)
      returns (done: nat)
      requires Allocated() && at + ilen <= input.Length && input as object != state && d == input[at..at + ilen]
      requires start <= ilen
      requires |w + (r + d[..start])| % BLOCK == 0
      requires RegistersOf(state[..]) == Hash(INITIAL, w + (r + d[..start]))
      modifies state
      ensures start <= done <= ilen && ilen - done < BLOCK
      ensures |w + (r + d[..done])| % BLOCK == 0
      ensures RegistersOf(state[..]) == Hash(INITIAL, w + (r + d[..done]))
    {
      hide Hash, Compress, RegistersOf;
      done := start;
      while ilen - done >= 64
        invariant start <= done <= ilen
        invariant |w + (r + d[..done])| % BLOCK == 0
        invariant RegistersOf(state[..]) == Hash(INITIAL, w + (r + d[..done]))
        invariant input[at..at + ilen] == d
      {
        ghost var b := d[done..done + BLOCK];
        SliceWithin(input[..], at, ilen, done, done + BLOCK);
        HashBlock(INITIAL, w + (r + d[..done]), b);
        AppendSlice(w, r, d, done, done + BLOCK);
        Process(input, at + done);
        done := done + 64;
      }
    }

    /** The length in bits, as it ends the padding. */
    method RecordBits(ghost n: nat) returns (msglen: array<byte>)
      requires Totals(total0, total1, n)
      ensures fresh(msglen) && msglen.Length == 8 && msglen[..] == LengthBytes(n)
    {
      hide Totals, LengthBytes, LittleEndianBytes;
      var high: word := Or(total0 / 0x2000_0000, 8 * total1 % WORD);
      var low: word := 8 * total0 % WORD;
      BitLength(total0, total1, n);
      msglen := new byte[8];
      PutLittleEndian(msglen, 0, low);
      PutLittleEndian(msglen, 4, high);
      assert msglen[..] == msglen[0..4] + msglen[4..8];
    }

    method PutLittleEndian(a: array<byte>, at: nat, w: word)
      requires at + 4 <= a.Length
      modifies a
      ensures a[at..at + 4] == LittleEndianBytes(w)
      ensures forall p :: 0 <= p < at || at + 4 <= p < a.Length ==> a[p] == old(a[p])
    {
      a[at] := ByteOf(w, 0);
      a[at + 1] := ByteOf(w, 1);
      a[at + 2] := ByteOf(w, 2);
      a[at + 3] := ByteOf(w, 3);
    }

    /** md4_finish. */
    method Finish(output: array<byte>)
      requires Valid() && output.Length >= 16 && output !in Repr()
      modifies Repr(), output
      ensures Valid() && output[..16] == Digest(old(message))
      ensures forall p :: 16 <= p < output.Length ==> output[p] == old(output[p])
    {
      hide Hash, Totals, Whole, Rest, Compress, LengthBytes, RegistersOf, LittleEndianBytes, Padded;
      ghost var m := message;
      var msglen := RecordBits(|m|);
      TotalsModulo(total0, total1, |m|);
      var last := total0 % 64;
      assert last == |m| % BLOCK;
      var padn := if last < 56 then 56 - last else 120 - last;
      PadLengthIs(|m|, padn);
      var padding := new byte[64](i => if i == 0 then 0x80 else 0);
      ghost var pad := [0x80] + Zeros(padn - 1);
      assert padding[0..0 + padn] == pad;
      Update(padding, 0, padn);
      assert message == m + pad;
      assert msglen[0..0 + 8] == msglen[..];
      Update(msglen, 0, 8);
      PaddedIs(m, padn);
      assert message == m + pad + LengthBytes(|m|);
      assert message == Padded(m);
      WholeIsAll(message);
      PutDigest(output);
    }

    lemma PaddedIs(m: seq<byte>, padn: nat)
      requires 1 <= padn && padn - 1 == (119 - |m| % BLOCK) % BLOCK
      ensures m + ([0x80] + Zeros(padn - 1)) + LengthBytes(|m|) == Padded(m)
    {
      hide LengthBytes;
    }

    lemma PadLengthIs(n: nat, padn: nat)
      requires padn == if n % BLOCK < 56 then 56 - n % BLOCK else 120 - n % BLOCK
      ensures 1 <= padn <= 64 && padn - 1 == (119 - n % BLOCK) % BLOCK
    {
    }

    method PutDigest(output: array<byte>)
      requires Allocated() && output.Length >= 16 && output !in Repr()
      modifies output
      ensures output[..16] == DigestBytes(RegistersOf(state[..]))
      ensures forall p :: 16 <= p < output.Length ==> output[p] == old(output[p])
    {
      hide LittleEndianBytes;
      for i := 0 to 4
        invariant forall k :: 0 <= k < i ==> output[4 * k..4 * k + 4] == LittleEndianBytes(state[k])
        invariant forall p :: 16 <= p < output.Length ==> output[p] == old(output[p])
      {
        PutLittleEndian(output, 4 * i, state[i]);
      }
      assert output[..16] == output[0..4] + output[4..8] + output[8..12] + output[12..16];
    }
  }
}
