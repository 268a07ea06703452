/** SHA-1: the in-place circular schedule, and streaming. */
module Sha1 {
  import opened Bytes
  import opened Words
  import opened Blocks
  import opened Counters
  import opened Slices

  // ---------- the standard's method: 80 schedule words, five registers ----------

  /** W(t) of section 6.1 of RFC 3174. */
  ghost function Schedule(block: Block, t: nat): word
    requires t < 80
  {
    if t < 16 then BigEndianWord(block, t)
    else RotL(XorWord(XorWord(XorWord(Schedule(block, t - 3), Schedule(block, t - 8)),
                              Schedule(block, t - 14)), Schedule(block, t - 16)), 1)
  }

  function Choose(u: word, v: word, w: word): word { Or(And(u, v), And(Not(u), w)) }

  function Majority(u: word, v: word, w: word): word { Or(Or(And(u, v), And(u, w)), And(v, w)) }

  function Parity(u: word, v: word, w: word): word { XorWord(XorWord(u, v), w) }

  /** f(t; B, C, D) and K(t) of section 5 of RFC 3174. */
  function F(t: nat, u: word, v: word, w: word): word
    requires t < 80
  {
    if t < 20 then Choose(u, v, w)
    else if t < 40 then Parity(u, v, w)
    else if t < 60 then Majority(u, v, w)
    else Parity(u, v, w)
  }

  function K(t: nat): word
    requires t < 80
  {
    if t < 20 then 0x5A827999 else if t < 40 then 0x6ED9EBA1 else if t < 60 then 0x8F1BBCDC else 0xCA62C1D6
  }

  datatype Registers = Registers(a: word, b: word, c: word, d: word, e: word)

  ghost function Step(r: Registers, block: Block, t: nat): Registers
    requires t < 80
  {
    var temp := Wrap(RotL(r.a, 5) + F(t, r.b, r.c, r.d) + r.e + Schedule(block, t) + K(t));
    Registers(temp, r.a, RotL(r.b, 30), r.c, r.d)
  }

  ghost function Steps(r: Registers, block: Block, t: nat): Registers
    requires t <= 80
  {
    if t == 0 then r else Step(Steps(r, block, t - 1), block, t - 1)
  }

  ghost function Compress(h: Registers, block: Block): Registers {
    var r := Steps(h, block, 80);
    Registers(Wrap(h.a + r.a), Wrap(h.b + r.b), Wrap(h.c + r.c), Wrap(h.d + r.d), Wrap(h.e + r.e))
  }

  const INITIAL := Registers(0x67452301, 0xEFCDAB89, 0x98BADCFE, 0x10325476, 0xC3D2E1F0)

  // ---------- the 16-word circular schedule ----------

  /** The last step before t that wrote word i, for i < t. */
  function Latest(t: nat, i: nat): (j: nat)
    requires i < 16 && i < t
    ensures j < t
  {
    i + (t - 1 - i) / 16 * 16
  }

  /** After t steps word i of the memory holds the last schedule word written there, else the loaded word. */
  ghost predicate Circular(mem: seq<byte>, block: Block, t: nat)
    requires |mem| == BLOCK && t <= 80
  {
    forall i :: 0 <= i < 16 ==>
      LittleEndianWord(mem, i) == if i < t then Schedule(block, Latest(t, i)) else LittleEndianWord(block, i)
  }

  lemma LatestIs(t: nat, back: nat)
    requires 16 <= t && 1 <= back <= 16
    ensures (t - back) % 16 < t && Latest(t, (t - back) % 16) == t - back
  {
    var i := (t - back) % 16;
    var q := (t - back) / 16;
    assert t - 1 - i == 16 * q + (back - 1);
  }

  lemma LatestNext(t: nat, i: nat)
    requires i < 16 && i <= t
    ensures Latest(t + 1, i) == if i == t % 16 then t else Latest(t, i)
  {
    var d := t - i;
    assert t == i + d;
    SlotSteps(t, i, d);
  }

  lemma SlotSteps(t: nat, i: nat, d: nat)
    requires i < 16 && t == i + d
    ensures i == t % 16 ==> d / 16 * 16 == d
    ensures i != t % 16 ==> d > 0 && d / 16 == (d - 1) / 16
  {
    if d % 16 == 0 {
      assert t == i + 16 * (d / 16);
    } else {
      assert d - 1 == 16 * (d / 16) + (d % 16 - 1);
    }
  }

  ghost function Stored(mem: seq<byte>, i: nat, w: word): (mem': seq<byte>)
    requires |mem| == BLOCK && i < 16
    ensures |mem'| == BLOCK
  {
    mem[..4 * i] + LittleEndianBytes(w) + mem[4 * i + 4..]
  }

  lemma StoredWords(mem: seq<byte>, i: nat, w: word, j: nat)
    requires |mem| == BLOCK && i < 16 && j < 16
    ensures LittleEndianWord(Stored(mem, i, w), j) == if i == j then w else LittleEndianWord(mem, j)
  {
    hide ByteOf, LittleEndian;
    BytesRoundTrip(w);
    var mem' := Stored(mem, i, w);
    assert forall k :: 0 <= k < 4 ==> mem'[4 * j + k] == if i == j then LittleEndianBytes(w)[k] else mem[4 * j + k];
    assert mem'[4 * j] == mem'[4 * j + 0];
  }

  lemma SlotBound(t: nat)
    ensures t % 16 <= t && (t < 16 ==> t % 16 == t)
  {
  }

  /** Writing the t-th schedule word at t mod 16 takes the memory one step further. */
  lemma CircularNext(mem: seq<byte>, block: Block, t: nat)
    requires |mem| == BLOCK && t < 80 && Circular(mem, block, t)
    ensures Circular(Stored(mem, t % 16, Schedule(block, t)), block, t + 1)
  {
    hide LittleEndianWord, Stored, Schedule, Latest;
    var w := Schedule(block, t);
    SlotBound(t);
    forall i | 0 <= i < 16
      ensures LittleEndianWord(Stored(mem, t % 16, w), i)
           == if i < t + 1 then Schedule(block, Latest(t + 1, i)) else LittleEndianWord(block, i)
    {
      StoredWords(mem, t % 16, w, i);
      if i <= t {
        LatestNext(t, i);
      }
    }
  }

  /** What X(t) reads at 3, 8, 14 and 16 words back. */
  lemma CircularRead(mem: seq<byte>, block: Block, t: nat, back: nat)
    requires |mem| == BLOCK && 16 <= t < 80 && 1 <= back <= 16 && Circular(mem, block, t)
    ensures LittleEndianWord(mem, (t - back) % 16) == Schedule(block, t - back)
  {
    hide LittleEndianWord, Schedule;
    LatestIs(t, back);
  }

  lemma SwapLoads(block: Block, t: nat)
    requires t < 16
    ensures SwapBytes(LittleEndianWord(block, t)) == BigEndianWord(block, t)
  {
    hide SwapBytes;
    SwapIsBigEndian(block[4 * t], block[4 * t + 1], block[4 * t + 2], block[4 * t + 3]);
  }

  method Load(buf: array<byte>, at: nat, i: nat) returns (w: word)
    requires at + BLOCK <= buf.Length && i < 16
    ensures w == LittleEndianWord(buf[at..at + BLOCK], i)
  {
    w := LittleEndian(buf[at + 4 * i], buf[at + 4 * i + 1], buf[at + 4 * i + 2], buf[at + 4 * i + 3]);
  }

  method Store(buf: array<byte>, at: nat, i: nat, w: word)
    requires at + BLOCK <= buf.Length && i < 16
    modifies buf
    ensures buf[at..at + BLOCK] == Stored(old(buf[at..at + BLOCK]), i, w)
    ensures forall p :: 0 <= p < at || at + BLOCK <= p < buf.Length ==> buf[p] == old(buf[p])
  {
    hide ByteOf;
    buf[at + 4 * i] := ByteOf(w, 0);
    buf[at + 4 * i + 1] := ByteOf(w, 1);
    buf[at + 4 * i + 2] := ByteOf(w, 2);
    buf[at + 4 * i + 3] := ByteOf(w, 3);
  }

  /** The macros x(i) and X(i): produce schedule word t in the caller's memory, overwriting word t mod 16. */
  method NextWord(buf: array<byte>, at: nat, t: nat, ghost block: Block) returns (w: word)
    requires at + BLOCK <= buf.Length && t < 80 && Circular(buf[at..at + BLOCK], block, t)
    modifies buf
    ensures w == Schedule(block, t) && Circular(buf[at..at + BLOCK], block, t + 1)
    ensures forall p :: 0 <= p < at || at + BLOCK <= p < buf.Length ==> buf[p] == old(buf[p])
  {
    hide LittleEndianWord, BigEndianWord, Stored, SwapBytes, Circular, RotL, XorWord;
    ghost var mem := buf[at..at + BLOCK];
    CircularNext(mem, block, t);
    if t < 16 {
      var l := Load(buf, at, t);
      CircularFirst(mem, block, t);
      SwapLoads(block, t);
      w := SwapBytes(l);
    } else {
      var w3 := Load(buf, at, (t - 3) % 16);
      var w8 := Load(buf, at, (t - 8) % 16);
      var w14 := Load(buf, at, (t - 14) % 16);
      var w16 := Load(buf, at, (t - 16) % 16);
      CircularRead(mem, block, t, 3);
      CircularRead(mem, block, t, 8);
      CircularRead(mem, block, t, 14);
      CircularRead(mem, block, t, 16);
      w := RotL(XorWord(XorWord(XorWord(w3, w8), w14), w16), 1);
    }
    Store(buf, at, t % 16, w);
  }

  lemma CircularFirst(mem: seq<byte>, block: Block, t: nat)
    requires |mem| == BLOCK && t < 16 && Circular(mem, block, t)
    ensures LittleEndianWord(mem, t) == LittleEndianWord(block, t)
  {
    hide LittleEndianWord;
  }

  /** The macros R0 to R4: e is replaced and b rotated; the other registers keep their names. */
  method Round(buf: array<byte>, at: nat, a: word, b: word, c: word, d: word, e: word, t: nat, ghost block: Block)
    returns (e': word, b': word)
    requires at + BLOCK <= buf.Length && t < 80 && Circular(buf[at..at + BLOCK], block, t)
    modifies buf
    ensures Registers(e', a, b', c, d) == Step(Registers(a, b, c, d, e), block, t)
    ensures Circular(buf[at..at + BLOCK], block, t + 1)
    ensures forall p :: 0 <= p < at || at + BLOCK <= p < buf.Length ==> buf[p] == old(buf[p])
  {
    hide Circular, RotL, F, Schedule;
    var x := NextWord(buf, at, t, block);
    e' := Wrap(e + (F(t, b, c, d) + x + K(t) + RotL(a, 5)));
    b' := RotL(b, 30);
  }

  lemma StepsUnfold(r: Registers, block: Block, t: nat)
    requires t < 80
    ensures Steps(r, block, t + 1) == Step(Steps(r, block, t), block, t)
  {
    hide Step;
  }

  lemma CircularStart(block: Block)
    ensures Circular(block, block, 0)
  {
    hide LittleEndianWord;
  }

  // ---------- contexts ----------

  ghost function RegistersOf(s: seq<word>): Registers
    requires |s| == 5
  {
    Registers(s[0], s[1], s[2], s[3], s[4])
  }

  ghost function Compression(): (Registers, Block) -> Registers {
    (h: Registers, b: Block) => Compress(h, b)
  }

  ghost function Hash(h: Registers, m: seq<byte>): Registers
    requires |m| % BLOCK == 0
  {
    Fold(Compression(), h, m)
  }

  lemma HashBlock(h: Registers, m: seq<byte>, b: seq<byte>)
    requires |m| % BLOCK == 0 && |b| == BLOCK
    ensures Hash(h, m + b) == Compress(Hash(h, m), b)
  {
    hide Compress;
    FoldConcat(Compression(), h, m, b);
    FoldOne(Compression(), Hash(h, m), b);
  }

  // ---------- padding and digest ----------

  /** The bit length as eight bytes, most significant first. */
  function LengthBytes(n: nat): (s: seq<byte>)
    ensures |s| == 8
  {
    var bits := 8 * n % (WORD * WORD);
    BigEndianBytes(bits / WORD) + BigEndianBytes(bits % WORD)
  }

  /** Section 4 of RFC 3174: a one bit, zeros up to 56 bytes modulo 64, the length. */
  function Padded(m: seq<byte>): (p: seq<byte>)
    ensures |p| % BLOCK == 0
  {
    var k := (119 - |m| % BLOCK) % BLOCK;
    assert (|m| + 1 + k + 8) % BLOCK == 0;
    m + [0x80] + Zeros(k) + LengthBytes(|m|)
  }

  function DigestBytes(r: Registers): (d: seq<byte>)
    ensures |d| == 20
  {
    BigEndianBytes(r.a) + BigEndianBytes(r.b) + BigEndianBytes(r.c) + BigEndianBytes(r.d) + BigEndianBytes(r.e)
  }

  /** The SHA-1 digest of a message. */
  ghost function Digest(m: seq<byte>): (d: seq<byte>)
    ensures |d| == 20
  {
    DigestBytes(Hash(INITIAL, Padded(m)))
  }

  class Context {
    const state: array<word>
    var count0: word
    var count1: word
    const buffer: array<byte>
    ghost var message: seq<byte>

    ghost function Repr(): set<object> {
      {this, state, buffer}
    }

    /** The context is what absorbing the message leaves behind. */
    ghost predicate Valid()
      reads Repr()
    {
      && state.Length == 5 && buffer.Length == BLOCK && state as object != buffer
      && RegistersOf(state[..]) == Hash(INITIAL, Whole(message))
      && buffer[..|message| % BLOCK] == Rest(message)
      && Counts(count0, count1, |message|)
    }

    /** SHA1Transform: hashes the block at buf[at] into the state, using the block itself as work area. */
    method Transform(buf: array<byte>, at: nat)
      requires state.Length == 5 && state as object != buf && at + BLOCK <= buf.Length
      modifies state, buf
      ensures RegistersOf(state[..]) == Compress(RegistersOf(old(state[..])), old(buf[at..at + BLOCK]))
      ensures forall p :: 0 <= p < at || at + BLOCK <= p < buf.Length ==> buf[p] == old(buf[p])
    {
      hide Circular, Step, Steps;
      ghost var block: Block := buf[at..at + BLOCK];
      ghost var h := RegistersOf(state[..]);
      var a, b, c, d, e := state[0], state[1], state[2], state[3], state[4];
      CircularStart(block);
      StepsStart(h, block);
      for g := 0 to 16
        invariant Circular(buf[at..at + BLOCK], block, 5 * g)
        invariant Registers(a, b, c, d, e) == Steps(h, block, 5 * g)
        invariant RegistersOf(state[..]) == h
        invariant forall p :: 0 <= p < at || at + BLOCK <= p < buf.Length ==> buf[p] == old(buf[p])
      {
        var i := 5 * g;
        StepsUnfold(h, block, i);
        StepsUnfold(h, block, i + 1);
        StepsUnfold(h, block, i + 2);
        StepsUnfold(h, block, i + 3);
        StepsUnfold(h, block, i + 4);
        e, b := Round(buf, at, a, b, c, d, e, i, block);
        d, a := Round(buf, at, e, a, b, c, d, i + 1, block);
        c, e := Round(buf, at, d, e, a, b, c, i + 2, block);
        b, d := Round(buf, at, c, d, e, a, b, i + 3, block);
        a, c := Round(buf, at, b, c, d, e, a, i + 4, block);
      }
      state[0] := Wrap(state[0] as int + a);
      state[1] := Wrap(state[1] as int + b);
      state[2] := Wrap(state[2] as int + c);
      state[3] := Wrap(state[3] as int + d);
      state[4] := Wrap(state[4] as int + e);
    }

    lemma StepsStart(h: Registers, block: Block)
      ensures Steps(h, block, 0) == h
    {
    }

    /** SHA1Init. */
    constructor ()
      ensures Valid() && message == [] && fresh(Repr())
    {
      state := new word[5](i => if i == 0 then 0x67452301 else if i == 1 then 0xEFCDAB89 else if i == 2 then 0x98BADCFE
                                else if i == 3 then 0x10325476 else 0xC3D2E1F0);
      buffer := new byte[BLOCK](i => 0);
      count0, count1 := 0, 0;
      message := [];
      new;
      hide Hash, Whole, Rest;
      EmptyHash();
      assert buffer[..0] == [];
    }

    lemma EmptyHash()
      ensures Hash(INITIAL, Whole([])) == INITIAL && Rest([]) == []
    {
      hide Compress;
      assert Whole([]) == [];
    }

    /** memcpy into the context's buffer. */
    method CopyInto(data: array<byte>, from: nat, to: nat, n: nat)
      requires from + n <= data.Length && to + n <= buffer.Length && data != buffer
      modifies buffer
      ensures buffer[to..to + n] == data[from..from + n]
      ensures buffer[..to] == old(buffer[..to])
    {
      forall i | 0 <= i < n {
        buffer[to + i] := data[from + i];
      }
    }

    /** The loop over the whole blocks of the caller's data. */
    method HashInPlace(data: array<byte>, at: nat, dataLen: nat, start: nat, ghost w: seq<byte>,
            ghost r: seq<byte>, ghost d: seq<byte>)
      returns (done: nat)
      requires state.Length == 5 && data as object != state && at + dataLen <= data.Length
      requires d == data[at..at + dataLen] && 1 <= start <= dataLen
      requires |w + (r + d[..start])| % BLOCK == 0
      requires RegistersOf(state[..]) == Hash(INITIAL, w + (r + d[..start]))
      modifies state, data
      ensures start <= done <= dataLen && dataLen - done < BLOCK && (done - start) % BLOCK == 0
      ensures |w + (r + d[..done])| % BLOCK == 0
      ensures RegistersOf(state[..]) == Hash(INITIAL, w + (r + d[..done]))
      ensures forall p :: 0 <= p < at || at + done <= p < data.Length ==> data[p] == old(data[p])
      ensures dataLen <= 64 ==> data[..] == old(data[..])
    {
      hide Hash, Compress, RegistersOf;
      done := start;
      while done + 63 < dataLen
        invariant start <= done <= dataLen && (done - start) % BLOCK == 0
        invariant |w + (r + d[..done])| % BLOCK == 0
        invariant RegistersOf(state[..]) == Hash(INITIAL, w + (r + d[..done]))
        invariant forall p :: 0 <= p < at || at + done <= p < data.Length ==> data[p] == old(data[p])
        invariant dataLen <= 64 ==> data[..] == old(data[..])
      {
        ghost var b := data[at + done..at + done + BLOCK];
        SliceOfSlice(data[..], old(data[..]), at, dataLen, d, done, done + BLOCK);
        assert b == d[done..done + BLOCK];
        HashBlock(INITIAL, w + (r + d[..done]), b);
        AppendSlice(w, r, d, done, done + BLOCK);
        Transform(data, at + done);
        done := done + 64;
      }
    }

    /** Where the data is unchanged from position from on, its slices are still those of d. */
    lemma SliceOfSlice(now: seq<byte>, was: seq<byte>, at: nat, len: nat, d: seq<byte>, from: nat, to: nat)
      requires |now| == |was| && at + len <= |was| && d == was[at..at + len] && from <= to <= len
      requires forall p :: at + from <= p < |was| ==> now[p] == was[p]
      ensures now[at + from..at + to] == d[from..to]
    {
      forall k | 0 <= k < to - from
        ensures now[at + from..at + to][k] == d[from..to][k]
      {
        assert now[at + from + k] == was[at + from + k];
      }
    }

    /** Completes the buffered block, then hashes whole blocks in place, then buffers what is left. */
    method AbsorbBlocks(data: array<byte>, at: nat, dataLen: nat, inBuffer: nat, ghost m: seq<byte>, ghost d: seq<byte>)
      requires state.Length == 5 && buffer.Length == BLOCK && state as object != buffer
      requires data != buffer && data as object != state && at + dataLen <= data.Length
      requires d == data[at..at + dataLen] && inBuffer == |m| % BLOCK && inBuffer + dataLen > 63
      requires RegistersOf(state[..]) == Hash(INITIAL, Whole(m)) && buffer[..inBuffer] == Rest(m)
      modifies state, buffer, data
      ensures RegistersOf(state[..]) == Hash(INITIAL, Whole(m + d))
      ensures buffer[..|m + d| % BLOCK] == Rest(m + d)
      ensures forall p :: 0 <= p < at || at + dataLen <= p < data.Length ==> data[p] == old(data[p])
      ensures dataLen <= 64 ==> data[..] == old(data[..])
    {
      hide Hash, Compress, Whole, Rest, RegistersOf;
      var done := 64 - inBuffer;
      CopyInto(data, at, inBuffer, done);
      assert d[..done] == data[at..at + done];
      assert buffer[0..0 + BLOCK] == buffer[..inBuffer] + buffer[inBuffer..inBuffer + done];
      HashBlock(INITIAL, Whole(m), Rest(m) + d[..done]);
      Transform(buffer, 0);
      done := HashInPlace(data, at, dataLen, done, Whole(m), Rest(m), d);
      WholeGrows(m, d, done);
      assert |d[done..]| == dataLen - done;
      SliceOfSlice(data[..], old(data[..]), at, dataLen, d, done, dataLen);
      CopyInto(data, at + done, 0, dataLen - done);
      assert buffer[..dataLen - done] == buffer[0..0 + (dataLen - done)];
    }

    /** SHA1Update. The bytes of whole blocks are hashed where they lie, and are overwritten by it. */
    method Update(data: array<byte>, at: nat, dataLen: nat)
      requires Valid() && at + dataLen <= data.Length && dataLen + 63 < WORD
      requires data !in Repr()
      modifies Repr(), data
      ensures Valid() && message == old(message) + old(data[at..at + dataLen])
      ensures forall p :: 0 <= p < at || at + dataLen <= p < data.Length ==> data[p] == old(data[p])
      ensures dataLen <= 64 ==> data[..] == old(data[..])
    {
      hide Hash, Compress, Counts, Whole, Rest;
      ghost var m, d := message, data[at..at + dataLen];
      CountsModulo(count0, count1, |m|);
      var inBuffer: nat := count0 / 8 % 64;
      CountsAdd(count0, count1, |m|, dataLen, 8 * dataLen % WORD);
      count0 := (count0 + 8 * dataLen % WORD) % WORD;
      if count0 < 8 * dataLen % WORD {
        count1 := (count1 + 1) % WORD;
      }
      count1 := (count1 + dataLen / 0x2000_0000) % WORD;
      assert Counts(count0, count1, |m + d|);
      message := m + d;
      if inBuffer + dataLen > 63 {
        AbsorbBlocks(data, at, dataLen, inBuffer, m, d);
      } else {
        RestGrows(m, d);
        CopyInto(data, at, inBuffer, dataLen);
        assert buffer[..inBuffer + dataLen] == buffer[..inBuffer] + buffer[inBuffer..inBuffer + dataLen];
      }
    }

    /** Feeds one byte, as the padding does with a one-byte string. */
    method UpdateByte(b: byte)
      requires Valid()
      modifies Repr()
      ensures Valid() && message == old(message) + [b]
    {
      var one := new byte[1](i => b);
      assert one[0..1] == [b];
      Update(one, 0, 1);
    }

    /** The bit counters, most significant byte first. */
    method RecordBits(ghost n: nat) returns (numBits: array<byte>)
      requires Counts(count0, count1, n)
      ensures fresh(numBits) && numBits.Length == 8 && numBits[..] == LengthBytes(n)
    {
      hide BigEndianBytes, Counts, LengthBytes;
      numBits := new byte[8];
      PutBigEndian(numBits, 0, count1);
      PutBigEndian(numBits, 4, count0);
      CountsSplit(count0, count1, n);
      assert numBits[..] == numBits[0..4] + numBits[4..8];
    }

    /** SHA1Final. */
    method Final(digest: array<byte>)
      requires Valid() && digest.Length >= 20 && digest !in Repr()
      modifies Repr(), digest
      ensures digest[..20] == Digest(old(message))
    {
      hide Hash, Counts, Whole, Rest, BigEndianBytes, LengthBytes;
      ghost var m := message;
      var numBits := RecordBits(|m|);
      UpdateByte(0x80);
      PadWithZeros(m);
      assert numBits[0..8] == numBits[..];
      Update(numBits, 0, 8);
      assert message == Padded(m);
      WholeIsAll(message);
      PutDigest(digest);
      forall i | 0 <= i < 64 {
        buffer[i] := 0;
      }
      forall i | 0 <= i < 5 {
        state[i] := 0;
      }
      count0, count1 := 0, 0;
    }

    lemma CountsSplit(lo: word, hi: word, n: nat)
      requires Counts(lo, hi, n)
      ensures BigEndianBytes(hi) + BigEndianBytes(lo) == LengthBytes(n)
    {
      hide BigEndianBytes;
      var bits := 8 * n % (WORD * WORD);
      assert bits / WORD == hi && bits % WORD == lo;
    }

    /** Zeros after the 0x80 until a block lacks but the length. */
    method PadWithZeros(ghost m: seq<byte>)
      requires Valid() && message == m + [0x80]
      modifies Repr()
      ensures Valid() && message + LengthBytes(|m|) == Padded(m)
    {
      hide Hash, Counts, Whole, Rest, BigEndianBytes, LengthBytes;
      ghost var k: nat := 0;
      ghost var want := (119 - |m| % BLOCK) % BLOCK;
      CountsModulo(count0, count1, |message|);
      while count0 / 8 % 64 * 8 != 448
        invariant Valid() && k <= want
        invariant message == m + [0x80] + Zeros(k)
        invariant count0 / 8 % 64 == |message| % BLOCK
        decreases want - k
      {
        PaddingGoesOn(|m|, k, want);
        UpdateByte(0);
        k := k + 1;
        assert Zeros(k) == Zeros(k - 1) + [0];
        CountsModulo(count0, count1, |message|);
      }
      PaddingStops(|m|, k, want);
    }

    lemma PaddingGoesOn(n: nat, k: nat, want: nat)
      requires want == (119 - n % BLOCK) % BLOCK && k <= want && (n + 1 + k) % BLOCK != 56
      ensures k < want
    {
    }

    lemma PaddingStops(n: nat, k: nat, want: nat)
      requires want == (119 - n % BLOCK) % BLOCK && k <= want && (n + 1 + k) % BLOCK == 56
      ensures k == want
    {
    }

    method PutBigEndian(a: array<byte>, at: nat, w: word)
      requires at + 4 <= a.Length
      modifies a
      ensures a[at..at + 4] == BigEndianBytes(w)
      ensures forall p :: 0 <= p < at || at + 4 <= p < a.Length ==> a[p] == old(a[p])
    {
      a[at] := ByteOf(w, 3);
      a[at + 1] := ByteOf(w, 2);
      a[at + 2] := ByteOf(w, 1);
      a[at + 3] := ByteOf(w, 0);
    }

    method PutDigest(digest: array<byte>)
      requires state.Length == 5 && digest.Length >= 20 && digest as object != state
      modifies digest
      ensures digest[..20] == DigestBytes(RegistersOf(state[..]))
    {
      hide BigEndianBytes;
      for i := 0 to 5
        invariant forall k :: 0 <= k < i ==> digest[4 * k..4 * k + 4] == BigEndianBytes(state[k])
      {
        PutBigEndian(digest, 4 * i, state[i]);
      }
      assert digest[..20] == digest[0..4] + digest[4..8] + digest[8..12] + digest[12..16] + digest[16..20];
    }
  }
}
