/** Lite-On drives: sectors come with their inner parity, 182 bytes to the row; row 0 is repaired, parity is dropped. */
module LiteOn {
  import opened Bytes
  import opened Polynomials
  import opened LinearCode
  import opened DecoderSpec
  import opened Geometry
  import opened Slices
  import ReedSolomon

  const RAW: nat := 2384
  const ROWS: nat := 12
  const ROW: nat := 182
  const USED: nat := 172

  /** The sector number in a frame header. */
  function NumberAt(raw: seq<byte>, s: nat): nat
    requires (s + 1) * RAW <= |raw|
  {
    raw[s * RAW + 1] as int * 0x1_0000 + raw[s * RAW + 2] as int * 0x100 + raw[s * RAW + 3] as int
  }

  ghost function Row0(raw: seq<byte>, s: nat): (w: seq<byte>)
    requires (s + 1) * RAW <= |raw|
    ensures |w| == CODE_LENGTH
  {
    raw[s * RAW..s * RAW + CODE_LENGTH]
  }

  /** Row r of sector s without its parity, row 0 after decoding. */
  ghost function Row(raw: seq<byte>, s: nat, r: nat): (w: seq<byte>)
    requires (s + 1) * RAW <= |raw| && r < ROWS
    ensures |w| == USED
  {
    if r == 0 then Decoded(Row0(raw, s)).word[..USED] else raw[s * RAW + r * ROW..s * RAW + r * ROW + USED]
  }

  /** The first n rows of sector s. */
  ghost function RowsOf(raw: seq<byte>, s: nat, n: nat): (w: seq<byte>)
    requires (s + 1) * RAW <= |raw| && n <= ROWS
    ensures |w| == n * USED
  {
    if n == 0 then [] else RowsOf(raw, s, n - 1) + Row(raw, s, n - 1)
  }

  /** The sectors that come out of the first k raw sectors. */
  ghost function Sectors(raw: seq<byte>, k: nat): (w: seq<byte>)
    requires k * RAW <= |raw|
    ensures |w| == k * RAW_SECTOR
  {
    if k == 0 then [] else Sectors(raw, k - 1) + RowsOf(raw, k - 1, ROWS)
  }

  lemma {:induction false} RowsAt(raw: seq<byte>, s: nat, n: nat, r: nat, c: nat)
    requires (s + 1) * RAW <= |raw| && r < n <= ROWS && c < USED
    ensures r * USED + c < n * USED && RowsOf(raw, s, n)[r * USED + c] == Row(raw, s, r)[c]
  {
    hide Row;
    if r < n - 1 {
      RowsAt(raw, s, n - 1, r, c);
    }
  }

  /** Byte 2064 s + 172 r + c of the output is byte c of row r of raw sector s. */
  lemma {:induction false} SectorsAt(raw: seq<byte>, k: nat, s: nat, r: nat, c: nat)
    requires k * RAW <= |raw| && s < k && r < ROWS && c < USED
    ensures s * RAW_SECTOR + r * USED + c < k * RAW_SECTOR
    ensures Sectors(raw, k)[s * RAW_SECTOR + r * USED + c] == Row(raw, s, r)[c]
  {
    hide Row, RowsOf;
    if s < k - 1 {
      SectorsAt(raw, k - 1, s, r, c);
    } else {
      RowsAt(raw, s, ROWS, r, c);
    }
  }

  /** Sector s continues the sequence that sector 0 starts. */
  predicate InSequence(raw: seq<byte>, s: nat)
    requires (s + 1) * RAW <= |raw|
  {
    NumberAt(raw, s) == NumberAt(raw, 0) + s
  }

  /** How many sectors come before the first that breaks the sequence. */
  function Unbroken(raw: seq<byte>, m: nat): (k: nat)
    requires m * RAW <= |raw|
    ensures k <= m
    ensures forall s :: 0 <= s < k ==> InSequence(raw, s)
    ensures k < m ==> !InSequence(raw, k)
  {
    if m == 0 then 0
    else
      var k := Unbroken(raw, m - 1);
      if k < m - 1 then k else if InSequence(raw, m - 1) then m else m - 1
  }

  // ---------- what reaches the output ----------

  ghost predicate Damaged(c: seq<byte>, w: seq<byte>)
    requires |c| == CODE_LENGTH
  {
    exists e :: |e| == CODE_LENGTH && Weight(e) <= 1 && w == XorWords(c, e)
  }

  /** The drive's data is that of a sound recording, but for at most one wrong byte in each row 0. */
  ghost predicate LightlyDamaged(raw: seq<byte>, sound: seq<byte>, m: nat)
    requires m * RAW <= |raw| == |sound|
  {
    forall s :: 0 <= s < m ==>
      && IsCodeword(Row0(sound, s))
      && Damaged(Row0(sound, s), Row0(raw, s))
      && (forall p :: s * RAW + CODE_LENGTH <= p < (s + 1) * RAW ==> raw[p] == sound[p])
  }

  lemma RowZeroRepaired(c: seq<byte>, e: seq<byte>)
    requires IsCodeword(c) && |e| == CODE_LENGTH && Weight(e) <= 1
    ensures Decoded(XorWords(c, e)).word == c == Decoded(c).word
  {
    hide WordValue, Decoded, VanishesAtRoots;
    SoundDecodes(c);
    if Weight(e) == 1 {
      SingleErrorRepaired(c, e);
    } else {
      UndamagedWord(c, e);
    }
  }

  lemma SoundDecodes(c: seq<byte>)
    requires IsCodeword(c)
    ensures Decoded(c).word == c
  {
    hide WordValue;
    SyndromesOfCodeword(c);
  }

  /** Light damage changes nothing that is copied out. */
  lemma RowsRepaired(raw: seq<byte>, sound: seq<byte>, m: nat, s: nat, r: nat)
    requires m * RAW <= |raw| == |sound| && LightlyDamaged(raw, sound, m) && s < m && r < ROWS
    ensures Row(raw, s, r) == Row(sound, s, r)
  {
    hide Decoded, VanishesAtRoots;
    assert Damaged(Row0(sound, s), Row0(raw, s));
    var e :| |e| == CODE_LENGTH && Weight(e) <= 1 && Row0(raw, s) == XorWords(Row0(sound, s), e);
    RowZeroRepaired(Row0(sound, s), e);
  }

  lemma {:induction false} SameRows(raw: seq<byte>, sound: seq<byte>, m: nat, s: nat, n: nat)
    requires m * RAW <= |raw| == |sound| && LightlyDamaged(raw, sound, m) && s < m && n <= ROWS
    ensures RowsOf(raw, s, n) == RowsOf(sound, s, n)
  {
    hide Row, LightlyDamaged;
    if n > 0 {
      SameRows(raw, sound, m, s, n - 1);
      RowsRepaired(raw, sound, m, s, n - 1);
    }
  }

  /** The sectors of a lightly damaged read are those of the sound recording, wherever in row 0 the wrong byte is. */
  lemma {:induction false} LightDamageAbsent(raw: seq<byte>, sound: seq<byte>, m: nat, k: nat)
    requires m * RAW <= |raw| == |sound| && LightlyDamaged(raw, sound, m) && k <= m
    ensures Sectors(raw, k) == Sectors(sound, k)
  {
    hide Row, RowsOf, LightlyDamaged;
    if k > 0 {
      LightDamageAbsent(raw, sound, m, k - 1);
      SameRows(raw, sound, m, k - 1, ROWS);
    }
  }

  // ---------- the sequence check, which comes before the repair ----------

  /** How far off the number of sector s is. */
  function NumberShift(raw: seq<byte>, sound: seq<byte>, s: nat): int
    requires (s + 1) * RAW <= |raw| == |sound|
  {
    NumberAt(raw, s) - NumberAt(sound, s)
  }

  /** Damage goes unnoticed exactly if it shifts all sector numbers alike. */
  lemma SequenceKeptIff(raw: seq<byte>, sound: seq<byte>, m: nat)
    requires m * RAW <= |raw| == |sound| && Unbroken(sound, m) == m
    ensures Unbroken(raw, m) == m <==>
              forall s :: 0 <= s < m ==> NumberShift(raw, sound, s) == NumberShift(raw, sound, 0)
  {
    hide NumberAt;
    UnbrokenIff(raw, m);
    forall s | 0 <= s < m
      ensures InSequence(raw, s) <==> NumberShift(raw, sound, s) == NumberShift(raw, sound, 0)
    {
      assert InSequence(sound, s);
    }
  }

  lemma UnbrokenIff(raw: seq<byte>, m: nat)
    requires m * RAW <= |raw|
    ensures Unbroken(raw, m) == m <==> forall s :: 0 <= s < m ==> InSequence(raw, s)
  {
    hide NumberAt;
    var k := Unbroken(raw, m);
    if k < m {
      assert !InSequence(raw, k);
    }
  }

  /** If the first number is right, the sectors before the first wrong number come out, and no more. */
  lemma BrokenAtFirstShift(raw: seq<byte>, sound: seq<byte>, m: nat, k: nat)
    requires m * RAW <= |raw| == |sound| && Unbroken(sound, m) == m && k <= m
    requires 0 < m ==> NumberShift(raw, sound, 0) == 0
    requires forall s :: 0 <= s < k ==> NumberShift(raw, sound, s) == 0
    requires k < m ==> NumberShift(raw, sound, k) != 0
    ensures Unbroken(raw, m) == k
  {
    hide NumberAt, Unbroken;
    forall s | 0 <= s < m && s <= k
      ensures InSequence(raw, s) <==> s < k
    {
      assert InSequence(sound, s);
      assert NumberShift(raw, sound, s) == 0 <==> s < k;
    }
    UnbrokenIs(raw, m, k);
  }

  lemma {:induction false} UnbrokenIs(raw: seq<byte>, m: nat, k: nat)
    requires m * RAW <= |raw| && k <= m
    requires forall s :: 0 <= s < k ==> InSequence(raw, s)
    requires k < m ==> !InSequence(raw, k)
    ensures Unbroken(raw, m) == k
  {
    hide InSequence;
    if m > 0 {
      UnbrokenIs(raw, m - 1, if k < m then k else m - 1);
    }
  }

  /**
   * One wrong byte in the number of a sector but the first: every sector would be repaired, yet the dump ends before
   * this one.
   */
  lemma NumberDamageBreaks(sound: seq<byte>, m: nat, s: nat, p: nat, v: byte)
    requires m * RAW <= |sound| && Unbroken(sound, m) == m && 0 < s < m && 1 <= p <= 3
    requires forall t :: 0 <= t < m ==> IsCodeword(Row0(sound, t))
    requires v != sound[s * RAW + p]
    ensures var raw := sound[s * RAW + p := v];
            && LightlyDamaged(raw, sound, m) && Sectors(raw, m) == Sectors(sound, m)
            && Unbroken(raw, m) == s
  {
    hide NumberAt, Unbroken, Sectors, VanishesAtRoots;
    var raw := sound[s * RAW + p := v];
    forall t | 0 <= t < m
      ensures Damaged(Row0(sound, t), Row0(raw, t)) && (NumberShift(raw, sound, t) == 0 <==> t != s)
    {
      OneByteWrong(sound, s, p, v, t);
    }
    LightDamageAbsent(raw, sound, m, m);
    BrokenAtFirstShift(raw, sound, m, s);
  }

  lemma OneByteWrong(sound: seq<byte>, s: nat, p: nat, v: byte, t: nat)
    requires (s + 1) * RAW <= |sound| && (t + 1) * RAW <= |sound| && 1 <= p <= 3 && v != sound[s * RAW + p]
    ensures var raw := sound[s * RAW + p := v];
            Damaged(Row0(sound, t), Row0(raw, t)) && (NumberShift(raw, sound, t) == 0 <==> t != s)
  {
    hide Damaged;
    var raw, w := sound[s * RAW + p := v], Row0(sound, t);
    if t == s {
      OneWrong(w, p, v);
      assert Row0(raw, t) == w[p := v];
    } else {
      OneWrong(w, 0, w[0]);
      assert Row0(raw, t) == w == w[0 := w[0]];
    }
  }

  lemma OneWrong(c: seq<byte>, p: nat, v: byte)
    requires |c| == CODE_LENGTH && p < CODE_LENGTH
    ensures Damaged(c, c[p := v])
  {
    hide Xor, Weight;
    var x := Xor(c[p], v);
    var e := Zeros(p) + ([x] + Zeros(CODE_LENGTH - p - 1));
    WeightOfOne(p, x, CODE_LENGTH - p - 1);
    XorAssociates(c[p], c[p], v);
    XorUnits(c[p]);
    XorUnits(v);
    forall q | 0 <= q < CODE_LENGTH
      ensures XorWords(c, e)[q] == c[p := v][q]
    {
      XorUnits(c[q]);
    }
    assert XorWords(c, e) == c[p := v];
  }

  lemma WeightOfOne(m: nat, x: byte, n: nat)
    ensures Weight(Zeros(m) + ([x] + Zeros(n))) <= 1
  {
    WeightSplit(Zeros(m), [x] + Zeros(n));
    WeightSplit([x], Zeros(n));
    WeightOfZeros(Zeros(m));
    WeightOfZeros(Zeros(n));
    assert [x][1..] == [];
  }

  /** Such a recording: two sectors in sequence, and the low byte of the second number wrong. */
  lemma NumberDamageExists() returns (sound: seq<byte>, raw: seq<byte>)
    ensures |sound| == |raw| == 2 * RAW && LightlyDamaged(raw, sound, 2)
    ensures Unbroken(sound, 2) == 2 && Unbroken(raw, 2) == 1
  {
    hide Parity, VanishesAtRoots, Sectors;
    var m0 := Zeros(MESSAGE_LENGTH);
    var m1 := m0[3 := 1];
    EncodedIsCodeword(m0);
    EncodedIsCodeword(m1);
    var c0, c1, rest := Encoded(m0), Encoded(m1), Zeros(RAW - CODE_LENGTH);
    sound := (c0 + rest) + (c1 + rest);
    assert Row0(sound, 0) == c0 && Row0(sound, 1) == c1;
    assert NumberAt(sound, 0) == 0;
    assert NumberAt(sound, 1) == 1;
    UnbrokenIff(sound, 2);
    raw := sound[RAW + 3 := 0];
    NumberDamageBreaks(sound, 2, 1, 3, 0);
  }

  // ---------- the dump ----------

  /** liteon_dvd_dump_memblock. raw is what the command leaves in the local buffer, executed what it returns. */
  method DumpMemblock(codec: ReedSolomon.Codec, raw: seq<byte>, executed: int, blockSize: nat, buf: array?<byte>,
          at: nat)
    returns (out: int)
    requires codec.TablesReady() && |raw| == 0x1_0000
    requires buf != null ==> at + blockSize <= buf.Length && buf != codec.alphaTo && buf != codec.indexOf
    modifies if buf == null then {} else {buf}
    ensures buf == null ==> out == -1
    ensures buf != null && (blockSize == 0 || blockSize / RAW_SECTOR * RAW >= 65535) ==>
              out == -2 && buf[..] == old(buf[..])
    ensures buf != null && blockSize != 0 && blockSize / RAW_SECTOR * RAW < 65535 ==>
              var m := blockSize / RAW_SECTOR;
              var k := Unbroken(raw, m);
              && out == (if k < m then -3 else executed)
              && buf[at..at + k * RAW_SECTOR] == Sectors(raw, k)
              && forall p :: 0 <= p < at || at + k * RAW_SECTOR <= p < buf.Length ==> buf[p] == old(buf[p])
  {
    if buf == null {
      out := -1;
    } else if blockSize == 0 || blockSize / 2064 * 0x950 >= 65535 {
      out := -2;
    } else {
      var tmp := new byte[0x1_0000](i requires 0 <= i < 0x1_0000 => raw[i]);
      assert tmp[..] == raw;
      out := Deinterleave(codec, tmp, raw, executed, blockSize / 2064, buf, at);
    }
  }

  /** The loop over the sectors of the local buffer. */
  method Deinterleave(codec: ReedSolomon.Codec, tmp: array<byte>, ghost raw: seq<byte>, executed: int, m: nat,
          buf: array<byte>, at: nat)
    returns (out: int)
    requires codec.TablesReady() && tmp.Length == 0x1_0000 == |raw| && tmp[..] == raw && m * RAW < 65535
    requires at + m * RAW_SECTOR <= buf.Length && buf != codec.alphaTo && buf != codec.indexOf
    requires tmp != buf && tmp != codec.alphaTo && tmp != codec.indexOf
    modifies tmp, buf
    ensures var k := Unbroken(raw, m);
            && out == (if k < m then -3 else executed)
            && buf[at..at + k * RAW_SECTOR] == Sectors(raw, k)
            && forall p :: 0 <= p < at || at + k * RAW_SECTOR <= p < buf.Length ==> buf[p] == old(buf[p])
  {
    hide Sectors, NumberAt, Unbroken, RowsOf, ReedSolomon.Codec.TablesReady;
    out := executed;
    var rawBlockSize := m * RAW;
    var srcOffset, dstOffset, secCnt := 0, 0, 0;
    var firstSecNr := 0x5555_5555;
    NothingYet(raw);
    while srcOffset < rawBlockSize
      invariant codec.TablesReady()
      invariant secCnt <= m && srcOffset == secCnt * RAW && dstOffset == secCnt * RAW_SECTOR
      invariant Unbroken(raw, secCnt) == secCnt
      invariant if secCnt == 0 then firstSecNr == 0x5555_5555 else firstSecNr == NumberAt(raw, 0)
      invariant forall p :: srcOffset <= p < tmp.Length ==> tmp[p] == raw[p]
      invariant buf[at..at + dstOffset] == Sectors(raw, secCnt)
      invariant forall p :: 0 <= p < at || at + dstOffset <= p < buf.Length ==> buf[p] == old(buf[p])
    {
      var secNr := tmp[srcOffset + 1] as int * 0x1_0000 + tmp[srcOffset + 2] as int * 0x100 + tmp[srcOffset + 3] as int;
      assert secNr == NumberAt(raw, secCnt) by {
        NumberIs(raw, secCnt, secNr);
      }
      NumberBelow(raw, 0);
      UnbrokenNext(raw, secCnt, m);
      if firstSecNr == 0x5555_5555 {
        firstSecNr := secNr;
      } else if secNr != firstSecNr + secCnt {
        out := -3;
        tmp[srcOffset], tmp[srcOffset + 1], tmp[srcOffset + 2], tmp[srcOffset + 3] := 0xff, 0xff, 0xff, 0xff;
        break;
      }
      ghost var before := buf[..];
      CopySector(codec, tmp, raw, secCnt, buf, at + dstOffset);
      SameSlice(before, buf[..], at, dstOffset);
      assert buf[..][at..at + dstOffset] == buf[at..at + dstOffset];
      assert before[at..at + dstOffset] == Sectors(raw, secCnt);
      SectorsNext(raw, secCnt);
      assert buf[at..at + dstOffset + RAW_SECTOR]
          == buf[at..at + dstOffset] + buf[at + dstOffset..at + dstOffset + RAW_SECTOR];
      srcOffset := srcOffset + RAW;
      dstOffset := dstOffset + RAW_SECTOR;
      secCnt := secCnt + 1;
    }
  }

  lemma NothingYet(raw: seq<byte>)
    ensures Unbroken(raw, 0) == 0 && Sectors(raw, 0) == []
  {
  }

  lemma NumberIs(raw: seq<byte>, s: nat, n: nat)
    requires (s + 1) * RAW <= |raw|
    requires n == raw[s * RAW + 1] as int * 0x1_0000 + raw[s * RAW + 2] as int * 0x100 + raw[s * RAW + 3] as int
    ensures NumberAt(raw, s) == n
  {
  }

  /** A number of 24 bits never equals the initial value of the first number. */
  lemma NumberBelow(raw: seq<byte>, s: nat)
    requires (s + 1) * RAW <= |raw|
    ensures NumberAt(raw, s) < 0x100_0000
  {
  }

  lemma {:induction false} UnbrokenNext(raw: seq<byte>, s: nat, m: nat)
    requires s < m && m * RAW <= |raw| && Unbroken(raw, s) == s
    ensures Unbroken(raw, s + 1) == if NumberAt(raw, s) == NumberAt(raw, 0) + s then s + 1 else s
    ensures NumberAt(raw, s) != NumberAt(raw, 0) + s ==> Unbroken(raw, m) == s
    decreases m
  {
    hide NumberAt;
    if m > s + 1 {
      UnbrokenNext(raw, s, m - 1);
    }
  }

  lemma SectorsNext(raw: seq<byte>, k: nat)
    requires (k + 1) * RAW <= |raw|
    ensures Sectors(raw, k + 1) == Sectors(raw, k) + RowsOf(raw, k, ROWS)
  {
    hide RowsOf;
  }

  /** Decodes row 0 of one sector in place and copies out its twelve rows. */
  method CopySector(codec: ReedSolomon.Codec, tmp: array<byte>, ghost raw: seq<byte>, s: nat, buf: array<byte>,
          dst: nat)
    requires codec.TablesReady() && tmp.Length == |raw| && (s + 1) * RAW <= tmp.Length && dst + RAW_SECTOR <= buf.Length
    requires buf != codec.alphaTo && buf != codec.indexOf && tmp != buf && tmp != codec.alphaTo && tmp != codec.indexOf
    requires forall p :: s * RAW <= p < tmp.Length ==> tmp[p] == raw[p]
    modifies tmp, buf
    ensures codec.TablesReady() && buf[dst..dst + RAW_SECTOR] == RowsOf(raw, s, ROWS)
    ensures forall p :: (s + 1) * RAW <= p < tmp.Length ==> tmp[p] == raw[p]
    ensures forall p :: 0 <= p < dst || dst + RAW_SECTOR <= p < buf.Length ==> buf[p] == old(buf[p])
  {
    hide Decoded, RowsOf, Row, ReedSolomon.Codec.TablesReady;
    assert tmp[s * RAW..s * RAW + CODE_LENGTH] == Row0(raw, s);
    var _ := codec.RsDecode(tmp, s * RAW, null);
    var srcOffset, dstOffset := s * RAW, dst;
    NoRows(raw, s);
    for rowNr := 0 to ROWS
      invariant codec.TablesReady()
      invariant srcOffset == s * RAW + rowNr * ROW && dstOffset == dst + rowNr * USED
      invariant buf[dst..dstOffset] == RowsOf(raw, s, rowNr)
      invariant tmp[s * RAW..s * RAW + CODE_LENGTH] == Decoded(Row0(raw, s)).word
      invariant forall p :: s * RAW + CODE_LENGTH <= p < tmp.Length ==> tmp[p] == raw[p]
      invariant forall p :: 0 <= p < dst || dstOffset <= p < buf.Length ==> buf[p] == old(buf[p])
    {
      RowIs(raw, s, rowNr, tmp[..]);
      RowsNext(raw, s, rowNr);
      CopyRow(tmp, srcOffset, buf, dst, dstOffset);
      dstOffset := dstOffset + USED;
      srcOffset := srcOffset + ROW;
    }
  }

  /** memcpy of one row behind those already copied. */
  method CopyRow(tmp: array<byte>, src: nat, buf: array<byte>, start: nat, dst: nat)
    requires src + USED <= tmp.Length && start <= dst && dst + USED <= buf.Length && tmp != buf
    modifies buf
    ensures buf[start..dst + USED] == old(buf[start..dst]) + tmp[src..src + USED]
    ensures forall p :: 0 <= p < start || dst + USED <= p < buf.Length ==> buf[p] == old(buf[p])
  {
    forall i | 0 <= i < USED {
      buf[dst + i] := tmp[src + i];
    }
    assert buf[start..dst + USED] == buf[start..dst] + buf[dst..dst + USED];
  }

  lemma NoRows(raw: seq<byte>, s: nat)
    requires (s + 1) * RAW <= |raw|
    ensures RowsOf(raw, s, 0) == []
  {
  }

  lemma RowsNext(raw: seq<byte>, s: nat, r: nat)
    requires (s + 1) * RAW <= |raw| && r < ROWS
    ensures RowsOf(raw, s, r + 1) == RowsOf(raw, s, r) + Row(raw, s, r)
  {
    hide Row;
  }

  lemma RowIs(raw: seq<byte>, s: nat, r: nat, now: seq<byte>)
    requires (s + 1) * RAW <= |raw| == |now| && r < ROWS
    requires now[s * RAW..s * RAW + CODE_LENGTH] == Decoded(Row0(raw, s)).word
    requires forall p :: s * RAW + CODE_LENGTH <= p < |now| ==> now[p] == raw[p]
    ensures Row(raw, s, r) == now[s * RAW + r * ROW..s * RAW + r * ROW + USED]
  {
    hide Decoded;
    if r == 0 {
      SliceWithin(now, s * RAW, CODE_LENGTH, 0, USED);
    } else {
      SameSlice(raw, now, s * RAW + r * ROW, USED);
    }
  }
}
