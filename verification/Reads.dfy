/** Getting raw frames out of the drive: chunked dumps, and two ways to dump the frame headers. */
module Reads {
  import opened Bytes
  import opened Geometry
  import opened Slices
  import D = Drive

  /** The longest run of sectors dumped in one command. */
  const CHUNK: nat := 27 * 2064

  /** The frames that n passes of step sectors each leave in memory, one after the other. */
  ghost function PassBytes(d: D.Drive, s: nat, step: nat, n: nat): seq<byte> {
    if n == 0 then [] else PassBytes(d, s, step, n - 1) + d.Ram(s + (n - 1) * step, 0, RAW_SECTOR * step)
  }

  lemma {:induction false} PassLength(d: D.Drive, s: nat, step: nat, n: nat)
    ensures |PassBytes(d, s, step, n)| == n * (RAW_SECTOR * step)
  {
    if n > 0 {
      PassLength(d, s, step, n - 1);
      OneMore(n - 1, RAW_SECTOR * step);
    }
  }

  // ---------- chunked dumps ----------

  /** How many chunks a pass of step sectors takes. */
  function ChunkCount(step: nat): nat {
    if step <= 27 then 1 else (step + 26) / 27
  }

  /** How many chunks a pass of step sectors takes, and how long they are; all but the first of one are full. */
  method PlanChunks(step: nat) returns (blockLen: nat, blockSize: nat, lastBlockSize: nat)
    requires 1 <= step <= 100
    ensures blockLen == ChunkCount(step)
    ensures 1 <= blockLen <= 4 && (blockLen > 1 ==> blockSize == CHUNK)
    ensures RAW_SECTOR * step <= (blockLen - 1) * CHUNK + blockSize && blockSize <= CHUNK
    ensures lastBlockSize == RAW_SECTOR * step - (blockLen - 1) * CHUNK
  {
    blockSize := step * 2064;
    lastBlockSize := blockSize;
    blockLen := 1;
    if blockSize > CHUNK {
      blockLen := blockSize / CHUNK;
      if blockSize % CHUNK != 0 {
        blockLen := blockLen + 1;
      }
      blockSize := CHUNK;
      lastBlockSize := step * 2064 - CHUNK * (blockLen - 1);
    }
  }

  lemma RamConcat(d: D.Drive, s: nat, i: nat, n: nat)
    ensures d.Ram(s, 0, i) + d.Ram(s, i, n) == d.Ram(s, 0, i + n)
  {
  }

  lemma RamPrefix(d: D.Drive, s: nat, n: nat, all: nat)
    requires n <= all
    ensures d.Ram(s, 0, all)[..n] == d.Ram(s, 0, n)
  {
  }

  /** The chunks of one pass. Every chunk has full length, so the last one runs over the end of the pass. */
  method DumpChunks(d: D.Drive, buf: array<byte>, at: nat, step: nat, blockLen: nat, blockSize: nat, lastBlockSize: nat)
    returns (ok: bool)
    requires at + blockLen * CHUNK <= buf.Length && blockLen >= 1 && blockSize <= CHUNK && lastBlockSize <= CHUNK
    requires blockLen > 1 ==> blockSize == CHUNK
    requires RAW_SECTOR * step <= (blockLen - 1) * CHUNK + blockSize
    modifies d`commands, buf
    ensures ChunksDumped(d, blockLen, old(d.commands), ok, d.commands)
    ensures ok ==> buf[at..at + RAW_SECTOR * step] == d.Ram(d.last, 0, RAW_SECTOR * step)
    ensures buf[..at] == old(buf[..at])
  {
    hide D.Drive.Ram, ChunksDumped;
    ok := true;
    var size := blockSize;
    var blockCnt := 0;
    ghost var got := 0;
    NothingDumped(d, buf, at);
    NoChunks(d, d.commands);
    while blockCnt < blockLen
      invariant blockCnt <= blockLen && ok && (blockCnt < blockLen ==> size == blockSize)
      invariant ChunksDumped(d, blockCnt, old(d.commands), true, d.commands)
      invariant got == if blockCnt < blockLen then blockCnt * CHUNK else (blockLen - 1) * CHUNK + blockSize
      invariant buf[at..at + got] == d.Ram(d.last, 0, got)
      invariant buf[..at] == old(buf[..at])
    {
      OneChunkMore(d, blockCnt, blockLen, old(d.commands), d.commands);
      ok := DumpChunk(d, buf, at, blockCnt * CHUNK, size);
      if !ok {
        return;
      }
      got := got + size;
      if blockCnt == blockLen - 1 {
        size := lastBlockSize;
      }
      blockCnt := blockCnt + 1;
    }
    RamPrefix(d, d.last, RAW_SECTOR * step, got);
    assert buf[at..at + RAW_SECTOR * step] == buf[at..at + got][..RAW_SECTOR * step];
  }

  /** The outcome of n dump commands, the first failure ending them, and the number of the next command. */
  ghost predicate ChunksDumped(d: D.Drive, n: nat, before: nat, ok: bool, after: nat) {
    var k := d.Answered(before, n);
    ok == (k == n) && after == before + if ok then n else k + 1
  }

  lemma NoChunks(d: D.Drive, n: nat)
    ensures ChunksDumped(d, 0, n, true, n)
  {
  }

  lemma OneChunkMore(d: D.Drive, k: nat, n: nat, before: nat, now: nat)
    requires ChunksDumped(d, k, before, true, now) && k < n
    ensures d.answer(now) ==> ChunksDumped(d, k + 1, before, true, now + 1)
    ensures !d.answer(now) ==> ChunksDumped(d, n, before, false, now + 1)
  {
    d.AnsweredNext(before, k);
    if !d.answer(now) {
      d.FailureFinal(before, k + 1, n);
    }
  }

  lemma NothingDumped(d: D.Drive, buf: array<byte>, at: nat)
    requires at <= buf.Length
    ensures buf[at..at + 0] == d.Ram(d.last, 0, 0)
  {
  }

  method DumpChunk(d: D.Drive, buf: array<byte>, at: nat, got: nat, size: nat) returns (ok: bool)
    requires at + got + size <= buf.Length && buf[at..at + got] == d.Ram(d.last, 0, got)
    modifies d`commands, buf
    ensures ok == d.answer(old(d.commands)) && d.commands == old(d.commands) + 1
    ensures ok ==> buf[at..at + (got + size)] == d.Ram(d.last, 0, got + size)
    ensures buf[..at] == old(buf[..at])
  {
    ghost var done := buf[at..at + got];
    ok := d.MemDump(got, size, buf, at + got);
    if ok {
      assert buf[at..at + got] == done;
      assert buf[at..at + (got + size)] == buf[at..at + got] + buf[at + got..at + got + size];
      RamConcat(d, d.last, got, size);
    }
  }

  // ---------- frame headers ----------

  /** How many of the five blocks of a Hitachi read lie on the disc. */
  function Blocks(sectorNo: nat, sectorsNo: nat): (n: nat)
    ensures n <= 5 && forall j :: 0 <= j < 5 ==> (sectorNo + 16 * j < sectorsNo <==> j < n)
  {
    if sectorsNo <= sectorNo then 0
    else if sectorsNo - sectorNo > 64 then 5
    else (sectorsNo - sectorNo + 15) / 16
  }

  /** Frame f of the buffer starts and ends as in the memory. */
  ghost predicate HeaderRead(d: D.Drive, s: nat, b: seq<byte>, f: nat)
    requires (f + 1) * RAW_SECTOR <= |b|
  {
    && b[f * RAW_SECTOR..f * RAW_SECTOR + 12] == d.Ram(s, f * RAW_SECTOR, 12)
    && b[f * RAW_SECTOR + 2060..(f + 1) * RAW_SECTOR] == d.Ram(s, f * RAW_SECTOR + 2060, 4)
  }

  lemma HeaderKept(d: D.Drive, s: nat, b: seq<byte>, c: seq<byte>, f: nat)
    requires (f + 1) * RAW_SECTOR <= |b| == |c| && HeaderRead(d, s, b, f)
    requires forall p :: f * RAW_SECTOR <= p < (f + 1) * RAW_SECTOR ==> c[p] == b[p]
    ensures HeaderRead(d, s, c, f)
  {
    assert c[f * RAW_SECTOR..f * RAW_SECTOR + 12] == b[f * RAW_SECTOR..f * RAW_SECTOR + 12];
    assert c[f * RAW_SECTOR + 2060..(f + 1) * RAW_SECTOR] == b[f * RAW_SECTOR + 2060..(f + 1) * RAW_SECTOR];
  }

  lemma HeadersKept(d: D.Drive, s: nat, b: seq<byte>, c: seq<byte>, n: nat)
    requires n * RAW_SECTOR <= |b| == |c|
    requires forall f :: 0 <= f < n ==> HeaderRead(d, s, b, f)
    requires forall p :: 0 <= p < n * RAW_SECTOR ==> c[p] == b[p]
    ensures forall f :: 0 <= f < n ==> HeaderRead(d, s, c, f)
  {
    forall f | 0 <= f < n
      ensures HeaderRead(d, s, c, f)
    {
      HeaderKept(d, s, b, c, f);
    }
  }

  /** What dumping headers has come to: whether all is well, whether to give up, and the commands used. */
  datatype Headers = Headers(ok: bool, giveUp: bool, commands: nat)

  /** k more frames of method 8; a frame costs a second command only if its first succeeds. */
  ghost function FramesApart(d: D.Drive, k: nat, h: Headers): Headers {
    if k == 0 then h
    else
      var g := FramesApart(d, k - 1, h);
      var first := d.answer(g.commands);
      Headers(g.ok && first && d.answer(g.commands + 1), g.giveUp || !first, g.commands + if first then 2 else 1)
  }

  /** The first j blocks; after a failure the block is gone through to its end, and no other is begun. */
  ghost function BlocksApart(d: D.Drive, j: nat, n: nat): Headers {
    if j == 0 then Headers(true, false, n)
    else
      var g := BlocksApart(d, j - 1, n);
      if g.ok then FramesApart(d, 16, g) else g
  }

  lemma {:induction false} FramesApartGrow(d: D.Drive, k: nat, h: Headers)
    ensures h.commands <= FramesApart(d, k, h).commands
  {
    if k > 0 {
      FramesApartGrow(d, k - 1, h);
    }
  }

  lemma {:induction false} BlocksApartGrow(d: D.Drive, j: nat, n: nat)
    ensures n <= BlocksApart(d, j, n).commands
  {
    if j > 0 {
      BlocksApartGrow(d, j - 1, n);
      FramesApartGrow(d, 16, BlocksApart(d, j - 1, n));
    }
  }

  lemma {:induction false} FailureStays(d: D.Drive, j: nat, i: nat, n: nat)
    requires !BlocksApart(d, j, n).ok
    ensures BlocksApart(d, j + i, n) == BlocksApart(d, j, n)
  {
    if i > 0 {
      FailureStays(d, j, i - 1, n);
    }
  }

  lemma {:induction false} FramesApartMeans(d: D.Drive, k: nat, h: Headers)
    ensures FramesApart(d, k, h).ok <==> h.ok && forall i :: h.commands <= i < h.commands + 2 * k ==> d.answer(i)
    ensures FramesApart(d, k, h).ok ==> FramesApart(d, k, h).commands == h.commands + 2 * k
    ensures FramesApart(d, k, h).ok ==> FramesApart(d, k, h).giveUp == h.giveUp
    decreases k
  {
    if k > 0 {
      FramesApartMeans(d, k - 1, h);
    }
  }

  /** Method 8 succeeds exactly if the two commands of every frame do. */
  lemma {:induction false} BlocksApartMeans(d: D.Drive, j: nat, n: nat)
    ensures BlocksApart(d, j, n).ok <==> d.Answered(n, 32 * j) == 32 * j
    ensures BlocksApart(d, j, n).ok ==> BlocksApart(d, j, n) == Headers(true, false, n + 32 * j)
  {
    if j > 0 {
      BlocksApartMeans(d, j - 1, n);
      FramesApartMeans(d, 16, BlocksApart(d, j - 1, n));
    }
  }

  /** One frame of method 8: two dumps. */
  method HeaderApart(d: D.Drive, buf: array<byte>, f: nat) returns (ok: bool, giveUp: bool)
    requires (f + 1) * RAW_SECTOR <= buf.Length
    modifies d`commands, buf
    ensures var n := old(d.commands);
            && ok == (d.answer(n) && d.answer(n + 1)) && giveUp == !d.answer(n)
            && d.commands == n + if giveUp then 1 else 2
    ensures ok ==> HeaderRead(d, d.last, buf[..], f)
    ensures forall p :: 0 <= p < f * RAW_SECTOR || (f + 1) * RAW_SECTOR <= p < buf.Length ==> buf[p] == old(buf[p])
  {
    var sect := f * RAW_SECTOR;
    giveUp := false;
    ok := d.MemDump(sect, 12, buf, sect);
    if !ok {
      giveUp := true;
    } else {
      ghost var first := buf[sect..sect + 12];
      ok := d.MemDump(sect + 2060, 4, buf, sect + 2060);
      assert buf[sect..sect + 12] == first;
    }
  }

  /** Method 8: the first 12 and the last 4 bytes of every frame, dumped separately. */
  method HeadersApart(d: D.Drive, buf: array<byte>, sectorNo: nat, sectorsNo: nat) returns (ok: bool, giveUp: bool)
    requires buf.Length == 5 * RAW_BLOCK
    modifies d`commands, buf
    ensures Headers(ok, giveUp, d.commands) == BlocksApart(d, Blocks(sectorNo, sectorsNo), old(d.commands))
    ensures ok ==> forall f :: 0 <= f < 16 * Blocks(sectorNo, sectorsNo) ==> HeaderRead(d, d.last, buf[..], f)
  {
    hide HeaderRead;
    ok, giveUp := true, false;
    var j := 0;
    while j < 5 && sectorNo + j * 16 < sectorsNo && ok
      invariant j <= Blocks(sectorNo, sectorsNo)
      invariant Headers(ok, giveUp, d.commands) == BlocksApart(d, j, old(d.commands))
      invariant ok ==> forall f :: 0 <= f < 16 * j ==> HeaderRead(d, d.last, buf[..], f)
    {
      ok, giveUp := BlockApart(d, buf, j, giveUp);
      j := j + 1;
    }
    if !ok {
      FailureStays(d, j, Blocks(sectorNo, sectorsNo) - j, old(d.commands));
    }
  }

  /** The frames of one block by method 8. */
  method BlockApart(d: D.Drive, buf: array<byte>, j: nat, giveUp0: bool) returns (ok: bool, giveUp: bool)
    requires buf.Length == 5 * RAW_BLOCK && j < 5
    requires forall f :: 0 <= f < 16 * j ==> HeaderRead(d, d.last, buf[..], f)
    modifies d`commands, buf
    ensures Headers(ok, giveUp, d.commands) == FramesApart(d, 16, Headers(true, giveUp0, old(d.commands)))
    ensures ok ==> forall f :: 0 <= f < 16 * (j + 1) ==> HeaderRead(d, d.last, buf[..], f)
  {
    hide HeaderRead;
    ok, giveUp := true, giveUp0;
    ghost var h := Headers(ok, giveUp, d.commands);
    for k := 0 to 16
      invariant Headers(ok, giveUp, d.commands) == FramesApart(d, k, h)
      invariant ok ==> forall f :: 0 <= f < 16 * j + k ==> HeaderRead(d, d.last, buf[..], f)
    {
      ghost var before := buf[..];
      var good, bad := HeaderApart(d, buf, 16 * j + k);
      giveUp := giveUp || bad;
      if ok && good {
        HeadersKept(d, d.last, before, buf[..], 16 * j + k);
      }
      ok := ok && good;
    }
  }

  /** The first f frames of method 9: one command for the first header and one for each frame, until one fails. */
  ghost function FramesCarried(d: D.Drive, f: nat, n: nat): Headers {
    if f == 0 then Headers(true, false, n)
    else
      var k := d.Answered(n, f + 1);
      Headers(k == f + 1, !d.answer(n), n + if k == f + 1 then f + 1 else k + 1)
  }

  lemma CarriedNext(d: D.Drive, f: nat, n: nat)
    ensures var g, h := FramesCarried(d, f, n), FramesCarried(d, f + 1, n);
            && (f > 0 && g.ok ==>
                  h == Headers(d.answer(g.commands), g.giveUp, g.commands + 1))
            && (f > 0 && !g.ok ==> h == g)
            && (f == 0 ==> g == Headers(true, false, n))
            && (f == 0 ==>
                  h == if d.answer(n) then Headers(d.answer(n + 1), false, n + 2) else Headers(false, true, n + 1))
  {
    d.AnsweredNext(n, f + 1);
    d.AnsweredNext(n, f);
  }

  lemma {:induction false} CarriedFailureStays(d: D.Drive, f: nat, i: nat, n: nat)
    requires !FramesCarried(d, f, n).ok
    ensures FramesCarried(d, f + i, n) == FramesCarried(d, f, n)
  {
    if i > 0 {
      CarriedFailureStays(d, f, i - 1, n);
      CarriedNext(d, f + i - 1, n);
    }
  }

  lemma RamTail(d: D.Drive, sect: nat)
    ensures sect >= 4 ==> d.Ram(d.last, sect - 4, 16)[4..] == d.Ram(d.last, sect, 12)
  {
  }

  /** One frame of method 9: one dump that also fetches the next header, the current one being at hand. */
  method HeaderCarried(d: D.Drive, buf: array<byte>, f: nat, tmp: array<byte>, ok0: bool)
    returns (ok: bool, giveUp: bool)
    requires (f + 1) * RAW_SECTOR <= buf.Length && tmp.Length == 16 && tmp != buf
    requires f == 0 ==> ok0
    requires ok0 && f > 0 ==> tmp[..] == d.Ram(d.last, (f - 1) * RAW_SECTOR + 2060, 16)
    modifies d`commands, buf, tmp
    ensures var n := old(d.commands);
            if f == 0 then
              && ok == (d.answer(n) && d.answer(n + 1)) && giveUp == !d.answer(n)
              && d.commands == n + if giveUp then 1 else 2
            else ok == (ok0 && d.answer(n)) && !giveUp && d.commands == n + if ok0 then 1 else 0
    ensures ok ==> ok0 && HeaderRead(d, d.last, buf[..], f) && tmp[..] == d.Ram(d.last, f * RAW_SECTOR + 2060, 16)
    ensures forall p :: 0 <= p < f * RAW_SECTOR || (f + 1) * RAW_SECTOR <= p < buf.Length ==> buf[p] == old(buf[p])
  {
    var sect := f * RAW_SECTOR;
    ok, giveUp := ok0, false;
    if f == 0 {
      var got := d.MemDump(sect, 12, buf, sect);
      if !got {
        ok, giveUp := false, true;
      }
    } else {
      forall i | 0 <= i < 12 {
        buf[sect + i] := tmp[4 + i];
      }
      RamTail(d, sect);
      assert buf[sect..sect + 12] == tmp[..][4..];
    }
    assert ok ==> buf[sect..sect + 12] == d.Ram(d.last, sect, 12);
    ghost var first := buf[sect..sect + 12];
    var dumped := true;
    if ok {
      dumped := d.MemDump(sect + 2060, 16, tmp, 0);
      assert dumped ==> tmp[..] == tmp[0..0 + 16];
    }
    if !dumped {
      ok := false;
    } else {
      forall i | 0 <= i < 4 {
        buf[sect + 2060 + i] := tmp[i];
      }
      assert ok ==> forall i :: 0 <= i < 4 ==> buf[sect + 2060 + i] == tmp[..][i];
    }
    assert buf[sect..sect + 12] == first;
  }

  /** Method 9: sixteen bytes at the end of every frame, the last twelve carried to the next frame. */
  method HeadersOverlapping(d: D.Drive, buf: array<byte>, sectorNo: nat, sectorsNo: nat)
    returns (ok: bool, giveUp: bool)
    requires buf.Length == 5 * RAW_BLOCK
    modifies d`commands, buf
    ensures Headers(ok, giveUp, d.commands) == FramesCarried(d, 16 * Blocks(sectorNo, sectorsNo), old(d.commands))
    ensures ok ==> forall f :: 0 <= f < 16 * Blocks(sectorNo, sectorsNo) ==> HeaderRead(d, d.last, buf[..], f)
  {
    hide HeaderRead, D.Drive.Ram;
    ok, giveUp := true, false;
    var tmp := new byte[16](i => 0);
    var j := 0;
    while j < 5 && sectorNo + j * 16 < sectorsNo && ok
      invariant j <= Blocks(sectorNo, sectorsNo)
      invariant Headers(ok, giveUp, d.commands) == FramesCarried(d, 16 * j, old(d.commands))
      invariant ok ==> forall f :: 0 <= f < 16 * j ==> HeaderRead(d, d.last, buf[..], f)
      invariant ok && j > 0 ==> tmp[..] == d.Ram(d.last, (16 * j - 1) * RAW_SECTOR + 2060, 16)
    {
      ok, giveUp := BlockCarried(d, buf, j, tmp, giveUp, old(d.commands));
      j := j + 1;
    }
    if !ok {
      CarriedFailureStays(d, 16 * j, 16 * Blocks(sectorNo, sectorsNo) - 16 * j, old(d.commands));
    }
  }

  /** The frames of one block by method 9. */
  method BlockCarried(d: D.Drive, buf: array<byte>, j: nat, tmp: array<byte>, giveUp0: bool, ghost n: nat)
    returns (ok: bool, giveUp: bool)
    requires buf.Length == 5 * RAW_BLOCK && j < 5 && tmp.Length == 16 && tmp != buf
    requires Headers(true, giveUp0, d.commands) == FramesCarried(d, 16 * j, n)
    requires forall f :: 0 <= f < 16 * j ==> HeaderRead(d, d.last, buf[..], f)
    requires j > 0 ==> tmp[..] == d.Ram(d.last, (16 * j - 1) * RAW_SECTOR + 2060, 16)
    modifies d`commands, buf, tmp
    ensures Headers(ok, giveUp, d.commands) == FramesCarried(d, 16 * (j + 1), n)
    ensures ok ==> forall f :: 0 <= f < 16 * (j + 1) ==> HeaderRead(d, d.last, buf[..], f)
    ensures ok ==> tmp[..] == d.Ram(d.last, (16 * (j + 1) - 1) * RAW_SECTOR + 2060, 16)
  {
    hide HeaderRead, FramesCarried, D.Drive.Ram;
    ok, giveUp := true, giveUp0;
    for k := 0 to 16
      invariant Headers(ok, giveUp, d.commands) == FramesCarried(d, 16 * j + k, n)
      invariant 16 * j + k == 0 ==> ok
      invariant ok ==> forall f :: 0 <= f < 16 * j + k ==> HeaderRead(d, d.last, buf[..], f)
      invariant ok && 16 * j + k > 0 ==> tmp[..] == d.Ram(d.last, (16 * j + k - 1) * RAW_SECTOR + 2060, 16)
    {
      ghost var before := buf[..];
      var was := ok;
      var bad: bool;
      ok, bad := HeaderCarried(d, buf, 16 * j + k, tmp, was);
      CarriedNext(d, 16 * j + k, n);
      giveUp := giveUp || bad;
      if ok {
        HeadersKept(d, d.last, before, buf[..], 16 * j + k);
      }
    }
  }

  // ---------- user data ----------

  /** Block j as its headers in memory s and its user data from the read of sector t make it. */
  ghost function Rebuilt(d: D.Drive, s: nat, t: nat, j: nat): RawBlock {
    seq(RAW_BLOCK, p requires 0 <= p < RAW_BLOCK =>
      if 12 <= p % RAW_SECTOR < 2060 then d.transfer(t, p / RAW_SECTOR * SECTOR + (p % RAW_SECTOR - 12))
      else d.memory(s, j * RAW_BLOCK + p))
  }

  /** The first n blocks of a read of sector s. */
  ghost function RebuiltAll(d: D.Drive, s: nat, n: nat): (r: seq<byte>)
    ensures |r| == n * RAW_BLOCK
  {
    if n == 0 then [] else RebuiltAll(d, s, n - 1) + Rebuilt(d, s, s + (n - 1) * 16, n - 1)
  }

  lemma RebuiltAt(d: D.Drive, s: nat, t: nat, j: nat, k: nat, o: nat)
    requires k < 16 && o < RAW_SECTOR
    ensures Rebuilt(d, s, t, j)[k * RAW_SECTOR + o]
         == if 12 <= o < 2060 then d.transfer(t, k * SECTOR + (o - 12)) else d.memory(s, (16 * j + k) * RAW_SECTOR + o)
  {
    var p := k * RAW_SECTOR + o;
    assert p / RAW_SECTOR == k && p % RAW_SECTOR == o;
    assert j * RAW_BLOCK + p == (16 * j + k) * RAW_SECTOR + o;
  }

  lemma HeaderBytes(d: D.Drive, s: nat, b: seq<byte>, f: nat, o: nat)
    requires (f + 1) * RAW_SECTOR <= |b| && HeaderRead(d, s, b, f) && (o < 12 || 2060 <= o < RAW_SECTOR)
    ensures b[f * RAW_SECTOR + o] == d.memory(s, f * RAW_SECTOR + o)
  {
    if o < 12 {
      assert b[f * RAW_SECTOR..f * RAW_SECTOR + 12][o] == d.Ram(s, f * RAW_SECTOR, 12)[o];
    } else {
      assert b[f * RAW_SECTOR + 2060..(f + 1) * RAW_SECTOR][o - 2060] == d.Ram(s, f * RAW_SECTOR + 2060, 4)[o - 2060];
    }
  }

  /** The copies of the user data between the headers of block j. */
  method FillUserData(d: D.Drive, buf: array<byte>, j: nat, readbuf: array<byte>, ghost s: nat, ghost t: nat)
    requires buf.Length == 5 * RAW_BLOCK && readbuf.Length == USER_BLOCK && readbuf != buf && j < 5
    requires readbuf[..] == d.User(t, USER_BLOCK)
    requires forall f :: 16 * j <= f < 16 * (j + 1) ==> HeaderRead(d, s, buf[..], f)
    modifies buf
    ensures buf[j * RAW_BLOCK..(j + 1) * RAW_BLOCK] == Rebuilt(d, s, t, j)
    ensures forall p :: 0 <= p < j * RAW_BLOCK || (j + 1) * RAW_BLOCK <= p < buf.Length ==> buf[p] == old(buf[p])
  {
    hide Rebuilt, HeaderRead;
    ghost var was := buf[..];
    ghost var goal := Rebuilt(d, s, t, j);
    for k := 0 to 16
      invariant forall p :: 0 <= p < k * RAW_SECTOR ==> buf[j * RAW_BLOCK + p] == goal[p]
      invariant forall p :: 0 <= p < j * RAW_BLOCK || j * RAW_BLOCK + k * RAW_SECTOR <= p < buf.Length ==>
                  buf[p] == was[p]
    {
      FillFrame(d, buf, j, k, readbuf, s, t, was);
    }
  }

  method FillFrame(d: D.Drive, buf: array<byte>, j: nat, k: nat, readbuf: array<byte>, ghost s: nat, ghost t: nat,
          ghost was: seq<byte>)
    requires buf.Length == 5 * RAW_BLOCK == |was| && readbuf.Length == USER_BLOCK && readbuf != buf && j < 5 && k < 16
    requires readbuf[..] == d.User(t, USER_BLOCK)
    requires HeaderRead(d, s, was, 16 * j + k)
    requires forall p :: (16 * j + k) * RAW_SECTOR <= p < (16 * j + k + 1) * RAW_SECTOR ==> buf[p] == was[p]
    modifies buf
    ensures forall o :: k * RAW_SECTOR <= o < (k + 1) * RAW_SECTOR ==> buf[j * RAW_BLOCK + o] == Rebuilt(d, s, t, j)[o]
    ensures forall p :: 0 <= p < (16 * j + k) * RAW_SECTOR || (16 * j + k + 1) * RAW_SECTOR <= p < buf.Length ==>
              buf[p] == old(buf[p])
  {
    hide Rebuilt, HeaderRead;
    var sect := j * RAW_BLOCK + k * RAW_SECTOR;
    forall i | 0 <= i < SECTOR {
      buf[sect + 12 + i] := readbuf[k * SECTOR + i];
    }
    forall p | k * RAW_SECTOR <= p < (k + 1) * RAW_SECTOR
      ensures buf[j * RAW_BLOCK + p] == Rebuilt(d, s, t, j)[p]
    {
      var o := p - k * RAW_SECTOR;
      RebuiltAt(d, s, t, j, k, o);
      if 12 <= o < 2060 {
        assert buf[sect + 12 + (o - 12)] == readbuf[..][k * SECTOR + (o - 12)];
      } else {
        HeaderBytes(d, s, was, 16 * j + k, o);
        assert buf[sect + o] == was[(16 * j + k) * RAW_SECTOR + o];
      }
    }
  }
}
