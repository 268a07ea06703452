/** When a read succeeds: its outcome, and the commands it takes, as the drive and the unscrambler answer. */
module Attempts {
  import opened Bytes
  import opened Geometry
  import opened Reads
  import opened Faithful
  import opened Wrappers
  import D = Drive

  const MAX_READ_RETRIES: nat := 5

  /** Unscrambling of a raw block at a sector: it may fail, or rewrite raw bytes. The first number counts the trials. */
  type Unscrambler = (nat, nat, RawBlock) -> Option<Entry>

  /** What a read works with. */
  datatype Source = Source(drive: D.Drive, unscramble: Unscrambler, sectorsNo: nat)

  /** A read method and the plan of its streaming reads: sectors in a pass, passes, and the whole blocks they give. */
  datatype Setup = Setup(readMethod: nat, step: nat, passes: nat, blocks: nat)

  /** How a try ends, and the numbers of the next command and the next unscrambling. */
  datatype Attempt = Attempt(ok: bool, giveUp: bool, commands: nat, trials: nat)

  ghost function BlockAt(s: seq<byte>, k: nat): RawBlock
    requires (k + 1) * RAW_BLOCK <= |s|
  {
    s[k * RAW_BLOCK..(k + 1) * RAW_BLOCK]
  }

  ghost predicate Unscrambles(u: Unscrambler, t: nat, sector: nat, raw: RawBlock) {
    u(t, sector, raw).Some?
  }

  // ---------- streaming reads ----------

  /** The commands before the read of a pass: one to seek away, one to flush. */
  function Prelude(m: nat): nat {
    (if m == 0 || m == 1 || m == 4 then 1 else 0) + if m == 0 || m == 2 || m == 5 then 1 else 0
  }

  /** One pass: the read, its chunks, and a header that names the sector. */
  ghost function Pass(d: D.Drive, sector: nat, s: Setup, n: nat): (a: Attempt)
    ensures n <= a.commands
  {
    var r := n + Prelude(s.readMethod);
    var k := d.Answered(r + 1, ChunkCount(s.step));
    if !d.answer(r) then Attempt(false, false, r + 1, 0)
    else if k < ChunkCount(s.step) then Attempt(false, false, r + k + 2, 0)
    else Attempt(d.HeaderRight(sector), false, r + k + 1, 0)
  }

  /** The passes of a read that succeed before one fails; none follows a failure. */
  datatype Passes = Passes(ok: bool, count: nat, commands: nat)

  ghost function FirstPasses(d: D.Drive, sector: nat, s: Setup, passes: nat, n: nat): (p: Passes)
    ensures n <= p.commands && p.count <= passes && (p.ok ==> p.count == passes)
  {
    if passes == 0 then Passes(true, 0, n)
    else
      var p := FirstPasses(d, sector, s, passes - 1, n);
      if !p.ok then p
      else
        var a := Pass(d, sector + (passes - 1) * s.step, s, p.commands);
        Passes(a.ok, if a.ok then passes else passes - 1, a.commands)
  }

  lemma {:induction false} NoPassFollows(d: D.Drive, sector: nat, s: Setup, passes: nat, more: nat, n: nat)
    requires !FirstPasses(d, sector, s, passes, n).ok
    ensures FirstPasses(d, sector, s, passes + more, n) == FirstPasses(d, sector, s, passes, n)
  {
    if more > 0 {
      NoPassFollows(d, sector, s, passes, more - 1, n);
    }
  }

  /** All n blocks from the one numbered first on unscramble, the last block first. */
  ghost predicate Accepts(u: Unscrambler, t: nat, sector: nat, memory: seq<byte>, first: nat, n: nat)
    requires n * RAW_BLOCK <= |memory|
  {
    forall k :: first <= k < n ==> Unscrambles(u, t + (n - 1 - k), sector + 16 * k, BlockAt(memory, k))
  }

  lemma AcceptsNone(u: Unscrambler, t: nat, sector: nat, memory: seq<byte>, n: nat)
    requires n * RAW_BLOCK <= |memory|
    ensures Accepts(u, t, sector, memory, n, n)
  {
  }

  lemma AcceptsFirst(u: Unscrambler, t: nat, sector: nat, memory: seq<byte>, first: nat, n: nat)
    requires first < n && n * RAW_BLOCK <= |memory|
    ensures Accepts(u, t, sector, memory, first, n) <==>
              Accepts(u, t, sector, memory, first + 1, n)
              && Unscrambles(u, t + (n - 1 - first), sector + 16 * first, BlockAt(memory, first))
  {
    var k := first;
    assert Accepts(u, t, sector, memory, first, n) ==>
             Unscrambles(u, t + (n - 1 - k), sector + 16 * k, BlockAt(memory, k));
  }

  /** Only the blocks themselves matter. */
  lemma AcceptsPrefix(u: Unscrambler, t: nat, sector: nat, all: seq<byte>, memory: seq<byte>, n: nat)
    requires n * RAW_BLOCK <= |memory| <= |all| && memory == all[..|memory|]
    ensures Accepts(u, t, sector, memory, 0, n) <==> Accepts(u, t, sector, all, 0, n)
  {
    forall k | 0 <= k < n
      ensures BlockAt(memory, k) == BlockAt(all, k)
    {
    }
  }

  /** One of the first three tries. Unscrambling is tried even if only the last pass failed. */
  ghost function Streaming(x: Source, sector: nat, s: Setup, n: nat, t: nat): (a: Attempt)
    ensures n <= a.commands && t <= a.trials
  {
    var p := FirstPasses(x.drive, sector, s, s.passes, n);
    if p.count + 1 < s.passes then Attempt(false, false, p.commands, t)
    else
      var memory := PassBytes(x.drive, sector, s.step, s.passes);
      var good := s.blocks * RAW_BLOCK <= |memory| && Accepts(x.unscramble, t, sector, memory, 0, s.blocks);
      Attempt(p.ok && good, false, p.commands, t + s.blocks)
  }

  /** The fourth and fifth tries: two commands whose outcome does not matter, the read, and one dump. */
  ghost function Simple(x: Source, sector: nat, n: nat, t: nat): (a: Attempt)
    ensures n <= a.commands && t <= a.trials
  {
    if !x.drive.answer(n + 2) then Attempt(false, false, n + 3, t)
    else if !x.drive.answer(n + 3) || !x.drive.HeaderRight(sector) then Attempt(false, false, n + 4, t)
    else Attempt(Unscrambles(x.unscramble, t, sector, x.drive.Ram(sector, 0, RAW_BLOCK)), false, n + 4, t + 1)
  }

  /** The tries of methods 0 to 6 from number retry on. */
  ghost function Generic(x: Source, sector: nat, s: Setup, retry: nat, n: nat, t: nat): (a: Attempt)
    ensures n <= a.commands && t <= a.trials
    decreases MAX_READ_RETRIES - retry
  {
    if retry >= MAX_READ_RETRIES then Attempt(false, false, n, t)
    else
      var a := if retry < 3 then Streaming(x, sector, s, n, t) else Simple(x, sector, n, t);
      if a.ok then a else Generic(x, sector, s, retry + 1, a.commands, a.trials)
  }

  // ---------- Hitachi reads ----------

  /** The first j blocks of method 7, each dumped and unscrambled. */
  ghost function Dumped(x: Source, sector: nat, j: nat, n: nat, t: nat): (a: Attempt)
    ensures n <= a.commands && t <= a.trials
  {
    if j == 0 then Attempt(true, false, n, t)
    else
      var a := Dumped(x, sector, j - 1, n, t);
      if !a.ok then a
      else if !x.drive.answer(a.commands) then Attempt(false, true, a.commands + 1, a.trials)
      else
        var block := x.drive.Ram(sector, (j - 1) * RAW_BLOCK, RAW_BLOCK);
        var good := Unscrambles(x.unscramble, a.trials, sector + 16 * (j - 1), block);
        Attempt(good, false, a.commands + 1, a.trials + 1)
  }

  lemma {:induction false} NoDumpFollows(x: Source, sector: nat, j: nat, more: nat, n: nat, t: nat)
    requires !Dumped(x, sector, j, n, t).ok
    ensures Dumped(x, sector, j + more, n, t) == Dumped(x, sector, j, n, t)
  {
    if more > 0 {
      NoDumpFollows(x, sector, j, more - 1, n, t);
    }
  }

  /** The first j blocks of methods 8 and 9 once the headers are there; every block but the first is read for itself. */
  ghost function Filled(x: Source, sector: nat, j: nat, n: nat, t: nat): (a: Attempt)
    ensures n <= a.commands && t <= a.trials
  {
    if j == 0 then Attempt(true, false, n, t)
    else
      var a := Filled(x, sector, j - 1, n, t);
      if !a.ok then a
      else if j > 1 && !x.drive.answer(a.commands) then Attempt(false, false, a.commands + 1, a.trials)
      else
        var start := sector + (j - 1) * 16;
        var good := Unscrambles(x.unscramble, a.trials, start, Rebuilt(x.drive, sector, start, j - 1));
        Attempt(good, false, a.commands + if j > 1 then 1 else 0, a.trials + 1)
  }

  lemma {:induction false} NoFillFollows(x: Source, sector: nat, j: nat, more: nat, n: nat, t: nat)
    requires !Filled(x, sector, j, n, t).ok
    ensures Filled(x, sector, j + more, n, t) == Filled(x, sector, j, n, t)
  {
    if more > 0 {
      NoFillFollows(x, sector, j, more - 1, n, t);
    }
  }

  ghost function Headers89(x: Source, sector: nat, m: nat, n: nat): (h: Headers)
    ensures n <= h.commands
  {
    var blocks := Blocks(sector, x.sectorsNo);
    if m == 9 then FramesCarried(x.drive, 16 * blocks, n)
    else
      BlocksApartGrow(x.drive, blocks, n);
      BlocksApart(x.drive, blocks, n)
  }

  /** One try of methods 7, 8 and 9; a retry seeks away first, and methods 8 and 9 read elsewhere first. */
  ghost function Hitachi(x: Source, sector: nat, m: nat, away: bool, n: nat, t: nat): (a: Attempt)
    ensures n <= a.commands && t <= a.trials
  {
    var r := n + (if away then 1 else 0) + if m == 7 then 0 else 1;
    if !x.drive.answer(r) then Attempt(false, false, r + 1, t)
    else if m == 7 then Dumped(x, sector, Blocks(sector, x.sectorsNo), r + 1, t)
    else
      var h := Headers89(x, sector, m, r + 1);
      if !h.ok then Attempt(false, h.giveUp, h.commands, t)
      else Filled(x, sector, Blocks(sector, x.sectorsNo), h.commands, t)
  }

  /** The tries of methods 7 to 9 from number retry on. */
  ghost function HitachiTries(x: Source, sector: nat, m: nat, retry: nat, n: nat, t: nat): (a: Attempt)
    ensures n <= a.commands && t <= a.trials
    decreases MAX_READ_RETRIES - retry
  {
    if retry >= MAX_READ_RETRIES then Attempt(false, false, n, t)
    else
      var a := Hitachi(x, sector, m, retry > 0, n, t);
      if a.ok || a.giveUp then a else HitachiTries(x, sector, m, retry + 1, a.commands, a.trials)
  }

  /** A read of a sector that is not in the cache. */
  ghost function Reading(x: Source, sector: nat, s: Setup, n: nat, t: nat): (a: Attempt)
    ensures n <= a.commands && t <= a.trials
  {
    if s.readMethod <= 6 then Generic(x, sector, s, 0, n, t) else HitachiTries(x, sector, s.readMethod, 0, n, t)
  }

  // ---------- reads past the end ----------

  /** The read command of a try of methods 7 to 9, all tries before having failed at theirs. */
  function ReadCommand(m: nat, retry: nat, n: nat): nat {
    if m == 7 then n + 2 * retry else n + 1 + 3 * retry
  }

  /** Past the end of the disc methods 7 to 9 have no block to read, and succeed if any of their read commands does. */
  lemma PastEnd(x: Source, sector: nat, m: nat, n: nat, t: nat)
    requires 7 <= m <= 9 && sector >= x.sectorsNo
    ensures HitachiTries(x, sector, m, 0, n, t).ok <==>
              exists k :: 0 <= k < MAX_READ_RETRIES && x.drive.answer(ReadCommand(m, k, n))
  {
    PastEndFrom(x, sector, m, 0, n, t);
  }

  lemma {:induction false} PastEndFrom(x: Source, sector: nat, m: nat, retry: nat, n: nat, t: nat)
    requires 7 <= m <= 9 && sector >= x.sectorsNo && retry <= MAX_READ_RETRIES
    ensures var now := if retry == 0 then n else ReadCommand(m, retry - 1, n) + 1;
            HitachiTries(x, sector, m, retry, now, t).ok <==>
              exists k :: retry <= k < MAX_READ_RETRIES && x.drive.answer(ReadCommand(m, k, n))
    decreases MAX_READ_RETRIES - retry
  {
    hide Hitachi;
    if retry < MAX_READ_RETRIES {
      var now := if retry == 0 then n else ReadCommand(m, retry - 1, n) + 1;
      PastEndTry(x, sector, m, retry > 0, now, t);
      if !x.drive.answer(ReadCommand(m, retry, n)) {
        PastEndFrom(x, sector, m, retry + 1, n, t);
      }
    }
  }

  lemma PastEndTry(x: Source, sector: nat, m: nat, away: bool, n: nat, t: nat)
    requires 7 <= m <= 9 && sector >= x.sectorsNo
    ensures var r := n + (if away then 1 else 0) + if m == 7 then 0 else 1;
            if x.drive.answer(r) then Hitachi(x, sector, m, away, n, t).ok
            else Hitachi(x, sector, m, away, n, t) == Attempt(false, false, r + 1, t)
  {
  }

  // ---------- a working drive ----------

  /**
   * From command n and trial t on all commands succeed, the drive follows the disc as far as method m needs it for one
   * read, methods 0 to 6 find the right headers, and the blocks of the disc unscramble.
   */
  ghost predicate Working(x: Source, m: nat, surface: Surface, n: nat, t: nat) {
    && Follows(x.drive, surface, m, 16, EndOf(x.sectorsNo))
    && (forall k :: n <= k ==> x.drive.answer(k))
    && (m <= 6 ==> forall b: nat :: 16 * b < x.sectorsNo ==> x.drive.HeaderRight(16 * b))
    && (forall b: nat, k: nat :: 16 * b < x.sectorsNo && t <= k ==>
         Unscrambles(x.unscramble, k, 16 * b, Frames(surface, 16 * b, 16)))
  }

  lemma StillWorking(x: Source, m: nat, surface: Surface, n: nat, t: nat, n': nat, t': nat)
    requires Working(x, m, surface, n, t) && n <= n' && t <= t'
    ensures Working(x, m, surface, n', t')
  {
  }

  lemma SimpleWorks(x: Source, m: nat, surface: Surface, sector: nat, n: nat, t: nat)
    requires Working(x, m, surface, n, t) && m <= 6 && sector % 16 == 0 && sector < x.sectorsNo
    ensures Simple(x, sector, n, t).ok
  {
    hide Holds, HandsOver;
    var end := EndOf(x.sectorsNo);
    BlockBeforeEnd(x.sectorsNo, sector / 16);
    RamIsFrames(x.drive, surface, 16, end, sector, 16);
    assert sector == 16 * (sector / 16);
  }

  /** If no streaming try succeeds, the first simple one does. */
  lemma {:induction false} GenericWorks(x: Source, surface: Surface, sector: nat, s: Setup, retry: nat, n: nat, t: nat)
    requires Working(x, s.readMethod, surface, n, t) && s.readMethod <= 6 && retry <= 3
    requires sector % 16 == 0 && sector < x.sectorsNo
    ensures Generic(x, sector, s, retry, n, t).ok
    decreases MAX_READ_RETRIES - retry
  {
    hide Working, Streaming, Simple;
    if retry == 3 {
      SimpleWorks(x, s.readMethod, surface, sector, n, t);
    } else {
      var a := Streaming(x, sector, s, n, t);
      if !a.ok {
        StillWorking(x, s.readMethod, surface, n, t, a.commands, a.trials);
        GenericWorks(x, surface, sector, s, retry + 1, a.commands, a.trials);
      }
    }
  }

  lemma RamBlock(d: D.Drive, surface: Surface, end: nat, s: nat, j: nat)
    requires Holds(d, surface, 80, end) && j < 5 && s + 16 * (j + 1) <= end
    ensures d.Ram(s, j * RAW_BLOCK, RAW_BLOCK) == Frames(surface, s + 16 * j, 16)
  {
    hide Holds, Frames;
    RamIsFrames(d, surface, 80, end, s, 16 * (j + 1));
    FramesSlice(surface, s, 16 * (j + 1), 16 * j, 16);
    var n := 16 * (j + 1) * RAW_SECTOR;
    assert d.Ram(s, 0, n)[j * RAW_BLOCK..(j + 1) * RAW_BLOCK] == d.Ram(s, j * RAW_BLOCK, RAW_BLOCK);
  }

  /** A block of the disc unscrambles. */
  lemma BlockWorks(x: Source, m: nat, surface: Surface, n: nat, t: nat, b: nat, k: nat)
    requires Working(x, m, surface, n, t) && 16 * b < x.sectorsNo && t <= k
    ensures Unscrambles(x.unscramble, k, 16 * b, Frames(surface, 16 * b, 16))
  {
  }

  lemma {:induction false} DumpedWorks(x: Source, surface: Surface, sector: nat, j: nat, n: nat, t: nat)
    requires Working(x, 7, surface, n, t) && sector % 16 == 0 && j <= Blocks(sector, x.sectorsNo)
    ensures Dumped(x, sector, j, n, t).ok
  {
    hide Holds, HandsOver, Frames;
    if j > 0 {
      DumpedWorks(x, surface, sector, j - 1, n, t);
      BlockBeforeEnd(x.sectorsNo, sector / 16 + (j - 1));
      RamBlock(x.drive, surface, EndOf(x.sectorsNo), sector, j - 1);
      BlockWorks(x, 7, surface, n, t, sector / 16 + (j - 1), Dumped(x, sector, j - 1, n, t).trials);
    }
  }

  lemma {:induction false} FilledWorks(x: Source, m: nat, surface: Surface, sector: nat, j: nat, n: nat, t: nat)
    requires Working(x, m, surface, n, t) && 8 <= m && sector % 16 == 0 && j <= Blocks(sector, x.sectorsNo)
    ensures Filled(x, sector, j, n, t).ok
  {
    hide Holds, HandsOver, Frames;
    if j > 0 {
      FilledWorks(x, m, surface, sector, j - 1, n, t);
      BlockBeforeEnd(x.sectorsNo, sector / 16 + (j - 1));
      RebuiltIsFrames(x.drive, surface, EndOf(x.sectorsNo), sector, j - 1);
      BlockWorks(x, m, surface, n, t, sector / 16 + (j - 1), Filled(x, sector, j - 1, n, t).trials);
    }
  }

  lemma HeadersWork(x: Source, sector: nat, m: nat, n: nat)
    requires forall k :: n <= k ==> x.drive.answer(k)
    ensures Headers89(x, sector, m, n).ok
  {
    BlocksApartMeans(x.drive, Blocks(sector, x.sectorsNo), n);
  }

  lemma HitachiWorks(x: Source, surface: Surface, sector: nat, m: nat, n: nat, t: nat)
    requires Working(x, m, surface, n, t) && 7 <= m && sector % 16 == 0
    ensures Hitachi(x, sector, m, false, n, t).ok
  {
    hide Holds, HandsOver, Frames, Headers89, Dumped, Filled;
    var r := n + if m == 7 then 0 else 1;
    StillWorking(x, m, surface, n, t, r + 1, t);
    if m == 7 {
      DumpedWorks(x, surface, sector, Blocks(sector, x.sectorsNo), r + 1, t);
    } else {
      HeadersWork(x, sector, m, r + 1);
      var h := Headers89(x, sector, m, r + 1);
      StillWorking(x, m, surface, n, t, h.commands, t);
      FilledWorks(x, m, surface, sector, Blocks(sector, x.sectorsNo), h.commands, t);
    }
  }

  /** By whatever method, a read at a block boundary of the disc succeeds if the drive works. */
  lemma ReadsWork(x: Source, surface: Surface, sector: nat, s: Setup, n: nat, t: nat)
    requires Working(x, s.readMethod, surface, n, t) && sector % 16 == 0 && sector < x.sectorsNo
    ensures Reading(x, sector, s, n, t).ok
  {
    hide Working, Hitachi, Generic;
    if s.readMethod <= 6 {
      GenericWorks(x, surface, sector, s, 0, n, t);
    } else {
      HitachiWorks(x, surface, sector, s.readMethod, n, t);
    }
  }
}
