/** The disc: cached reads of 16-sector blocks. */
module Disc {
  import opened Bytes
  import opened Words
  import opened Geometry
  import opened Cache
  import opened Attempts
  import opened ReadPlan
  import opened Reads
  import opened Faithful
  import opened Slices
  import opened Wrappers
  import D = Drive

  /** The size of the global read buffers, 4 MiB. */
  const BUFFER: nat := 0x40_0000

  /** What a block looks like once cached: its raw form carries the unscrambled data. */
  function Cached(kind: DiscType, e: Entry): Entry {
    Entry(e.data, Patched(kind, e))
  }

  lemma PatchedAt(kind: DiscType, e: Entry, k: nat, o: nat)
    requires k < SECTORS_PER_BLOCK && o < RAW_SECTOR
    ensures Patched(kind, e)[k * RAW_SECTOR + o]
         == if DataAt(kind) <= o < DataAt(kind) + SECTOR then e.data[k * SECTOR + (o - DataAt(kind))]
            else e.raw[k * RAW_SECTOR + o]
  {
    var p := k * RAW_SECTOR + o;
    assert p / RAW_SECTOR == k && p % RAW_SECTOR == o;
  }

  /** The blocks from start on are now cached, nothing else has changed. */
  ghost predicate Extends(was: map<nat, Entry>, now: map<nat, Entry>, kind: DiscType, start: nat, es: seq<Entry>) {
    && (forall b :: start <= b < start + |es| ==> b in now && now[b] == Cached(kind, es[b - start]))
    && (forall b :: 0 <= b < start || start + |es| <= b ==> (b in now <==> b in was) && (b in was ==> now[b] == was[b]))
  }

  lemma ExtendsFront(was: map<nat, Entry>, mid: map<nat, Entry>, kind: DiscType, start: nat, e: Entry, es: seq<Entry>)
    requires Extends(was, mid, kind, start + 1, es)
    ensures Extends(was, mid[start := Cached(kind, e)], kind, start, [e] + es)
  {
    hide Patched;
  }

  lemma ExtendsBack(was: map<nat, Entry>, mid: map<nat, Entry>, kind: DiscType, start: nat, e: Entry, es: seq<Entry>)
    requires Extends(was, mid, kind, start, es)
    ensures Extends(was, mid[start + |es| := Cached(kind, e)], kind, start, es + [e])
  {
    hide Patched;
  }

  lemma ExtendsNothing(was: map<nat, Entry>, kind: DiscType, start: nat)
    ensures Extends(was, was, kind, start, [])
  {
  }

  ghost function UserBlockAt(s: seq<byte>, k: nat): UserBlock
    requires (k + 1) * USER_BLOCK <= |s|
  {
    s[k * USER_BLOCK..(k + 1) * USER_BLOCK]
  }

  /** Block k of the two buffers is that entry. */
  ghost predicate Buffered(raw: seq<byte>, data: seq<byte>, k: nat, e: Entry)
    requires (k + 1) * RAW_BLOCK <= |raw| && (k + 1) * USER_BLOCK <= |data|
  {
    e.raw == BlockAt(raw, k) && e.data == UserBlockAt(data, k)
  }

  /** So are the blocks from first on. */
  ghost predicate AllBuffered(raw: seq<byte>, data: seq<byte>, first: nat, es: seq<Entry>)
    requires (first + |es|) * RAW_BLOCK <= |raw| && (first + |es|) * USER_BLOCK <= |data|
  {
    forall i :: 0 <= i < |es| ==> Buffered(raw, data, first + i, es[i])
  }

  lemma NothingBuffered(raw: seq<byte>, data: seq<byte>, first: nat)
    requires first * RAW_BLOCK <= |raw| && first * USER_BLOCK <= |data|
    ensures AllBuffered(raw, data, first, [])
  {
  }

  lemma StillBuffered(raw: seq<byte>, data: seq<byte>, raw': seq<byte>, data': seq<byte>, first: nat, es: seq<Entry>)
    requires |raw| == |raw'| && |data| == |data'|
    requires (first + |es|) * RAW_BLOCK <= |raw| && (first + |es|) * USER_BLOCK <= |data|
    requires AllBuffered(raw, data, first, es)
    requires forall p :: first * RAW_BLOCK <= p < (first + |es|) * RAW_BLOCK ==> raw'[p] == raw[p]
    requires forall p :: first * USER_BLOCK <= p < (first + |es|) * USER_BLOCK ==> data'[p] == data[p]
    ensures AllBuffered(raw', data', first, es)
  {
    forall i | 0 <= i < |es|
      ensures Buffered(raw', data', first + i, es[i])
    {
      var k := first + i;
      assert Buffered(raw, data, k, es[i]);
      SameSlice(raw, raw', k * RAW_BLOCK, RAW_BLOCK);
      SameSlice(data, data', k * USER_BLOCK, USER_BLOCK);
    }
  }

  lemma PrependedBuffer(raw: seq<byte>, data: seq<byte>, first: nat, e: Entry, later: seq<Entry>)
    requires (first + 1 + |later|) * RAW_BLOCK <= |raw| && (first + 1 + |later|) * USER_BLOCK <= |data|
    requires AllBuffered(raw, data, first + 1, later) && Buffered(raw, data, first, e)
    ensures AllBuffered(raw, data, first, [e] + later)
  {
    hide Buffered;
    var es := [e] + later;
    forall i | 0 <= i < |es|
      ensures Buffered(raw, data, first + i, es[i])
    {
      if i > 0 {
        assert es[i] == later[i - 1];
        assert first + i == first + 1 + (i - 1);
      }
    }
  }

  lemma AppendedBuffer(raw: seq<byte>, data: seq<byte>, e: Entry, es: seq<Entry>)
    requires (|es| + 1) * RAW_BLOCK <= |raw| && (|es| + 1) * USER_BLOCK <= |data|
    requires AllBuffered(raw, data, 0, es) && e.raw == BlockAt(raw, |es|) && e.data == UserBlockAt(data, |es|)
    ensures AllBuffered(raw, data, 0, es + [e])
  {
    hide Buffered;
    var fs := es + [e];
    assert Buffered(raw, data, |es|, e) by {
      Buffers(raw, data, |es|, e);
    }
    forall i | 0 <= i < |fs|
      ensures Buffered(raw, data, 0 + i, fs[i])
    {
      if i < |es| {
        assert Buffered(raw, data, 0 + i, es[i]);
      }
    }
  }

  lemma Buffers(raw: seq<byte>, data: seq<byte>, k: nat, e: Entry)
    requires (k + 1) * RAW_BLOCK <= |raw| && (k + 1) * USER_BLOCK <= |data|
    requires e.raw == BlockAt(raw, k) && e.data == UserBlockAt(data, k)
    ensures Buffered(raw, data, k, e)
  {
  }

  lemma FirstBuffered(raw: seq<byte>, data: seq<byte>, first: nat, es: seq<Entry>)
    requires (first + |es|) * RAW_BLOCK <= |raw| && (first + |es|) * USER_BLOCK <= |data|
    requires AllBuffered(raw, data, first, es) && es != []
    ensures Buffered(raw, data, first, es[0]) && AllBuffered(raw, data, first + 1, es[1..])
    ensures es[0].raw == raw[first * RAW_BLOCK..first * RAW_BLOCK + RAW_BLOCK]
    ensures es[0].data == data[first * USER_BLOCK..first * USER_BLOCK + USER_BLOCK]
  {
    assert Buffered(raw, data, first + 0, es[0]);
    assert first * RAW_BLOCK + RAW_BLOCK == (first + 1) * RAW_BLOCK;
    assert first * USER_BLOCK + USER_BLOCK == (first + 1) * USER_BLOCK;
    var later := es[1..];
    forall i | 0 <= i < |later|
      ensures Buffered(raw, data, first + 1 + i, later[i])
    {
      assert Buffered(raw, data, first + (i + 1), es[i + 1]);
    }
  }

  lemma LastBuffered(raw: seq<byte>, data: seq<byte>, first: nat, es: seq<Entry>)
    requires (first + |es|) * RAW_BLOCK <= |raw| && (first + |es|) * USER_BLOCK <= |data|
    requires AllBuffered(raw, data, first, es) && es != []
    ensures AllBuffered(raw, data, first, es[..|es| - 1])
    ensures var k, e := first + |es| - 1, es[|es| - 1];
            && e.raw == raw[k * RAW_BLOCK..k * RAW_BLOCK + RAW_BLOCK]
            && e.data == data[k * USER_BLOCK..k * USER_BLOCK + USER_BLOCK]
  {
    var k, e := first + |es| - 1, es[|es| - 1];
    assert Buffered(raw, data, first + (|es| - 1), e);
    assert k * RAW_BLOCK + RAW_BLOCK == (k + 1) * RAW_BLOCK && k * USER_BLOCK + USER_BLOCK == (k + 1) * USER_BLOCK;
  }

  /** What reading a sector gives: where it lies in the two caches, nothing, or a failed assertion. */
  datatype Outcome = Found(dataAt: nat, rawAt: nat) | Failed | Aborted

  class Disc {
    const drive: D.Drive
    const kind: DiscType
    const sectorsNo: nat
    const unscramble: Unscrambler
    var trials: nat
    var secDisc: word
    var secMem: word
    var maxCnt: word
    var maxBlk: word
    var readMethod: nat
    const cacheSize: nat
    const cache: array<byte>
    const rawCache: array<byte>
    const cacheMap: array<word>
    const buf: array<byte>
    const bufUnscrambled: array<byte>
    /** The block last cached under each number. */
    ghost var held: map<nat, Entry>

    ghost function Repr(): set<object> {
      {this, drive, cache, rawCache, cacheMap, buf, bufUnscrambled}
    }

    ghost predicate Allocated() {
      && cacheSize >= MINIMUM_SIZE && cache.Length == cacheSize * USER_BLOCK && rawCache.Length == cacheSize * RAW_BLOCK
      && cacheMap.Length == cacheSize && buf.Length == BUFFER == bufUnscrambled.Length
      && cache != rawCache && cache != buf && cache != bufUnscrambled && rawCache != buf && rawCache != bufUnscrambled
      && buf != bufUnscrambled && cacheMap as object !in {cache as object, rawCache, buf, bufUnscrambled}
    }

    ghost function Origin(): Source {
      Source(drive, unscramble, sectorsNo)
    }

    /** The plan, for a read method. */
    ghost function Settings(m: nat): Setup
      reads this`secMem, this`maxCnt, this`maxBlk
    {
      Setup(m, secMem, maxCnt + 1, maxBlk)
    }

    ghost function Mem(): Memory
      reads cache, rawCache, cacheMap
    {
      Memory(cacheSize, cache[..], rawCache[..], cacheMap[..])
    }

    /** The cache can be relied on from sector number from on. */
    ghost predicate Valid(from: nat)
      reads this, cache, rawCache, cacheMap
    {
      Allocated() && Intact(Mem(), held, from)
    }

    ghost predicate Present(block: nat)
      reads cacheMap
    {
      Allocated() && cacheMap[Slot(block, cacheSize)] == block
    }

    /** disc_cache_init: nothing is cached. */
    constructor (drive: D.Drive, kind: DiscType, sectorsNo: nat, unscramble: Unscrambler, size: nat)
      requires size >= MINIMUM_SIZE
      ensures Valid(0) && held == map[] && this.drive == drive && this.kind == kind && this.sectorsNo == sectorsNo
      ensures fresh(Repr() - {drive}) && cacheSize == size && this.unscramble == unscramble
    {
      this.drive, this.kind, this.sectorsNo, this.unscramble := drive, kind, sectorsNo, unscramble;
      trials := 0;
      secDisc, secMem, maxCnt, maxBlk, readMethod := 0, 0, 0, 0, 0;
      cacheSize := size;
      cache := new byte[size * USER_BLOCK](i => 0);
      rawCache := new byte[size * RAW_BLOCK](i => 0);
      cacheMap := new word[size](i => INVALID);
      buf := new byte[BUFFER](i => 0);
      bufUnscrambled := new byte[BUFFER](i => 0);
      held := map[];
    }

    // ---------- the cache ----------

    /** The copies of the user data into the raw block. */
    method PatchRaw(data: array<byte>, dataAt: nat, raw: array<byte>, rawAt: nat)
      requires dataAt + USER_BLOCK <= data.Length && rawAt + RAW_BLOCK <= raw.Length && data != raw
      modifies raw
      ensures raw[rawAt..rawAt + RAW_BLOCK]
           == Patched(kind, Entry(data[dataAt..dataAt + USER_BLOCK], old(raw[rawAt..rawAt + RAW_BLOCK])))
      ensures forall p :: 0 <= p < rawAt || rawAt + RAW_BLOCK <= p < raw.Length ==> raw[p] == old(raw[p])
    {
      hide Patched;
      ghost var e := Entry(data[dataAt..dataAt + USER_BLOCK], raw[rawAt..rawAt + RAW_BLOCK]);
      ghost var goal := Patched(kind, e);
      var skip := DataAt(kind);
      for cnt := 0 to SECTORS_PER_BLOCK
        invariant forall p :: 0 <= p < cnt * RAW_SECTOR ==> raw[rawAt + p] == goal[p]
        invariant forall p :: cnt * RAW_SECTOR <= p < RAW_BLOCK ==> raw[rawAt + p] == e.raw[p]
        invariant forall p :: 0 <= p < rawAt || rawAt + RAW_BLOCK <= p < raw.Length ==> raw[p] == old(raw[p])
      {
        PatchSector(data, dataAt, raw, rawAt, skip, cnt, e);
      }
    }

    method PatchSector(data: array<byte>, dataAt: nat, raw: array<byte>, rawAt: nat, skip: nat, cnt: nat,
            ghost e: Entry)
      requires dataAt + USER_BLOCK <= data.Length && rawAt + RAW_BLOCK <= raw.Length && data != raw
      requires cnt < SECTORS_PER_BLOCK && skip == DataAt(kind) && e.data == data[dataAt..dataAt + USER_BLOCK]
      requires forall o :: cnt * RAW_SECTOR <= o < (cnt + 1) * RAW_SECTOR ==> raw[rawAt + o] == e.raw[o]
      modifies raw
      ensures forall p :: cnt * RAW_SECTOR <= p < (cnt + 1) * RAW_SECTOR ==> raw[rawAt + p] == Patched(kind, e)[p]
      ensures forall p :: 0 <= p < rawAt + cnt * RAW_SECTOR || rawAt + (cnt + 1) * RAW_SECTOR <= p < raw.Length ==>
                raw[p] == old(raw[p])
    {
      hide Patched;
      forall i | 0 <= i < SECTOR {
        raw[rawAt + cnt * RAW_SECTOR + skip + i] := data[dataAt + cnt * SECTOR + i];
      }
      forall p | cnt * RAW_SECTOR <= p < (cnt + 1) * RAW_SECTOR
        ensures raw[rawAt + p] == Patched(kind, e)[p]
      {
        var o := p - cnt * RAW_SECTOR;
        PatchedAt(kind, e, cnt, o);
        if skip <= o < skip + SECTOR {
          assert raw[rawAt + cnt * RAW_SECTOR + skip + (o - skip)] == data[dataAt + cnt * SECTOR + (o - skip)];
        } else {
          assert raw[rawAt + p] == old(raw[rawAt + p]);
        }
      }
    }

    /** disc_cache_add_block. */
    method AddBlock(block: nat, data: array<byte>, dataAt: nat, raw: array<byte>, rawAt: nat, ghost from: nat)
      requires Valid(from) && block < INVALID && {data, raw} !! {cache, rawCache} && raw as object != cacheMap
      requires data != raw
      requires dataAt + USER_BLOCK <= data.Length && rawAt + RAW_BLOCK <= raw.Length
      modifies this`held, cache, rawCache, cacheMap, raw
      ensures Valid(from)
      ensures var e := Entry(data[dataAt..dataAt + USER_BLOCK], old(raw[rawAt..rawAt + RAW_BLOCK]));
              held == old(held)[block := Cached(kind, e)]
      ensures cacheMap[..] == old(cacheMap[..])[Slot(block, cacheSize) := block]
      ensures forall p :: 0 <= p < rawAt || rawAt + RAW_BLOCK <= p < raw.Length ==> raw[p] == old(raw[p])
    {
      hide Slot, Patched, Intact;
      ghost var m := Mem();
      ghost var e := Entry(data[dataAt..dataAt + USER_BLOCK], raw[rawAt..rawAt + RAW_BLOCK]);
      var pos := Slot(block, cacheSize);
      PatchRaw(data, dataAt, raw, rawAt);
      ghost var c := Cached(kind, e);
      FillSlot(pos, data, dataAt, raw, rawAt);
      cacheMap[pos] := block;
      held := held[block := c];
      MemShaped(m, old(held), from);
      AddKeepsIntact(m, Mem(), old(held), from, block, c);
    }

    /** The copies into a cache slot. */
    method FillSlot(pos: nat, data: array<byte>, dataAt: nat, raw: array<byte>, rawAt: nat)
      requires Allocated() && pos < cacheSize && {data, raw} !! {cache, rawCache}
      requires dataAt + USER_BLOCK <= data.Length && rawAt + RAW_BLOCK <= raw.Length
      modifies cache, rawCache
      ensures cache[pos * USER_BLOCK..(pos + 1) * USER_BLOCK] == data[dataAt..dataAt + USER_BLOCK]
      ensures rawCache[pos * RAW_BLOCK..(pos + 1) * RAW_BLOCK] == raw[rawAt..rawAt + RAW_BLOCK]
      ensures OthersKept(old(Mem()), Mem(), pos)
    {
      Copy(data, dataAt, cache, pos * USER_BLOCK, USER_BLOCK);
      Copy(raw, rawAt, rawCache, pos * RAW_BLOCK, RAW_BLOCK);
      assert pos * USER_BLOCK + USER_BLOCK == (pos + 1) * USER_BLOCK;
      assert pos * RAW_BLOCK + RAW_BLOCK == (pos + 1) * RAW_BLOCK;
    }

    /** memcpy. */
    method Copy(src: array<byte>, srcAt: nat, dst: array<byte>, dstAt: nat, n: nat)
      requires srcAt + n <= src.Length && dstAt + n <= dst.Length && src != dst
      modifies dst
      ensures dst[dstAt..dstAt + n] == src[srcAt..srcAt + n]
      ensures forall p :: 0 <= p < dstAt || dstAt + n <= p < dst.Length ==> dst[p] == old(dst[p])
    {
      forall i | 0 <= i < n {
        dst[dstAt + i] := src[srcAt + i];
      }
    }

    /** disc_cache_lookup_block: where in the two caches the block is. */
    method Lookup(block: nat) returns (hit: bool, dataAt: nat, rawAt: nat)
      requires Allocated()
      ensures hit <==> Present(block)
      ensures hit ==> dataAt == Slot(block, cacheSize) * USER_BLOCK && rawAt == Slot(block, cacheSize) * RAW_BLOCK
    {
      var pos := Slot(block, cacheSize);
      hit := cacheMap[pos] == block;
      dataAt, rawAt := 0, 0;
      if hit {
        dataAt, rawAt := pos * USER_BLOCK, pos * RAW_BLOCK;
      }
    }

    // ---------- the plan ----------

    /** The plan reads whole blocks into the buffers. */
    ghost predicate Planned()
      reads this`secMem, this`maxCnt, this`maxBlk, this`readMethod
    {
      16 <= secMem <= 100 && maxCnt <= 15 && maxBlk >= 1 && 16 * maxBlk <= secMem * (maxCnt + 1) && readMethod < 10
    }

    /** init_range. */
    method InitRange(disc: word, mem: word)
      modifies this`secDisc, this`secMem
      ensures secMem == DEFAULT_SECTORS || 16 <= secMem <= 100
      ensures 16 <= mem <= 100 ==> secMem == mem
    {
      secDisc := InRange(disc, 1);
      secMem := InRange(mem, 16);
    }

    /**
     * disc_set_read_method; a method outside 0 to 9 selects the drive's own, or method 0. Before init_range has run,
     * the amounts are 0, and the plan is to read no block.
     */
    method SetReadMethod(chosen: int, driveDefault: int)
      modifies this`readMethod, this`secDisc, this`secMem, this`maxCnt, this`maxBlk
      ensures readMethod == if 0 <= chosen <= 9 then chosen else if 0 <= driveDefault <= 9 then driveDefault else 0
      ensures secDisc == Chosen(old(secDisc), readMethod) && secMem == Chosen(old(secMem), readMethod)
      ensures maxCnt <= 15 && (maxCnt == 0 <==> secMem % 16 <= 3) && maxBlk == secMem * (maxCnt + 1) % WORD / 16
      ensures maxCnt > 0 ==> Stops(secMem % 16, maxCnt + 1) && forall n :: 2 <= n <= maxCnt ==> !Stops(secMem % 16, n)
      ensures 16 <= secMem <= 100 ==> Planned() && secMem * (maxCnt + 1) < 16 * maxBlk + 4
      ensures secMem == 0 ==> maxCnt == 0 == maxBlk
    {
      readMethod := if 0 <= chosen <= 9 then chosen else if 0 <= driveDefault <= 9 then driveDefault else 0;
      secDisc := Chosen(secDisc, readMethod);
      secMem := Chosen(secMem, readMethod);
      maxCnt, maxBlk := Plan(secMem);
      if secMem <= 100 {
        PlanWastesLittle(secMem, maxCnt, maxBlk);
      }
    }

    // ---------- unscrambling and caching runs of blocks ----------

    ghost predicate Unscrambled(sector: nat, raw: RawBlock, e: Entry) {
      exists t :: unscramble(t, sector, raw) == Some(e)
    }

    /** unscrambler_unscramble_16sectors. */
    method Unscramble16(sector: nat, raw: array<byte>, rawAt: nat, data: array<byte>, dataAt: nat) returns (ok: bool)
      requires raw != data && rawAt + RAW_BLOCK <= raw.Length && dataAt + USER_BLOCK <= data.Length
      modifies this`trials, raw, data
      ensures ok == Unscrambles(unscramble, old(trials), sector, old(raw[rawAt..rawAt + RAW_BLOCK]))
      ensures trials == old(trials) + 1
      ensures ok ==> Unscrambled(sector, old(raw[rawAt..rawAt + RAW_BLOCK]),
                                 Entry(data[dataAt..dataAt + USER_BLOCK], raw[rawAt..rawAt + RAW_BLOCK]))
      ensures forall p :: 0 <= p < rawAt || rawAt + RAW_BLOCK <= p < raw.Length ==> raw[p] == old(raw[p])
      ensures forall p :: 0 <= p < dataAt || dataAt + USER_BLOCK <= p < data.Length ==> data[p] == old(data[p])
    {
      var block: RawBlock := raw[rawAt..rawAt + RAW_BLOCK];
      var result := unscramble(trials, sector, block);
      ok := result.Some?;
      if ok {
        var e := result.value;
        forall i | 0 <= i < RAW_BLOCK {
          raw[rawAt + i] := e.raw[i];
        }
        forall i | 0 <= i < USER_BLOCK {
          data[dataAt + i] := e.data[i];
        }
        assert raw[rawAt..rawAt + RAW_BLOCK] == e.raw && data[dataAt..dataAt + USER_BLOCK] == e.data;
        assert unscramble(trials, sector, block) == Some(e);
      }
      trials := trials + 1;
    }

    /** The entries come from unscrambling the blocks of memory from first on. */
    ghost predicate AllUnscrambled(sectorNo: nat, first: nat, memory: seq<byte>, es: seq<Entry>)
      requires (first + |es|) * RAW_BLOCK <= |memory|
    {
      forall i :: 0 <= i < |es| ==> Unscrambled(sectorNo + 16 * (first + i), BlockAt(memory, first + i), es[i])
    }

    lemma Prepended(sectorNo: nat, first: nat, memory: seq<byte>, e: Entry, later: seq<Entry>)
      requires (first + 1 + |later|) * RAW_BLOCK <= |memory|
      requires AllUnscrambled(sectorNo, first + 1, memory, later)
      requires Unscrambled(sectorNo + 16 * first, BlockAt(memory, first), e)
      ensures AllUnscrambled(sectorNo, first, memory, [e] + later)
    {
      hide Unscrambled;
      var es := [e] + later;
      forall i | 0 <= i < |es|
        ensures Unscrambled(sectorNo + 16 * (first + i), BlockAt(memory, first + i), es[i])
      {
        if i > 0 {
          assert es[i] == later[i - 1];
          assert first + i == first + 1 + (i - 1);
        }
      }
    }

    /** The unscrambling loop of a streaming read, last block first. */
    method UnscrambleAll(sectorNo: nat, n: nat) returns (ok: bool, ghost es: seq<Entry>)
      requires Allocated() && n * RAW_BLOCK <= BUFFER
      modifies this`trials, buf, bufUnscrambled
      ensures ok == Accepts(unscramble, old(trials), sectorNo, old(buf[..]), 0, n) && trials == old(trials) + n
      ensures ok ==> |es| == n && AllBuffered(buf[..], bufUnscrambled[..], 0, es)
      ensures ok ==> AllUnscrambled(sectorNo, 0, old(buf[..]), es)
    {
      hide AllUnscrambled, AllBuffered, Unscrambled, Buffered, Accepts;
      ghost var was := buf[..];
      AcceptsNone(unscramble, trials, sectorNo, was, n);
      ok, es := true, [];
      NothingBuffered(buf[..], bufUnscrambled[..], n);
      NothingUnscrambled(sectorNo, n, was);
      var cnt: nat := n;
      while cnt > 0
        invariant cnt <= n && |es| == n - cnt && trials == old(trials) + (n - cnt)
        invariant ok == Accepts(unscramble, old(trials), sectorNo, was, cnt, n)
        invariant forall p :: 0 <= p < cnt * RAW_BLOCK ==> buf[p] == was[p]
        invariant ok ==> AllBuffered(buf[..], bufUnscrambled[..], cnt, es) && AllUnscrambled(sectorNo, cnt, was, es)
      {
        cnt := cnt - 1;
        ghost var later, raw0, data0 := es, buf[..], bufUnscrambled[..];
        var good: bool;
        good, es := UnscrambleOne(sectorNo, cnt, was, later);
        AcceptsFirst(unscramble, old(trials), sectorNo, was, cnt, n);
        if ok && good {
          StillBuffered(raw0, data0, buf[..], bufUnscrambled[..], cnt + 1, later);
          PrependedBuffer(buf[..], bufUnscrambled[..], cnt, es[0], later);
          Prepended(sectorNo, cnt, was, es[0], later);
          assert es == [es[0]] + later;
        }
        ok := ok && good;
      }
    }

    lemma NothingUnscrambled(sectorNo: nat, first: nat, memory: seq<byte>)
      requires first * RAW_BLOCK <= |memory|
      ensures AllUnscrambled(sectorNo, first, memory, [])
    {
    }

    method UnscrambleOne(sectorNo: nat, cnt: nat, ghost was: seq<byte>, ghost later: seq<Entry>)
      returns (ok: bool, ghost es: seq<Entry>)
      requires Allocated() && (cnt + 1) * RAW_BLOCK <= BUFFER == |was|
      requires forall p :: 0 <= p < (cnt + 1) * RAW_BLOCK ==> buf[p] == was[p]
      modifies this`trials, buf, bufUnscrambled
      ensures ok == Unscrambles(unscramble, old(trials), sectorNo + 16 * cnt, BlockAt(was, cnt))
      ensures trials == old(trials) + 1
      ensures |es| == |later| + 1 && es[1..] == later
      ensures ok ==> Buffered(buf[..], bufUnscrambled[..], cnt, es[0])
      ensures ok ==> Unscrambled(sectorNo + 16 * cnt, BlockAt(was, cnt), es[0])
      ensures forall p :: 0 <= p < cnt * RAW_BLOCK || (cnt + 1) * RAW_BLOCK <= p < BUFFER ==> buf[p] == old(buf[p])
      ensures forall p :: 0 <= p < cnt * USER_BLOCK || (cnt + 1) * USER_BLOCK <= p < BUFFER ==>
                bufUnscrambled[p] == old(bufUnscrambled[p])
    {
      hide Unscrambled;
      assert buf[cnt * RAW_BLOCK..cnt * RAW_BLOCK + RAW_BLOCK] == BlockAt(was, cnt);
      ok := Unscramble16(sectorNo + 16 * cnt, buf, cnt * RAW_BLOCK, bufUnscrambled, cnt * USER_BLOCK);
      es := [Entry(UserBlockAt(bufUnscrambled[..], cnt), BlockAt(buf[..], cnt))] + later;
      assert cnt * RAW_BLOCK + RAW_BLOCK == (cnt + 1) * RAW_BLOCK;
      assert cnt * USER_BLOCK + USER_BLOCK == (cnt + 1) * USER_BLOCK;
      assert buf[..][cnt * RAW_BLOCK..(cnt + 1) * RAW_BLOCK] == buf[cnt * RAW_BLOCK..cnt * RAW_BLOCK + RAW_BLOCK];
      assert bufUnscrambled[..][cnt * USER_BLOCK..(cnt + 1) * USER_BLOCK]
          == bufUnscrambled[cnt * USER_BLOCK..cnt * USER_BLOCK + USER_BLOCK];
    }

    method AddBuffered(block: nat, k: nat, raw: array<byte>, data: array<byte>, ghost e: Entry, ghost from: nat)
      requires Valid(from) && block < INVALID && {data, raw} !! {cache, rawCache} && raw as object != cacheMap
      requires data != raw
      requires (k + 1) * RAW_BLOCK <= raw.Length && (k + 1) * USER_BLOCK <= data.Length
      requires e.raw == raw[k * RAW_BLOCK..k * RAW_BLOCK + RAW_BLOCK]
      requires e.data == data[k * USER_BLOCK..k * USER_BLOCK + USER_BLOCK]
      modifies this`held, cache, rawCache, cacheMap, raw
      ensures Valid(from) && held == old(held)[block := Cached(kind, e)] && Present(block)
      ensures forall p :: 0 <= p < cacheSize && p != Slot(block, cacheSize) ==> cacheMap[p] == old(cacheMap[p])
      ensures forall p :: 0 <= p < k * RAW_BLOCK || (k + 1) * RAW_BLOCK <= p < raw.Length ==> raw[p] == old(raw[p])
    {
      hide Intact, Patched, Slot;
      AddBlock(block, data, k * USER_BLOCK, raw, k * RAW_BLOCK, from);
      assert e.raw == old(raw[k * RAW_BLOCK..k * RAW_BLOCK + RAW_BLOCK]);
      assert e == Entry(data[k * USER_BLOCK..k * USER_BLOCK + USER_BLOCK], e.raw);
      var p := Slot(block, cacheSize);
      assert cacheMap[p] == cacheMap[..][p];
      forall q | 0 <= q < cacheSize && q != p
        ensures cacheMap[q] == old(cacheMap[q])
      {
        assert cacheMap[..][q] == old(cacheMap[..])[q];
      }
    }

    /** The caching loop of a streaming read, last block first: the requested block is never displaced. */
    method AddDescending(start: nat, n: nat, ghost es: seq<Entry>, ghost from: nat)
      requires Valid(from) && n * RAW_BLOCK <= BUFFER && start + n <= INVALID && |es| == n
      requires AllBuffered(buf[..], bufUnscrambled[..], 0, es)
      modifies this`held, cache, rawCache, cacheMap, buf
      ensures Valid(from) && Extends(old(held), held, kind, start, es)
      ensures n > 0 ==> Present(start)
    {
      hide Intact, Patched, Slot, AllBuffered, Buffered, Extends, Cached;
      assert es[n..] == [] && es[0..] == es && es[..n] == es;
      ExtendsNothing(held, kind, start + n);
      var cnt: nat := n;
      while cnt > 0
        invariant cnt <= n && Valid(from)
        invariant AllBuffered(buf[..], bufUnscrambled[..], 0, es[..cnt])
        invariant Extends(old(held), held, kind, start + cnt, es[cnt..])
        invariant cnt < n ==> Present(start + cnt)
      {
        cnt := cnt - 1;
        ghost var raw0, data0 := buf[..], bufUnscrambled[..];
        LastBuffered(raw0, data0, 0, es[..cnt + 1]);
        ExtendsFront(old(held), held, kind, start + cnt, es[cnt], es[cnt + 1..]);
        AddBuffered(start + cnt, cnt, buf, bufUnscrambled, es[cnt], from);
        assert es[cnt..] == [es[cnt]] + es[cnt + 1..] && es[..cnt + 1][..cnt] == es[..cnt];
        StillBuffered(raw0, data0, buf[..], bufUnscrambled[..], 0, es[..cnt]);
      }
    }

    /** The caching loop of the Hitachi reads, first block first: five blocks fit side by side. */
    method AddAscending(start: nat, n: nat, raw: array<byte>, data: array<byte>, ghost es: seq<Entry>, ghost from: nat)
      requires Valid(from) && n <= 5 && start + n <= INVALID && |es| == n
      requires {raw, data} !! {cache, rawCache} && raw as object != cacheMap && raw != data
      requires raw.Length == 5 * RAW_BLOCK && data.Length == 5 * USER_BLOCK
      requires AllBuffered(raw[..], data[..], 0, es)
      modifies this`held, cache, rawCache, cacheMap, raw
      ensures Valid(from) && Extends(old(held), held, kind, start, es)
      ensures n == 0 ==> cacheMap[..] == old(cacheMap[..])
      ensures n > 0 ==> Present(start)
    {
      hide Intact, Patched, Slot, AllBuffered, Buffered, Extends, Cached;
      assert es[0..] == es && es[..0] == [];
      ExtendsNothing(held, kind, start);
      for j := 0 to n
        invariant Valid(from)
        invariant AllBuffered(raw[..], data[..], j, es[j..])
        invariant Extends(old(held), held, kind, start, es[..j])
        invariant j == 0 ==> cacheMap[..] == old(cacheMap[..])
        invariant j > 0 ==> Present(start)
      {
        if j > 0 {
          SlotsApart(start, start + j, cacheSize);
        }

        ghost var raw0, data0 := raw[..], data[..];
        FirstBuffered(raw0, data0, j, es[j..]);
        ExtendsBack(old(held), held, kind, start, es[j], es[..j]);
        AddBuffered(start + j, j, raw, data, es[j], from);
        assert es[..j + 1] == es[..j] + [es[j]] && es[j..][1..] == es[j + 1..];
        StillBuffered(raw0, data0, raw[..], data[..], j + 1, es[j + 1..]);
      }
      assert es[..n] == es;
    }

    // ---------- generic reads: methods 0 to 6 ----------

    /** Reads a distant sector, so that the next read goes to the disc. The second test is unsigned: it never fails. */
    method SeekAway(sector: nat)
      modifies drive
      ensures drive.commands == old(drive.commands) + 1
    {
      if Wrap(sector + 992 + 16) <= sectorsNo {
        var _ := drive.Read(Wrap(sector + 992));
      } else {
        var _ := drive.Read(Wrap(sector - 992));
      }
    }

    /** The number in a frame header agrees with the sector; only checked on the first layer. */
    method HeaderAgrees(at: nat, sector: nat, ghost n: nat) returns (ok: bool)
      requires n >= 4 && at + n <= buf.Length && buf[at..at + n] == drive.Ram(sector, 0, n)
      ensures ok == drive.HeaderRight(sector)
    {
      HeaderMeans(at, sector, n);
      var number := buf[at + 1] as int * 0x1_0000 + buf[at + 2] as int * 0x100 + buf[at + 3] as int;
      ok := !(buf[at] % 2 == 0 && number != 0x3_0000 + sector);
    }

    lemma HeaderMeans(at: nat, sector: nat, n: nat)
      requires n >= 4 && at + n <= buf.Length && buf[at..at + n] == drive.Ram(sector, 0, n)
      ensures forall k :: 0 <= k < 4 ==> buf[at + k] == drive.memory(sector, k)
    {
      forall k | 0 <= k < 4
        ensures buf[at + k] == drive.memory(sector, k)
      {
        assert buf[at..at + n][k] == drive.Ram(sector, 0, n)[k];
      }
    }

    /** The commands before a pass, whose outcomes do not matter. */
    method SeekAndFlush(sector: nat, m: nat)
      modifies drive
      ensures drive.commands == old(drive.commands) + Prelude(m)
    {
      if m == 0 || m == 1 || m == 4 {
        SeekAway(sector);
      }
      if m == 0 || m == 2 || m == 5 {
        var _ := drive.Read(sector);
      }
    }

    /** One pass of a streaming read: step sectors read into the drive's memory and dumped to buf[at]. */
    method StreamOnce(sector: nat, m: nat, at: nat, blockLen: nat, blockSize: nat, lastBlockSize: nat)
      returns (ok: bool)
      requires Allocated() && m <= 6 && 16 <= secMem <= 100 && at + 4 * CHUNK <= BUFFER
      requires blockLen == ChunkCount(secMem) && 1 <= blockLen <= 4 && blockSize <= CHUNK && lastBlockSize <= CHUNK
      requires (blockLen > 1 ==> blockSize == CHUNK) && RAW_SECTOR * secMem <= (blockLen - 1) * CHUNK + blockSize
      modifies drive, buf, bufUnscrambled
      ensures Attempt(ok, false, drive.commands, 0) == Pass(drive, sector, Settings(m), old(drive.commands))
      ensures ok ==> buf[at..at + RAW_SECTOR * secMem] == drive.Ram(sector, 0, RAW_SECTOR * secMem)
      ensures buf[..at] == old(buf[..at])
    {
      hide D.Drive.Ram, D.Drive.HeaderRight, D.Drive.Answered;
      SeekAndFlush(sector, m);
      ok := drive.ReadInto(sector, bufUnscrambled, RAW_SECTOR * secMem);
      if ok {
        ok := DumpChunks(drive, buf, at, secMem, blockLen, blockSize, lastBlockSize);
        if ok {
          ok := HeaderAgrees(at, sector, RAW_SECTOR * secMem);
        }
      }
    }

    lemma PassFits(cnt: nat, step: nat)
      requires cnt <= 15 && step <= 100
      ensures cnt * (RAW_SECTOR * step) + 4 * CHUNK <= BUFFER
    {
      var l := RAW_SECTOR * step;
      assert cnt * l <= 15 * l by {
        Monotonic(cnt, 15, l);
      }
    }

    /** The first cnt passes have succeeded since command n, and are in the buffer. */
    ghost predicate PassesRead(sectorNo: nat, m: nat, cnt: nat, n: nat)
      reads this`secMem, this`maxCnt, this`maxBlk, drive`commands, buf
    {
      && cnt * (RAW_SECTOR * secMem) <= buf.Length
      && Passes(true, cnt, drive.commands) == FirstPasses(drive, sectorNo, Settings(m), cnt, n)
      && buf[..cnt * (RAW_SECTOR * secMem)] == PassBytes(drive, sectorNo, secMem, cnt)
    }

    /** All passes of a streaming read. Chunks run over the end of a pass, and the next pass overwrites the excess. */
    method StreamPasses(sectorNo: nat, m: nat) returns (ok: bool, cnt: nat)
      requires Allocated() && Planned() && m <= 6
      modifies drive, buf, bufUnscrambled
      ensures Passes(ok, cnt, drive.commands)
           == FirstPasses(drive, sectorNo, Settings(m), maxCnt + 1, old(drive.commands))
      ensures ok ==> (maxCnt + 1) * (RAW_SECTOR * secMem) <= BUFFER
      ensures ok ==> buf[..(maxCnt + 1) * (RAW_SECTOR * secMem)] == PassBytes(drive, sectorNo, secMem, maxCnt + 1)
    {
      hide PassesRead, FirstPasses, PassBytes;
      var blockLen, blockSize, lastBlockSize := PlanChunks(secMem);
      ok, cnt := true, 0;
      NoPasses(sectorNo, m);
      while cnt <= maxCnt
        invariant cnt <= maxCnt + 1 && ok && PassesRead(sectorNo, m, cnt, old(drive.commands))
      {
        ok := StreamNext(sectorNo, m, cnt, blockLen, blockSize, lastBlockSize, old(drive.commands));
        if !ok {
          NoPassFollows(drive, sectorNo, Settings(m), cnt + 1, maxCnt - cnt, old(drive.commands));
          return;
        }
        cnt := cnt + 1;
      }
      AllPasses(sectorNo, m, cnt, old(drive.commands));
    }

    lemma AllPasses(sectorNo: nat, m: nat, cnt: nat, n: nat)
      requires PassesRead(sectorNo, m, cnt, n)
      ensures cnt * (RAW_SECTOR * secMem) <= buf.Length
      ensures Passes(true, cnt, drive.commands) == FirstPasses(drive, sectorNo, Settings(m), cnt, n)
      ensures buf[..cnt * (RAW_SECTOR * secMem)] == PassBytes(drive, sectorNo, secMem, cnt)
    {
    }

    /** The next pass, behind those already in the buffer. */
    method StreamNext(sectorNo: nat, m: nat, cnt: nat, blockLen: nat, blockSize: nat, lastBlockSize: nat, ghost n: nat)
      returns (ok: bool)
      requires Allocated() && Planned() && m <= 6 && cnt <= maxCnt && PassesRead(sectorNo, m, cnt, n)
      requires blockLen == ChunkCount(secMem) && 1 <= blockLen <= 4 && blockSize <= CHUNK && lastBlockSize <= CHUNK
      requires (blockLen > 1 ==> blockSize == CHUNK) && RAW_SECTOR * secMem <= (blockLen - 1) * CHUNK + blockSize
      modifies drive, buf, bufUnscrambled
      ensures ok ==> PassesRead(sectorNo, m, cnt + 1, n)
      ensures !ok ==> Passes(false, cnt, drive.commands) == FirstPasses(drive, sectorNo, Settings(m), cnt + 1, n)
    {
      hide PassBytes, Pass, D.Drive.Ram, Planned;
      var step: nat := secMem;
      var at := cnt * (2064 * step);
      PlannedSizes();
      PassFits(cnt, step);
      ghost var before := buf[..at];
      ok := StreamOnce(sectorNo + cnt * step, m, at, blockLen, blockSize, lastBlockSize);
      if ok {
        OneMore(cnt, RAW_SECTOR * step);
        NextPass(sectorNo, step, cnt);
        assert buf[..at + RAW_SECTOR * step] == buf[..at] + buf[at..at + RAW_SECTOR * step];
      }
    }

    lemma PlannedSizes()
      requires Planned()
      ensures 16 <= secMem <= 100 && maxCnt <= 15
    {
    }

    lemma NoPasses(sectorNo: nat, m: nat)
      requires Allocated()
      ensures PassesRead(sectorNo, m, 0, drive.commands)
    {
      OneMore(0, RAW_SECTOR * secMem);
    }

    lemma NextPass(s: nat, step: nat, n: nat)
      ensures PassBytes(drive, s, step, n + 1)
           == PassBytes(drive, s, step, n) + drive.Ram(s + n * step, 0, RAW_SECTOR * step)
    {
    }

    /** What a successful read leaves: blocks of frames, unscrambled, cached one after the other. */
    ghost predicate Delivered(was: map<nat, Entry>, now: map<nat, Entry>, sectorNo: nat, memory: seq<byte>,
            es: seq<Entry>)
    {
      && |es| * RAW_BLOCK <= |memory| && AllUnscrambled(sectorNo, 0, memory, es)
      && Extends(was, now, kind, sectorNo / 16, es)
    }

    lemma PrefixUnscrambled(sectorNo: nat, all: seq<byte>, memory: seq<byte>, es: seq<Entry>)
      requires |es| * RAW_BLOCK <= |memory| <= |all| && memory == all[..|memory|]
      requires AllUnscrambled(sectorNo, 0, all, es)
      ensures AllUnscrambled(sectorNo, 0, memory, es)
    {
      hide Unscrambled;
      forall i | 0 <= i < |es|
        ensures Unscrambled(sectorNo + 16 * (0 + i), BlockAt(memory, 0 + i), es[i])
      {
        assert BlockAt(memory, i) == BlockAt(all, i);
      }
    }

    /** One of the first three tries: read, unscramble, cache everything. */
    method TryStreaming(sectorNo: nat, m: nat, ghost from: nat) returns (ok: bool, ghost es: seq<Entry>)
      requires Valid(from) && Planned() && m <= 6 && sectorNo < 0xf000_0000
      modifies this`held, this`trials, drive, cache, rawCache, cacheMap, buf, bufUnscrambled
      ensures Valid(from)
      ensures !ok ==> held == old(held) && cacheMap[..] == old(cacheMap[..])
      ensures Attempt(ok, false, drive.commands, trials)
           == Streaming(Origin(), sectorNo, Settings(m), old(drive.commands), old(trials))
      ensures ok ==> |es| == maxBlk && Present(sectorNo / 16)
      ensures ok ==> Delivered(old(held), held, sectorNo, PassBytes(drive, sectorNo, secMem, maxCnt + 1), es)
    {
      hide Intact, PassBytes, AllUnscrambled, AllBuffered, Extends, FirstPasses, Accepts;
      var cnt: nat;
      es := [];
      ok, cnt := StreamPasses(sectorNo, m);
      if cnt < maxCnt {
        ok := false;
      } else {
        ghost var all := buf[..];
        BlocksFit();
        var good: bool;
        good, es := UnscrambleAll(sectorNo, maxBlk);
        PassLength(drive, sectorNo, secMem, maxCnt + 1);
        if ok {
          AcceptsPrefix(unscramble, old(trials), sectorNo, all, PassBytes(drive, sectorNo, secMem, maxCnt + 1), maxBlk);
        }
        ok := ok && good;
        if ok {
          PrefixUnscrambled(sectorNo, all, PassBytes(drive, sectorNo, secMem, maxCnt + 1), es);
        }
      }
      if ok {
        AddDescending(sectorNo / 16, maxBlk, es, from);
      }
    }

    /** The blocks of a read fit in the buffers and are part of what the passes read. */
    lemma BlocksFit()
      requires Planned()
      ensures maxBlk * RAW_BLOCK <= BUFFER && maxBlk * RAW_BLOCK <= (maxCnt + 1) * (RAW_SECTOR * secMem)
      ensures maxBlk <= 100
    {
      Associate(maxCnt + 1, secMem);
      Monotonic(maxCnt + 1, 16, secMem);
    }

    lemma Associate(n: nat, step: nat)
      ensures n * (RAW_SECTOR * step) == RAW_SECTOR * (step * n) && step * n == n * step
    {
    }

    /** The fourth and fifth tries: one block, without streaming. */
    method TrySimple(sectorNo: nat, ghost from: nat) returns (ok: bool, ghost es: seq<Entry>)
      requires Valid(from) && sectorNo < 0xf000_0000
      modifies this`held, this`trials, drive, cache, rawCache, cacheMap, buf, bufUnscrambled
      ensures Valid(from)
      ensures !ok ==> held == old(held) && cacheMap[..] == old(cacheMap[..])
      ensures Attempt(ok, false, drive.commands, trials) == Simple(Origin(), sectorNo, old(drive.commands), old(trials))
      ensures ok ==> |es| == 1 && Present(sectorNo / 16)
      ensures ok ==> Delivered(old(held), held, sectorNo, drive.Ram(sectorNo, 0, RAW_BLOCK), es)
    {
      hide Intact, Unscrambled, Unscrambles, Extends, Cached, D.Drive.Ram, D.Drive.HeaderRight;
      es := [];
      SeekAway(sectorNo);
      var _ := drive.Read(sectorNo);
      ok := drive.Read(sectorNo);
      if ok {
        ok := drive.MemDump(0, RAW_BLOCK, buf, 0);
        if ok {
          ok := HeaderAgrees(0, sectorNo, RAW_BLOCK);
          if ok {
            ok, es := CacheOne(sectorNo, drive.Ram(sectorNo, 0, RAW_BLOCK), from);
          }
        }
      }
    }

    /** Unscrambles the one block of a simple read and caches it. */
    method CacheOne(sectorNo: nat, ghost memory: RawBlock, ghost from: nat) returns (ok: bool, ghost es: seq<Entry>)
      requires Valid(from) && sectorNo < 0xf000_0000 && buf[0..0 + RAW_BLOCK] == memory
      modifies this`held, this`trials, cache, rawCache, cacheMap, buf, bufUnscrambled
      ensures Valid(from)
      ensures ok == Unscrambles(unscramble, old(trials), sectorNo, memory) && trials == old(trials) + 1
      ensures !ok ==> held == old(held) && cacheMap[..] == old(cacheMap[..])
      ensures ok ==> |es| == 1 && Present(sectorNo / 16) && Delivered(old(held), held, sectorNo, memory, es)
    {
      hide Intact, Unscrambled, Unscrambles, Extends, Cached;
      es := [];
      ok := Unscramble16(sectorNo, buf, 0, bufUnscrambled, 0);
      if ok {
        ghost var e := Entry(bufUnscrambled[0..0 + USER_BLOCK], buf[0..0 + RAW_BLOCK]);
        es := [e];
        assert BlockAt(memory, 0) == memory;
        ExtendsNothing(held, kind, sectorNo / 16);
        ExtendsBack(held, held, kind, sectorNo / 16, e, []);
        assert [] + [e] == [e];
        AddBuffered(sectorNo / 16, 0, buf, bufUnscrambled, e, from);
      }
    }

    /** The frames of a generic read of n blocks: those of a streaming read, or of a simple one. */
    ghost predicate GenericFrames(sectorNo: nat, memory: seq<byte>, n: nat)
      reads this
    {
      || (memory == PassBytes(drive, sectorNo, secMem, maxCnt + 1) && n == maxBlk)
      || (memory == drive.Ram(sectorNo, 0, RAW_BLOCK) && n == 1)
    }

    /** disc_read_sector_generic: what it leaves in the cache when it succeeds. */
    method ReadGeneric(sectorNo: nat, m: nat, ghost from: nat)
      returns (ok: bool, ghost memory: seq<byte>, ghost es: seq<Entry>)
      requires Valid(from) && Planned() && m <= 6 && sectorNo < 0xf000_0000
      modifies this`held, this`trials, drive, cache, rawCache, cacheMap, buf, bufUnscrambled
      ensures Valid(from)
      ensures !ok ==> held == old(held) && cacheMap[..] == old(cacheMap[..])
      ensures Attempt(ok, false, drive.commands, trials)
           == Generic(Origin(), sectorNo, Settings(m), 0, old(drive.commands), old(trials))
      ensures ok ==> Present(sectorNo / 16) && Delivered(old(held), held, sectorNo, memory, es)
      ensures ok ==> GenericFrames(sectorNo, memory, |es|)
    {
      hide Intact, PassBytes, Delivered, Streaming, Simple;
      ok, memory, es := false, [], [];
      var retry := 0;
      while !ok && retry < MAX_READ_RETRIES
        invariant Valid(from) && Planned() && retry <= MAX_READ_RETRIES
        invariant Generic(Origin(), sectorNo, Settings(m), 0, old(drive.commands), old(trials))
               == if ok then Attempt(true, false, drive.commands, trials)
                  else Generic(Origin(), sectorNo, Settings(m), retry, drive.commands, trials)
        invariant !ok ==> held == old(held) && cacheMap[..] == old(cacheMap[..])
        invariant ok ==> Present(sectorNo / 16) && Delivered(old(held), held, sectorNo, memory, es)
        invariant ok ==> GenericFrames(sectorNo, memory, |es|)
        decreases MAX_READ_RETRIES - retry
      {
        if retry < 3 {
          ok, es := TryStreaming(sectorNo, m, from);
          memory := PassBytes(drive, sectorNo, secMem, maxCnt + 1);
        } else {
          ok, es := TrySimple(sectorNo, from);
          memory := drive.Ram(sectorNo, 0, RAW_BLOCK);
        }
        retry := retry + 1;
      }
    }

    // ---------- Hitachi reads: methods 7 to 9 ----------

    lemma Appended(sectorNo: nat, memory: seq<byte>, es: seq<Entry>, raw: RawBlock, e: Entry)
      requires |memory| == |es| * RAW_BLOCK && AllUnscrambled(sectorNo, 0, memory, es)
      requires Unscrambled(sectorNo + 16 * |es|, raw, e)
      ensures AllUnscrambled(sectorNo, 0, memory + raw, es + [e])
    {
      hide Unscrambled;
      var all, fs := memory + raw, es + [e];
      forall i | 0 <= i < |fs|
        ensures Unscrambled(sectorNo + 16 * (0 + i), BlockAt(all, 0 + i), fs[i])
      {
        if i < |es| {
          SliceOfPrefix(memory, raw, i * RAW_BLOCK, (i + 1) * RAW_BLOCK);
          assert BlockAt(all, i) == BlockAt(memory, 0 + i);
          assert fs[i] == es[i];
        } else {
          SliceOfSuffix(memory, raw);
          assert |memory| == i * RAW_BLOCK && |all| == (i + 1) * RAW_BLOCK;
          assert BlockAt(all, i) == raw;
        }
      }
    }

    /** The unscrambling of one more block behind those already unscrambled. */
    method UnscrambleNext(sectorNo: nat, j: nat, raw: array<byte>, data: array<byte>, ghost memory: seq<byte>,
            ghost es: seq<Entry>)
      returns (ok: bool, ghost memory': seq<byte>, ghost es': seq<Entry>)
      requires j < 5 && raw.Length == 5 * RAW_BLOCK && data.Length == 5 * USER_BLOCK && raw != data
      requires |es| == j && |memory| == j * RAW_BLOCK && AllUnscrambled(sectorNo, 0, memory, es)
      requires AllBuffered(raw[..], data[..], 0, es)
      modifies this`trials, raw, data
      ensures ok == Unscrambles(unscramble, old(trials), sectorNo + 16 * j, old(BlockAt(raw[..], j)))
      ensures trials == old(trials) + 1
      ensures |es'| == j + 1 && memory' == memory + old(BlockAt(raw[..], j))
      ensures ok ==> AllUnscrambled(sectorNo, 0, memory', es') && AllBuffered(raw[..], data[..], 0, es')
      ensures forall p :: 0 <= p < j * RAW_BLOCK || (j + 1) * RAW_BLOCK <= p < raw.Length ==> raw[p] == old(raw[p])
    {
      hide AllUnscrambled, Unscrambled, AllBuffered;
      ghost var raw0, data0, block := raw[..], data[..], BlockAt(raw[..], j);
      assert raw[j * RAW_BLOCK..j * RAW_BLOCK + RAW_BLOCK] == block;
      ok := Unscramble16(sectorNo + 16 * j, raw, j * RAW_BLOCK, data, j * USER_BLOCK);
      ghost var e := Entry(UserBlockAt(data[..], j), BlockAt(raw[..], j));
      memory', es' := memory + block, es + [e];
      if ok {
        assert e.raw == raw[j * RAW_BLOCK..j * RAW_BLOCK + RAW_BLOCK];
        assert e.data == data[j * USER_BLOCK..j * USER_BLOCK + USER_BLOCK];
        Appended(sectorNo, memory, es, block, e);
        StillBuffered(raw0, data0, raw[..], data[..], 0, es);
        AppendedBuffer(raw[..], data[..], e, es);
      }
    }

    lemma NoRam(s: nat)
      ensures drive.Ram(s, 0, 0) == []
    {
    }

    /** One try of method 7: each block is dumped in one command. */
    method TryHitachi7(sectorNo: nat, away: bool, raw: array<byte>, data: array<byte>)
      returns (ok: bool, giveUp: bool, ghost memory: seq<byte>, ghost es: seq<Entry>)
      requires raw.Length == 5 * RAW_BLOCK && data.Length == 5 * USER_BLOCK && raw != data
      modifies this`trials, drive, raw, data
      ensures Attempt(ok, giveUp, drive.commands, trials)
           == Hitachi(Origin(), sectorNo, 7, away, old(drive.commands), old(trials))
      ensures ok ==> |es| == Blocks(sectorNo, sectorsNo) && memory == drive.Ram(sectorNo, 0, |es| * RAW_BLOCK)
      ensures ok ==> AllUnscrambled(sectorNo, 0, memory, es) && AllBuffered(raw[..], data[..], 0, es)
    {
      hide AllUnscrambled, AllBuffered, D.Drive.Ram, Dumped, Blocks;
      giveUp, memory, es := false, [], [];
      if away {
        SeekAway(sectorNo);
      }
      ok := drive.Read(sectorNo);
      if ok {
        ok, giveUp, memory, es := DumpAndUnscramble(sectorNo, raw, data);
      }
    }

    method DumpAndUnscramble(sectorNo: nat, raw: array<byte>, data: array<byte>)
      returns (ok: bool, giveUp: bool, ghost memory: seq<byte>, ghost es: seq<Entry>)
      requires raw.Length == 5 * RAW_BLOCK && data.Length == 5 * USER_BLOCK && raw != data && drive.last == sectorNo
      modifies this`trials, drive`commands, raw, data
      ensures Attempt(ok, giveUp, drive.commands, trials)
           == Dumped(Origin(), sectorNo, Blocks(sectorNo, sectorsNo), old(drive.commands), old(trials))
      ensures ok ==> |es| == Blocks(sectorNo, sectorsNo) && memory == drive.Ram(sectorNo, 0, |es| * RAW_BLOCK)
      ensures ok ==> AllUnscrambled(sectorNo, 0, memory, es) && AllBuffered(raw[..], data[..], 0, es)
    {
      hide AllUnscrambled, Unscrambled, Unscrambles, AllBuffered, D.Drive.Ram;
      ok, giveUp, memory, es := true, false, [], [];
      NoRam(sectorNo);
      NothingUnscrambled(sectorNo, 0, []);
      NothingBuffered(raw[..], data[..], 0);
      ghost var n, t := drive.commands, trials;
      var j: nat := 0;
      while j < 5 && sectorNo + j * 16 < sectorsNo && ok
        invariant j <= Blocks(sectorNo, sectorsNo)
        invariant Attempt(ok, giveUp, drive.commands, trials) == Dumped(Origin(), sectorNo, j, n, t)
        invariant ok ==> |es| == j && memory == drive.Ram(sectorNo, 0, j * RAW_BLOCK)
        invariant ok ==> AllUnscrambled(sectorNo, 0, memory, es) && AllBuffered(raw[..], data[..], 0, es)
      {
        ok, giveUp, memory, es := DumpOne(sectorNo, j, raw, data, memory, es);
        j := j + 1;
      }
      if !ok {
        NoDumpFollows(Origin(), sectorNo, j, Blocks(sectorNo, sectorsNo) - j, n, t);
      }
    }

    method DumpOne(sectorNo: nat, j: nat, raw: array<byte>, data: array<byte>, ghost memory: seq<byte>,
            ghost es: seq<Entry>)
      returns (ok: bool, giveUp: bool, ghost memory': seq<byte>, ghost es': seq<Entry>)
      requires raw.Length == 5 * RAW_BLOCK && data.Length == 5 * USER_BLOCK && raw != data && j < 5
      requires drive.last == sectorNo && |es| == j && memory == drive.Ram(sectorNo, 0, j * RAW_BLOCK)
      requires AllUnscrambled(sectorNo, 0, memory, es) && AllBuffered(raw[..], data[..], 0, es)
      modifies this`trials, drive`commands, raw, data
      ensures giveUp == !drive.answer(old(drive.commands)) && drive.commands == old(drive.commands) + 1
      ensures giveUp ==> !ok && trials == old(trials)
      ensures !giveUp ==>
                && ok == Unscrambles(unscramble, old(trials), sectorNo + 16 * j,
                                     drive.Ram(sectorNo, j * RAW_BLOCK, RAW_BLOCK))
                && trials == old(trials) + 1
      ensures ok ==> |es'| == j + 1 && memory' == drive.Ram(sectorNo, 0, (j + 1) * RAW_BLOCK)
      ensures ok ==> AllUnscrambled(sectorNo, 0, memory', es') && AllBuffered(raw[..], data[..], 0, es')
    {
      hide AllUnscrambled, Unscrambled, Unscrambles, AllBuffered, D.Drive.Ram;
      ghost var raw0 := raw[..];
      memory', es' := memory, es;
      ok := drive.MemDump(j * RAW_BLOCK, RAW_BLOCK, raw, j * RAW_BLOCK);
      giveUp := !ok;
      if ok {
        RamConcat(drive, sectorNo, j * RAW_BLOCK, RAW_BLOCK);
        assert BlockAt(raw[..], j) == raw[j * RAW_BLOCK..j * RAW_BLOCK + RAW_BLOCK];
        StillBuffered(raw0, data[..], raw[..], data[..], 0, es);
        ok, memory', es' := UnscrambleNext(sectorNo, j, raw, data, memory, es);
      }
    }

    /** Fills the drive's memory by a read elsewhere, as methods 8 and 9 do; the sums are of 32 bits. */
    method ReadElsewhere(sectorNo: nat)
      modifies drive
      ensures drive.commands == old(drive.commands) + 1
    {
      if sectorNo > Wrap(sectorsNo - 1000) {
        var _ := drive.Read(Wrap(sectorNo - 16 * 5 * 2));
      } else {
        var _ := drive.Read(Wrap(sectorNo + 16 * 5));
      }
    }

    /** The second loop of methods 8 and 9: user data of each block, from a read of its own but for the first. */
    method FillAndUnscramble(sectorNo: nat, raw: array<byte>, data: array<byte>, readbuf: array<byte>)
      returns (ok: bool, ghost memory: seq<byte>, ghost es: seq<Entry>)
      requires raw.Length == 5 * RAW_BLOCK && data.Length == 5 * USER_BLOCK && readbuf.Length == USER_BLOCK
      requires raw != data && readbuf != raw && readbuf != data
      requires readbuf[..] == drive.User(sectorNo, USER_BLOCK)
      requires forall f :: 0 <= f < 16 * Blocks(sectorNo, sectorsNo) ==> HeaderRead(drive, sectorNo, raw[..], f)
      modifies this`trials, drive, raw, data, readbuf
      ensures Attempt(ok, false, drive.commands, trials)
           == Filled(Origin(), sectorNo, Blocks(sectorNo, sectorsNo), old(drive.commands), old(trials))
      ensures ok ==> |es| == Blocks(sectorNo, sectorsNo) && memory == RebuiltAll(drive, sectorNo, |es|)
      ensures ok ==> AllUnscrambled(sectorNo, 0, memory, es) && AllBuffered(raw[..], data[..], 0, es)
    {
      hide AllUnscrambled, Unscrambled, Unscrambles, AllBuffered, HeaderRead, Rebuilt, D.Drive.User;
      ok, memory, es := true, [], [];
      NothingUnscrambled(sectorNo, 0, []);
      NothingBuffered(raw[..], data[..], 0);
      ghost var n := Blocks(sectorNo, sectorsNo);
      var j: nat := 0;
      while j < 5 && sectorNo + j * 16 < sectorsNo && ok
        invariant j <= n
        invariant Attempt(ok, false, drive.commands, trials)
               == Filled(Origin(), sectorNo, j, old(drive.commands), old(trials))
        invariant ok ==> |es| == j && memory == RebuiltAll(drive, sectorNo, j)
        invariant ok ==> AllUnscrambled(sectorNo, 0, memory, es) && AllBuffered(raw[..], data[..], 0, es)
        invariant ok && j == 0 ==> readbuf[..] == drive.User(sectorNo, USER_BLOCK)
        invariant ok ==> forall f :: 16 * j <= f < 16 * n ==> HeaderRead(drive, sectorNo, raw[..], f)
      {
        if j > 0 {
          ok := drive.ReadInto(sectorNo + j * 16, readbuf, USER_BLOCK);
          assert readbuf[..USER_BLOCK] == readbuf[..];
        }
        if ok {
          ok, memory, es := FillOne(sectorNo, j, n, raw, data, readbuf, memory, es);
        }
        j := j + 1;
      }
      if !ok {
        NoFillFollows(Origin(), sectorNo, j, n - j, old(drive.commands), old(trials));
      }
    }

    method FillOne(sectorNo: nat, j: nat, ghost n: nat, raw: array<byte>, data: array<byte>, readbuf: array<byte>,
            ghost memory: seq<byte>, ghost es: seq<Entry>)
      returns (ok: bool, ghost memory': seq<byte>, ghost es': seq<Entry>)
      requires raw.Length == 5 * RAW_BLOCK && data.Length == 5 * USER_BLOCK && readbuf.Length == USER_BLOCK
      requires raw != data && readbuf != raw && readbuf != data && j < n <= 5
      requires readbuf[..] == drive.User(sectorNo + j * 16, USER_BLOCK)
      requires |es| == j && memory == RebuiltAll(drive, sectorNo, j)
      requires AllUnscrambled(sectorNo, 0, memory, es) && AllBuffered(raw[..], data[..], 0, es)
      requires forall f :: 16 * j <= f < 16 * n ==> HeaderRead(drive, sectorNo, raw[..], f)
      modifies this`trials, raw, data
      ensures ok == Unscrambles(unscramble, old(trials), sectorNo + j * 16,
                                Rebuilt(drive, sectorNo, sectorNo + j * 16, j))
      ensures trials == old(trials) + 1
      ensures ok ==> |es'| == j + 1 && memory' == RebuiltAll(drive, sectorNo, j + 1)
      ensures ok ==> AllUnscrambled(sectorNo, 0, memory', es') && AllBuffered(raw[..], data[..], 0, es')
      ensures ok ==> forall f :: 16 * (j + 1) <= f < 16 * n ==> HeaderRead(drive, sectorNo, raw[..], f)
    {
      hide AllUnscrambled, Unscrambled, AllBuffered, HeaderRead, Rebuilt;
      ghost var raw0 := raw[..];
      FillUserData(drive, raw, j, readbuf, sectorNo, sectorNo + j * 16);
      StillBuffered(raw0, data[..], raw[..], data[..], 0, es);
      assert BlockAt(raw[..], j) == raw[j * RAW_BLOCK..(j + 1) * RAW_BLOCK];
      ok, memory', es' := UnscrambleNext(sectorNo, j, raw, data, memory, es);
      HeadersLater(raw0, raw[..], sectorNo, 16 * (j + 1), 16 * n);
    }

    lemma HeadersLater(b: seq<byte>, c: seq<byte>, s: nat, from: nat, n: nat)
      requires |b| == |c| && n * RAW_SECTOR <= |b|
      requires forall f :: from <= f < n ==> HeaderRead(drive, s, b, f)
      requires forall p :: from * RAW_SECTOR <= p < |b| ==> c[p] == b[p]
      ensures forall f :: from <= f < n ==> HeaderRead(drive, s, c, f)
    {
      hide HeaderRead;
      forall f | from <= f < n
        ensures HeaderRead(drive, s, c, f)
      {
        HeaderKept(drive, s, b, c, f);
      }
    }

    /** One try of method 8, or of method 9, which differ only in how they dump the frame headers. */
    method TryHitachi89(sectorNo: nat, away: bool, overlapping: bool, raw: array<byte>, data: array<byte>,
            readbuf: array<byte>)
      returns (ok: bool, giveUp: bool, ghost memory: seq<byte>, ghost es: seq<Entry>)
      requires raw.Length == 5 * RAW_BLOCK && data.Length == 5 * USER_BLOCK && readbuf.Length == USER_BLOCK
      requires raw != data && readbuf != raw && readbuf != data
      modifies this`trials, drive, raw, data, readbuf
      ensures Attempt(ok, giveUp, drive.commands, trials)
           == Hitachi(Origin(), sectorNo, if overlapping then 9 else 8, away, old(drive.commands), old(trials))
      ensures ok ==> |es| == Blocks(sectorNo, sectorsNo) && memory == RebuiltAll(drive, sectorNo, |es|)
      ensures ok ==> AllUnscrambled(sectorNo, 0, memory, es) && AllBuffered(raw[..], data[..], 0, es)
    {
      hide AllUnscrambled, Unscrambled, AllBuffered, HeaderRead, Rebuilt, Filled, FramesCarried, BlocksApart;
      giveUp, memory, es := false, [], [];
      if away {
        SeekAway(sectorNo);
      }
      ReadElsewhere(sectorNo);
      ok := drive.ReadInto(sectorNo, readbuf, USER_BLOCK);
      if ok {
        assert readbuf[..USER_BLOCK] == readbuf[..];
        if overlapping {
          ok, giveUp := HeadersOverlapping(drive, raw, sectorNo, sectorsNo);
        } else {
          ok, giveUp := HeadersApart(drive, raw, sectorNo, sectorsNo);
        }
        if ok {
          SureHeaders(sectorNo, overlapping, old(drive.commands) + (if away then 3 else 2));
          assert drive.last == sectorNo;
          ok, memory, es := FillAndUnscramble(sectorNo, raw, data, readbuf);
        }
      }
    }

    lemma SureHeaders(sectorNo: nat, overlapping: bool, n: nat)
      ensures var h := Headers89(Origin(), sectorNo, if overlapping then 9 else 8, n); h.ok ==> !h.giveUp
    {
      BlocksApartMeans(drive, Blocks(sectorNo, sectorsNo), n);
    }

    /** The frames of a read of n blocks by methods 7, 8 and 9. */
    ghost function HitachiFrames(sectorNo: nat, m: nat, n: nat): seq<byte> {
      if m == 7 then drive.Ram(sectorNo, 0, n * RAW_BLOCK) else RebuiltAll(drive, sectorNo, n)
    }

    /** disc_read_sector_7, 8 and 9. */
    method ReadHitachi(sectorNo: nat, m: nat, ghost from: nat)
      returns (ok: bool, ghost memory: seq<byte>, ghost es: seq<Entry>)
      requires Valid(from) && 7 <= m <= 9 && sectorNo < 0xf000_0000
      modifies this`held, this`trials, drive, cache, rawCache, cacheMap
      ensures Valid(from)
      ensures !ok ==> held == old(held) && cacheMap[..] == old(cacheMap[..])
      ensures ok == HitachiTries(Origin(), sectorNo, m, 0, old(drive.commands), old(trials)).ok
      ensures drive.commands == HitachiTries(Origin(), sectorNo, m, 0, old(drive.commands), old(trials)).commands
      ensures trials == HitachiTries(Origin(), sectorNo, m, 0, old(drive.commands), old(trials)).trials
      ensures ok && sectorNo < sectorsNo ==> Present(sectorNo / 16)
      ensures ok && sectorNo >= sectorsNo ==> cacheMap[..] == old(cacheMap[..])
      ensures ok ==> Delivered(old(held), held, sectorNo, memory, es)
      ensures ok ==> |es| == Blocks(sectorNo, sectorsNo) && memory == HitachiFrames(sectorNo, m, |es|)
    {
      hide Intact, AllUnscrambled, Unscrambled, AllBuffered, HeaderRead, RebuiltAll, Extends, Hitachi;
      var raw := new byte[5 * RAW_BLOCK](i => 0);
      var data := new byte[5 * USER_BLOCK](i => 0);
      var readbuf := new byte[USER_BLOCK](i => 0);
      ok, memory, es := false, [], [];
      var giveUp := false;
      var retry := 0;
      while !ok && !giveUp && retry < MAX_READ_RETRIES
        invariant Valid(from) && retry <= MAX_READ_RETRIES
        invariant HitachiTries(Origin(), sectorNo, m, 0, old(drive.commands), old(trials))
               == if ok || giveUp then Attempt(ok, giveUp, drive.commands, trials)
                  else HitachiTries(Origin(), sectorNo, m, retry, drive.commands, trials)
        invariant held == old(held) && cacheMap[..] == old(cacheMap[..])
        invariant ok ==> |es| == Blocks(sectorNo, sectorsNo) && memory == HitachiFrames(sectorNo, m, |es|)
        invariant ok ==> AllUnscrambled(sectorNo, 0, memory, es) && AllBuffered(raw[..], data[..], 0, es)
        decreases MAX_READ_RETRIES - retry
      {
        if m == 7 {
          ok, giveUp, memory, es := TryHitachi7(sectorNo, retry > 0, raw, data);
        } else {
          ok, giveUp, memory, es := TryHitachi89(sectorNo, retry > 0, m == 9, raw, data, readbuf);
        }
        retry := retry + 1;
      }
      if ok {
        HitachiLength(sectorNo, m, |es|);
        AddAscending(sectorNo / 16, Blocks(sectorNo, sectorsNo), raw, data, es, from);
      }
    }

    lemma HitachiLength(sectorNo: nat, m: nat, n: nat)
      ensures |HitachiFrames(sectorNo, m, n)| == n * RAW_BLOCK
    {
      hide RebuiltAll;
    }

    // ---------- reading a sector ----------

    /** The frames behind a successful read of n blocks by the current method. */
    ghost predicate FramesRead(sectorNo: nat, memory: seq<byte>, n: nat)
      reads this
    {
      if readMethod <= 6 then GenericFrames(sectorNo, memory, n)
      else n == Blocks(sectorNo, sectorsNo) && memory == HitachiFrames(sectorNo, readMethod, n)
    }

    /** disc_read_sector. Its assertion fails exactly if methods 7 to 9 miss past the end and a read succeeds. */
    method ReadSector(sectorNo: nat, ghost from: nat) returns (r: Outcome, ghost memory: seq<byte>,
            ghost es: seq<Entry>)
      requires Valid(from) && Planned() && sectorNo < 0xf000_0000
      modifies this`held, this`trials, drive, cache, rawCache, cacheMap, buf, bufUnscrambled
      ensures Valid(from)
      ensures old(Present(sectorNo / 16)) ==>
                && r.Found? && held == old(held) && cacheMap[..] == old(cacheMap[..])
                && drive.commands == old(drive.commands) && trials == old(trials)
      ensures !old(Present(sectorNo / 16)) ==>
                var a := Reading(Origin(), sectorNo, Settings(readMethod), old(drive.commands), old(trials));
                drive.commands == a.commands && trials == a.trials && (r.Failed? <==> !a.ok)
      ensures r.Found? ==> Present(sectorNo / 16) && Points(r, sectorNo)
      ensures r.Found? && from <= sectorNo ==> Shows(r, sectorNo)
      ensures r.Found? && !old(Present(sectorNo / 16)) ==>
                Delivered(old(held), held, sectorNo, memory, es) && FramesRead(sectorNo, memory, |es|)
      ensures !r.Found? ==> held == old(held)
      ensures r.Aborted? <==>
                && !old(Present(sectorNo / 16)) && readMethod >= 7 && sectorNo >= sectorsNo
                && exists k ::
                     0 <= k < MAX_READ_RETRIES && drive.answer(ReadCommand(readMethod, k, old(drive.commands)))
    {
      hide Intact, Delivered, HitachiFrames, GenericFrames, HitachiTries, Generic;
      var block := sectorNo / 16;
      memory, es := [], [];
      if readMethod >= 7 && sectorNo >= sectorsNo {
        PastEnd(Origin(), sectorNo, readMethod, drive.commands, trials);
      }
      var hit, dataAt, rawAt := Lookup(block);
      var out := hit;
      if !hit {
        if readMethod <= 6 {
          out, memory, es := ReadGeneric(sectorNo, readMethod, from);
        } else {
          out, memory, es := ReadHitachi(sectorNo, readMethod, from);
        }
        if out {
          hit, dataAt, rawAt := Lookup(block);
          if !hit {
            NoBlocks(old(held), sectorNo, memory, es);
            return Aborted, memory, es;
          }
        }
      }
      if out {
        r := Found(dataAt + sectorNo % 16 * SECTOR, rawAt + sectorNo % 16 * RAW_SECTOR);
        if from <= sectorNo {
          SectorShown(sectorNo, from, r);
        }
      } else {
        r := Failed;
      }
    }

    lemma NoBlocks(was: map<nat, Entry>, sectorNo: nat, memory: seq<byte>, es: seq<Entry>)
      requires Delivered(was, held, sectorNo, memory, es) && es == []
      ensures held == was
    {
      hide AllUnscrambled;
      assert forall b :: b in held <==> b in was;
    }

    lemma NothingPresent(block: nat)
      requires Valid(0) && held == map[] && block < INVALID
      ensures !Present(block)
    {
      hide Slot;
      var p := Slot(block, cacheSize);
      assert TagTrue(Mem(), held, 0, p);
    }

    /** The result points at the sector in the slot of its block. */
    ghost predicate Points(r: Outcome, sectorNo: nat)
      requires Allocated() && r.Found?
    {
      && r.dataAt == Slot(sectorNo / 16, cacheSize) * USER_BLOCK + sectorNo % 16 * SECTOR
      && r.rawAt == Slot(sectorNo / 16, cacheSize) * RAW_BLOCK + sectorNo % 16 * RAW_SECTOR
      && r.dataAt + SECTOR <= cache.Length && r.rawAt + RAW_SECTOR <= rawCache.Length
    }

    /** What it points at is the sector of the block last cached. */
    ghost predicate Shows(r: Outcome, sectorNo: nat)
      requires Allocated() && r.Found? && Points(r, sectorNo)
      reads this, cache, rawCache
    {
      && sectorNo / 16 in held
      && cache[r.dataAt..r.dataAt + SECTOR] == UserSector(held[sectorNo / 16], sectorNo % 16)
      && rawCache[r.rawAt..r.rawAt + RAW_SECTOR] == RawSector(held[sectorNo / 16], sectorNo % 16)
    }

    lemma SectorShown(sectorNo: nat, from: nat, r: Outcome)
      requires Valid(from) && from <= sectorNo && sectorNo / 16 < INVALID && Present(sectorNo / 16)
      requires r.Found? && Points(r, sectorNo)
      ensures Shows(r, sectorNo)
    {
      hide Slot;
      var p := Slot(sectorNo / 16, cacheSize);
      assert Mem().tags[p] == sectorNo / 16;
      assert TagTrue(Mem(), held, from, p);
      var e, k := held[sectorNo / 16], sectorNo % 16;
      assert from - 16 * (sectorNo / 16) <= k;
      assert UserSector(e, k) == Mem().data[p * USER_BLOCK + k * SECTOR..p * USER_BLOCK + k * SECTOR + SECTOR];
      assert RawSector(e, k) == Mem().raw[p * RAW_BLOCK + k * RAW_SECTOR..p * RAW_BLOCK + k * RAW_SECTOR + RAW_SECTOR];
    }

    // ---------- drives that follow a disc ----------

    /** A cached block that comes from unscrambling the disc's own frames of that block. */
    ghost predicate Genuine(disc: Surface, b: nat, c: Entry) {
      exists e :: Unscrambled(16 * b, Frames(disc, 16 * b, 16), e) && c == Cached(kind, e)
    }

    /** Past the end of the disc anything may be cached. */
    ghost predicate AllGenuine(disc: Surface, blocks: map<nat, Entry>) {
      forall b :: b in blocks && 16 * b < sectorsNo ==> Genuine(disc, b, blocks[b])
    }

    /** The drive follows a disc as far as the read method in use needs it. */
    ghost predicate FollowsDisc(disc: Surface)
      reads this`readMethod, this`secMem
    {
      Follows(drive, disc, readMethod, secMem, EndOf(sectorsNo))
    }

    /** Whatever the method, the frames behind a read are those of the disc, up to its end. */
    lemma FramesReadAreFrames(disc: Surface, sectorNo: nat, memory: seq<byte>, n: nat, k: nat)
      requires FollowsDisc(disc) && Planned() && FramesRead(sectorNo, memory, n) && k < n
      requires sectorNo + 16 * (k + 1) <= EndOf(sectorsNo)
      ensures (k + 1) * RAW_BLOCK <= |memory| && BlockAt(memory, k) == Frames(disc, sectorNo + 16 * k, 16)
    {
      hide Holds, HandsOver, Frames, PassBytes, RebuiltAll, Blocks, EndOf;
      BlocksFit();
      var end, m := EndOf(sectorsNo), 16 * (k + 1);
      if readMethod <= 6 && memory == PassBytes(drive, sectorNo, secMem, maxCnt + 1) && n == maxBlk {
        Associate(maxCnt + 1, secMem);
        PassesAreFrames(drive, disc, secMem, end, sectorNo, secMem, maxCnt + 1, m);
      } else if readMethod <= 6 {
        RamIsFrames(drive, disc, secMem, end, sectorNo, 16);
        assert memory[..m * RAW_SECTOR] == memory;
      } else {
        HitachiPrefix(disc, sectorNo, n, k + 1, memory);
      }
      FramesSlice(disc, sectorNo, m, 16 * k, 16);
      assert BlockAt(memory, k) == memory[..m * RAW_SECTOR][16 * k * RAW_SECTOR..m * RAW_SECTOR];
    }

    lemma HitachiPrefix(disc: Surface, sectorNo: nat, n: nat, k: nat, memory: seq<byte>)
      requires FollowsDisc(disc) && 7 <= readMethod && k <= n <= 5 && sectorNo + 16 * k <= EndOf(sectorsNo)
      requires memory == HitachiFrames(sectorNo, readMethod, n)
      ensures 16 * k * RAW_SECTOR <= |memory| && memory[..16 * k * RAW_SECTOR] == Frames(disc, sectorNo, 16 * k)
    {
      hide Holds, HandsOver, Frames, RebuiltAll, EndOf;
      var end := EndOf(sectorsNo);
      HitachiLength(sectorNo, readMethod, n);
      if readMethod == 7 {
        RamPrefix(drive, sectorNo, k * RAW_BLOCK, n * RAW_BLOCK);
        RamIsFrames(drive, disc, 80, end, sectorNo, 16 * k);
      } else {
        RebuiltPrefix(drive, sectorNo, k, n);
        RebuiltAreFrames(drive, disc, end, sectorNo, k);
      }
    }

    /** A read at a block boundary of a drive that follows a disc caches only blocks of that disc. */
    lemma GenuineStays(disc: Surface, was: map<nat, Entry>, sectorNo: nat, memory: seq<byte>, es: seq<Entry>)
      requires FollowsDisc(disc) && Planned() && sectorNo % 16 == 0
      requires Delivered(was, held, sectorNo, memory, es) && FramesRead(sectorNo, memory, |es|)
      requires AllGenuine(disc, was)
      ensures AllGenuine(disc, held)
    {
      hide FollowsDisc, FramesRead, Unscrambled, Cached, EndOf;
      var start := sectorNo / 16;
      forall b | b in held && 16 * b < sectorsNo
        ensures Genuine(disc, b, held[b])
      {
        if start <= b < start + |es| {
          var k := b - start;
          BlockBeforeEnd(sectorsNo, b);
          FramesReadAreFrames(disc, sectorNo, memory, |es|, k);
          assert Unscrambled(sectorNo + 16 * (0 + k), BlockAt(memory, 0 + k), es[k]);
          assert sectorNo + 16 * k == 16 * b;
          assert held[b] == Cached(kind, es[b - start]);
        } else {
          assert b in was && held[b] == was[b];
        }
      }
    }
  }
  /** On a drive that answers every command the assertion does fail, for every sector past the end. */
  method PastEndAborts(m: nat, sectorsNo: nat, sectorNo: nat) returns (r: Outcome)
    requires 7 <= m <= 9 && sectorsNo <= sectorNo < 0xf000_0000
    ensures r.Aborted?
  {
    var drive := new D.Drive((s, o) => 0, (s, o) => 0, n => true, n => 0, (n, o) => 0);
    var d := new Disc(drive, Dvd, sectorsNo, (t, s, raw) => None, MINIMUM_SIZE);
    d.InitRange(16, 16);
    d.SetReadMethod(m, 0);
    d.NothingPresent(sectorNo / 16);
    assert drive.answer(ReadCommand(m, 0, drive.commands));
    ghost var memory, es;
    r, memory, es := d.ReadSector(sectorNo, 0);
  }
}
