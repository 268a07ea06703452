/** The dumper: output files that can be resumed, and the dump loop over buffers that lie in the disc's cache. */
module Dumper {
  import opened Attempts
  import opened Bytes
  import opened Words
  import opened Geometry
  import opened Cache
  import opened Faithful
  import opened Runs
  import opened Streams
  import opened Slices
  import opened Wrappers
  import Disc
  import M = Multihash

  const NO_SECTOR: word := 0xffff_ffff
  const NO_DIGESTS := M.Digests(0, [], [], [], [])

  /** The sector an existing file of that many bytes is resumed at, in 32 bits: whole blocks only. */
  function StartOf(filesize: nat, sectorSize: nat): (s: word)
    requires sectorSize > 0
    ensures s % 16 == 0 && s * sectorSize <= filesize
  {
    var blocks := filesize / sectorSize / 16;
    StartFits(filesize, sectorSize);
    Wrap(Wrap(blocks) * 16)
  }

  lemma StartFits(filesize: nat, sectorSize: nat)
    requires sectorSize > 0
    ensures var s := Wrap(Wrap(filesize / sectorSize / 16) * 16); s % 16 == 0 && s * sectorSize <= filesize
  {
    var sectors := filesize / sectorSize;
    WrapSixteen(sectors / 16);
    Monotonic(Wrap(Wrap(sectors / 16) * 16), sectors, sectorSize);
    FloorBelow(filesize, sectorSize);
  }

  lemma WrapSixteen(blocks: nat)
    ensures var s := Wrap(Wrap(blocks) * 16); s % 16 == 0 && s <= 16 * blocks
  {
    var low := blocks % WORD;
    WrapBelow(blocks);
    var q := low * 16 / WORD;
    assert low * 16 % WORD == 16 * (low - 0x1000_0000 * q);
  }

  lemma WrapBelow(x: nat)
    ensures x % WORD <= x
  {
  }

  lemma FloorBelow(n: nat, k: nat)
    requires k > 0
    ensures n / k * k <= n
  {
  }

  class Dumper {
    const dsk: Disc.Disc
    const hashing: bool
    /** How much the file system takes of each write to the two outputs. */
    const rawTaken: nat -> nat
    const isoTaken: nat -> nat
    /** The raw output: whether a file was named, and what is on the disk under that name. */
    var rawNamed: bool
    var rawOnDisk: Option<seq<byte>>
    var startSectorRaw: word
    var fpRaw: Stream?
    var isoNamed: bool
    var isoOnDisk: Option<seq<byte>>
    var startSectorIso: word
    var fpIso: Stream?
    var startSector: word
    var hashRaw: M.Multihash
    var hashIso: M.Multihash

    /** dumper_new and dumper_set_hashing. */
    constructor (d: Disc.Disc, hashing: bool, rawTaken: nat -> nat, isoTaken: nat -> nat)
      ensures this.rawTaken == rawTaken && this.isoTaken == isoTaken
      ensures dsk == d && this.hashing == hashing && !rawNamed && !isoNamed && fpRaw == null && fpIso == null
      ensures rawOnDisk == None == isoOnDisk
    {
      hide M.Multihash.Valid;
      dsk := d;
      this.hashing, this.rawTaken, this.isoTaken := hashing, rawTaken, isoTaken;
      rawNamed, isoNamed := false, false;
      rawOnDisk, isoOnDisk := None, None;
      startSectorRaw, startSectorIso, startSector := 0, 0, 0;
      fpRaw, fpIso := null, null;
      hashRaw := new M.Multihash();
      hashIso := new M.Multihash();
    }

    /** A named file can be resumed at its start sector. */
    ghost predicate Resumable()
      reads this
    {
      && (rawNamed ==> startSectorRaw % 16 == 0 && startSectorRaw * RAW_SECTOR <= Size(rawOnDisk))
      && (isoNamed ==> startSectorIso % 16 == 0 && startSectorIso * SECTOR <= Size(isoOnDisk))
    }

    function Size(file: Option<seq<byte>>): nat {
      if file.Some? then |file.value| else 0
    }

    /** dumper_set_raw_output_file. */
    method SetRawOutputFile(named: bool, onDisk: Option<seq<byte>>, resume: bool) returns (out: bool)
      requires Resumable()
      modifies this`rawNamed, this`rawOnDisk, this`startSectorRaw
      ensures Resumable()
      ensures out <==> !named || (!old(rawNamed) && (onDisk == None || resume))
      ensures named && out ==> rawNamed && rawOnDisk == onDisk && startSectorRaw == StartOf(Size(onDisk), RAW_SECTOR)
      ensures named && !out ==> rawNamed == old(rawNamed)
      ensures !named ==> !rawNamed && startSectorRaw == NO_SECTOR && rawOnDisk == old(rawOnDisk)
    {
      if !named {
        out := true;
        startSectorRaw := NO_SECTOR;
        rawNamed := false;
      } else if rawNamed {
        out := false;
      } else if onDisk == None {
        out := true;
        startSectorRaw := 0;
        rawNamed, rawOnDisk := true, onDisk;
      } else if resume {
        out := true;
        startSectorRaw := StartOf(|onDisk.value|, RAW_SECTOR);
        rawNamed, rawOnDisk := true, onDisk;
      } else {
        out := false;
        startSectorRaw := NO_SECTOR;
        rawNamed := false;
      }
    }

    /** dumper_set_iso_output_file. */
    method SetIsoOutputFile(named: bool, onDisk: Option<seq<byte>>, resume: bool) returns (out: bool)
      requires Resumable()
      modifies this`isoNamed, this`isoOnDisk, this`startSectorIso
      ensures Resumable()
      ensures out <==> !named || (!old(isoNamed) && (onDisk == None || resume))
      ensures named && out ==> isoNamed && isoOnDisk == onDisk && startSectorIso == StartOf(Size(onDisk), SECTOR)
      ensures named && !out ==> isoNamed == old(isoNamed)
      ensures !named ==> !isoNamed && startSectorIso == NO_SECTOR && isoOnDisk == old(isoOnDisk)
    {
      if !named {
        out := true;
        startSectorIso := NO_SECTOR;
        isoNamed := false;
      } else if isoNamed {
        out := false;
      } else if onDisk == None {
        out := true;
        startSectorIso := 0;
        isoNamed, isoOnDisk := true, onDisk;
      } else if resume {
        out := true;
        startSectorIso := StartOf(|onDisk.value|, SECTOR);
        isoNamed, isoOnDisk := true, onDisk;
      } else {
        out := false;
        startSectorIso := NO_SECTOR;
        isoNamed := false;
      }
    }

    function Content(file: Option<seq<byte>>): seq<byte> {
      if file.Some? then file.value else []
    }

    /** What of a file survives resuming at a sector. */
    ghost function Kept(file: Option<seq<byte>>, sector: nat, sectorSize: nat): seq<byte> {
      if sector * sectorSize <= Size(file) then Content(file)[..sector * sectorSize] else Content(file)
    }

    /** Opens one output: hashes what is kept of it, seeks in 32 bits, truncates. */
    method OpenOutput(file: Option<seq<byte>>, sectorSize: nat, hash: M.Multihash, fails: bool, taken: nat -> nat)
      returns (fp: Stream?)
      requires 0 < sectorSize < 0x8000 && startSector * sectorSize <= Size(file)
      requires hash.Valid() && hash.message == [] && this !in hash.repr
      modifies hash.repr
      ensures fp == null <==> fails
      ensures fp != null ==> fresh(fp) && fp.content == Kept(file, startSector, sectorSize)
      ensures fp != null ==> fp.writes == 0 && fp.taken == taken
      ensures hash.Valid() && hash.message == if hashing then Kept(file, startSector, sectorSize) else []
    {
      hide M.Multihash.Valid, Kept;
      fp := new Stream(Content(file), taken);
      if hashing {
        HashKept(file, sectorSize, hash, fp);
      }
      CloseUp(file, sectorSize, fp);
      if fails {
        fp := null;
      }
    }

    method CloseUp(file: Option<seq<byte>>, sectorSize: nat, fp: Stream)
      requires startSector * sectorSize <= Size(file) && fp.content == Content(file) && fp as object != this
      modifies fp
      ensures fp.content == Kept(file, startSector, sectorSize) && fp.writes == old(fp.writes)
    {
      fp.Seek(Wrap(startSector * sectorSize));
      fp.Truncate(startSector * sectorSize);
    }

    /** The loop that hashes the sectors already in a file; the item count it asserts at the end is positive. */
    method HashKept(file: Option<seq<byte>>, sectorSize: nat, hash: M.Multihash, fp: Stream)
      requires 0 < sectorSize < 0x8000 && startSector * sectorSize <= Size(file)
      requires hash.Valid() && hash.message == [] && fp !in hash.repr && this !in hash.repr
      requires fp.content == Content(file) && fp.pos == 0
      modifies hash.repr, fp`pos
      ensures hash.Valid() && hash.message == Kept(file, startSector, sectorSize)
    {
      hide M.Multihash.Valid;
      var buf := new byte[sectorSize](i => 0);
      ghost var was := Content(file);
      var i, r := 0, 1;
      OneMore(0, sectorSize);
      while i < startSector && r > 0
        invariant i <= startSector && r > 0 && hash.Valid()
        invariant fp.content == was && fp.pos == i * sectorSize <= |was|
        invariant hash.message == was[..fp.pos]
      {
        OneMore(i, sectorSize);
        Monotonic(i + 1, startSector, sectorSize);
        r := HashItem(buf, sectorSize, hash, fp);
        i := i + 1;
      }
    }

    method HashItem(buf: array<byte>, n: nat, hash: M.Multihash, fp: Stream) returns (r: nat)
      requires 0 < n < 0x8000 && buf.Length == n && fp.pos + n <= |fp.content|
      requires hash.Valid() && fp !in hash.repr && buf !in hash.repr && hash.message == fp.content[..fp.pos]
      modifies hash.repr, fp`pos, buf
      ensures r == 1 && fp.pos == old(fp.pos) + n
      ensures hash.Valid() && hash.message == fp.content[..fp.pos]
    {
      hide M.Multihash.Valid;
      ghost var at, was := fp.pos, fp.content;
      r := fp.ReadItem(buf, n);
      assert buf[0..0 + n] == was[at..at + n];
      assert was[..at + n] == was[..at] + was[at..at + n];
      hash.Update(buf, 0, n);
    }

    /** Disc, hashes and files share no memory. */
    ghost predicate Apart()
      reads this
    {
      && this !in dsk.Repr() + hashRaw.repr + hashIso.repr
      && dsk.Repr() !! hashRaw.repr !! hashIso.repr && hashRaw in hashRaw.repr && hashIso in hashIso.repr
      && (fpRaw != null ==> fpRaw !in dsk.Repr() + hashRaw.repr + hashIso.repr)
      && (fpIso != null ==> fpIso !in dsk.Repr() + hashRaw.repr + hashIso.repr)
      && (fpRaw != null ==> fpRaw != fpIso)
    }

    /** The sector a dump starts at: the smaller one if there are two outputs. */
    ghost function Start(): word
      reads this
    {
      if rawNamed && isoNamed then if startSectorRaw < startSectorIso then startSectorRaw else startSectorIso
      else if rawNamed then startSectorRaw
      else startSectorIso
    }

    /** Resuming both outputs starts from the one with the least sectors. */
    method ChooseStart()
      requires Resumable() && (rawNamed || isoNamed)
      modifies this`startSector
      ensures startSector == Start() && startSector % 16 == 0
      ensures rawNamed ==> startSector * RAW_SECTOR <= Size(rawOnDisk)
      ensures isoNamed ==> startSector * SECTOR <= Size(isoOnDisk)
    {
      if rawNamed && isoNamed && startSectorRaw != startSectorIso {
        startSector := if startSectorRaw < startSectorIso then startSectorRaw else startSectorIso;
      } else if rawNamed {
        startSector := startSectorRaw;
      } else {
        startSector := startSectorIso;
      }
    }

    /** The two multihash_init calls. */
    method InitHashes() returns (h1: M.Multihash, h2: M.Multihash)
      requires this !in dsk.Repr()
      ensures fresh(h1.repr) && fresh(h2.repr) && dsk.Repr() !! h1.repr !! h2.repr && this !in h1.repr + h2.repr
      ensures h1 in h1.repr && h2 in h2.repr && h1.Valid() && h2.Valid() && h1.message == [] == h2.message
    {
      hide M.Multihash.Valid, Disc.Disc.Repr;
      DiscAllocated();
      h1 := new M.Multihash();
      ReprAllocated(h1);
      InRepr(h1);
      h2 := new M.Multihash();
      ReprAllocated(h2);
      InRepr(h2);
    }

    /** dumper_prepare. A failure to set up the raw output goes unreported if the ISO output is set up after it. */
    method Prepare(rawFails: bool, isoFails: bool) returns (out: bool)
      requires Resumable() && (rawNamed || isoNamed) && this !in dsk.Repr()
      modifies this
      ensures Apart() && startSector == old(Start()) && startSector % 16 == 0
      ensures fresh(hashRaw.repr) && fresh(hashIso.repr)
      ensures (fpRaw != null ==> fresh(fpRaw)) && (fpIso != null ==> fresh(fpIso))
      ensures rawNamed == old(rawNamed) && isoNamed == old(isoNamed) && rawOnDisk == old(rawOnDisk)
      ensures isoOnDisk == old(isoOnDisk)
      ensures out <==> if isoNamed then !isoFails else !rawFails
      ensures (fpRaw != null <==> rawNamed && !rawFails) && (fpIso != null <==> isoNamed && !isoFails)
      ensures rawNamed ==> startSector * RAW_SECTOR <= Size(rawOnDisk)
      ensures isoNamed ==> startSector * SECTOR <= Size(isoOnDisk)
      ensures fpRaw != null ==> fpRaw.content == Kept(rawOnDisk, startSector, RAW_SECTOR)
      ensures fpRaw != null ==> fpRaw.writes == 0 && fpRaw.taken == rawTaken
      ensures fpIso != null ==> fpIso.content == Kept(isoOnDisk, startSector, SECTOR)
      ensures fpIso != null ==> fpIso.writes == 0 && fpIso.taken == isoTaken
      ensures hashRaw.Valid() && hashIso.Valid()
      ensures hashing && fpRaw != null ==> hashRaw.message == fpRaw.content
      ensures hashing && fpIso != null ==> hashIso.message == fpIso.content
    {
      hide M.Multihash.Valid, Kept, Size, Resumable;
      ChooseStart();
      var h1, h2 := InitHashes();
      hashRaw, hashIso, fpRaw, fpIso := h1, h2, null, null;
      out := SetupFiles(rawFails, isoFails);
    }

    /** The outputs that are named, the raw one first. */
    method SetupFiles(rawFails: bool, isoFails: bool) returns (out: bool)
      requires Apart() && hashRaw.Valid() && hashIso.Valid() && hashRaw.message == [] == hashIso.message
      requires fpRaw == null == fpIso && (rawNamed || isoNamed)
      requires rawNamed ==> startSector * RAW_SECTOR <= Size(rawOnDisk)
      requires isoNamed ==> startSector * SECTOR <= Size(isoOnDisk)
      modifies this`fpRaw, this`fpIso, hashRaw.repr, hashIso.repr
      ensures Apart() && hashRaw.Valid() && hashIso.Valid()
      ensures (fpRaw != null ==> fresh(fpRaw)) && (fpIso != null ==> fresh(fpIso))
      ensures out <==> if isoNamed then !isoFails else !rawFails
      ensures (fpRaw != null <==> rawNamed && !rawFails) && (fpIso != null <==> isoNamed && !isoFails)
      ensures fpRaw != null ==> fpRaw.content == Kept(rawOnDisk, startSector, RAW_SECTOR)
      ensures fpRaw != null ==> fpRaw.writes == 0 && fpRaw.taken == rawTaken
      ensures fpIso != null ==> fpIso.content == Kept(isoOnDisk, startSector, SECTOR)
      ensures fpIso != null ==> fpIso.writes == 0 && fpIso.taken == isoTaken
      ensures hashing && fpRaw != null ==> hashRaw.message == fpRaw.content
      ensures hashing && fpIso != null ==> hashIso.message == fpIso.content
    {
      hide M.Multihash.Valid, Kept, Size, Disc.Disc.Repr;
      out := true;
      if rawNamed {
        SetupRaw(rawFails);
        out := fpRaw != null;
      }
      if isoNamed {
        SetupIso(isoFails);
        out := fpIso != null;
      }
    }

    method SetupRaw(fails: bool)
      requires Apart() && hashRaw.Valid() && hashRaw.message == [] && fpRaw == null
      requires startSector * RAW_SECTOR <= Size(rawOnDisk)
      modifies this`fpRaw, hashRaw.repr
      ensures Apart() && hashRaw.Valid() && (fpRaw == null <==> fails) && (fpRaw != null ==> fresh(fpRaw))
      ensures fpRaw != null ==> fpRaw.content == Kept(rawOnDisk, startSector, RAW_SECTOR)
      ensures fpRaw != null ==> fpRaw.writes == 0 && fpRaw.taken == rawTaken
      ensures hashing && fpRaw != null ==> hashRaw.message == fpRaw.content
    {
      hide M.Multihash.Valid, Kept, Size, Disc.Disc.Repr;
      DiscAllocated();
      ReprAllocated(hashIso);
      ReprAllocated(hashRaw);
      fpRaw := OpenOutput(rawOnDisk, RAW_SECTOR, hashRaw, fails, rawTaken);
    }

    method SetupIso(fails: bool)
      requires Apart() && hashIso.Valid() && hashIso.message == [] && fpIso == null
      requires startSector * SECTOR <= Size(isoOnDisk)
      modifies this`fpIso, hashIso.repr
      ensures Apart() && hashIso.Valid() && (fpIso == null <==> fails) && (fpIso != null ==> fresh(fpIso))
      ensures fpIso != null ==> fpIso.content == Kept(isoOnDisk, startSector, SECTOR)
      ensures fpIso != null ==> fpIso.writes == 0 && fpIso.taken == isoTaken
      ensures hashing && fpIso != null ==> hashIso.message == fpIso.content
    {
      hide M.Multihash.Valid, Kept, Size, Disc.Disc.Repr;
      DiscAllocated();
      ReprAllocated(hashIso);
      ReprAllocated(hashRaw);
      fpIso := OpenOutput(isoOnDisk, SECTOR, hashIso, fails, isoTaken);
    }

    lemma DiscAllocated()
      ensures allocated(dsk.Repr())
    {
    }

    lemma ReprAllocated(h: M.Multihash)
      ensures allocated(h.repr)
    {
    }

    lemma InRepr(h: M.Multihash)
      requires h.Valid()
      ensures h in h.repr
    {
    }

    // ---------- the dump loop ----------

    /** Writes a raw sector from the cache, then hashes it where it lies; not if the write fails. */
    method OutputRaw(i: nat, r: Disc.Outcome) returns (ok: bool)
      requires Apart() && fpRaw != null && hashRaw.Valid()
      requires dsk.Allocated() && r.Found? && dsk.Points(r, i) && dsk.Shows(r, i)
      modifies fpRaw, hashRaw.repr, dsk.rawCache
      ensures ok == Written(fpRaw, old(fpRaw.writes), RAW_SECTOR) && fpRaw.writes == old(fpRaw.writes) + 1
      ensures fpRaw.content == old(fpRaw.content) + Part(RawOf(dsk.held, i), fpRaw.taken(old(fpRaw.writes)))
      ensures hashRaw.Valid()
      ensures hashRaw.message == old(hashRaw.message) + if hashing && ok then RawOf(dsk.held, i) else []
      ensures forall p :: 0 <= p < r.rawAt || r.rawAt + RAW_SECTOR <= p < dsk.rawCache.Length ==>
                dsk.rawCache[p] == old(dsk.rawCache[p])
    {
      hide M.Multihash.Valid;
      ok := fpRaw.Append(dsk.rawCache, r.rawAt, RAW_SECTOR);
      if hashing && ok {
        hashRaw.Update(dsk.rawCache, r.rawAt, RAW_SECTOR);
      }
    }

    /** The same for the ISO output, which is written even if the raw one failed, but then not hashed. */
    method OutputIso(i: nat, r: Disc.Outcome, out: bool) returns (ok: bool)
      requires Apart() && fpIso != null && hashIso.Valid()
      requires dsk.Allocated() && r.Found? && r.dataAt + SECTOR <= dsk.cache.Length && i / 16 in dsk.held
      requires dsk.cache[r.dataAt..r.dataAt + SECTOR] == UserSector(dsk.held[i / 16], i % 16)
      modifies fpIso, hashIso.repr, dsk.cache
      ensures ok == (out && Written(fpIso, old(fpIso.writes), SECTOR)) && fpIso.writes == old(fpIso.writes) + 1
      ensures fpIso.content == old(fpIso.content) + Part(UserOf(dsk.held, i), fpIso.taken(old(fpIso.writes)))
      ensures hashIso.Valid()
      ensures hashIso.message == old(hashIso.message) + if hashing && ok then UserOf(dsk.held, i) else []
      ensures forall p :: 0 <= p < r.dataAt || r.dataAt + SECTOR <= p < dsk.cache.Length ==>
                dsk.cache[p] == old(dsk.cache[p])
    {
      hide M.Multihash.Valid;
      ok := fpIso.Append(dsk.cache, r.dataAt, SECTOR);
      ok := ok && out;
      if hashing && ok {
        hashIso.Update(dsk.cache, r.dataAt, SECTOR);
      }
    }

    /** The n-th write to an output is taken whole; there is none without a file. */
    ghost predicate Written(fp: Stream?, n: nat, size: nat) {
      fp == null || fp.taken(n) >= size
    }

    /** Both outputs of a sector found. What hashing destroys is this sector alone. */
    method Output(i: nat, r: Disc.Outcome) returns (ok: bool)
      requires Apart() && hashRaw.Valid() && hashIso.Valid()
      requires dsk.Valid(i) && i / 16 < INVALID && r.Found? && dsk.Present(i / 16) && dsk.Points(r, i)
      requires dsk.Shows(r, i)
      modifies fpRaw, fpIso, hashRaw.repr, hashIso.repr, dsk.cache, dsk.rawCache
      ensures fpRaw == old(fpRaw) && fpIso == old(fpIso) && hashRaw == old(hashRaw) && hashIso == old(hashIso)
      ensures dsk.Valid(i + 1) && hashRaw.Valid() && hashIso.Valid()
      ensures var rawOk := fpRaw == null || Written(fpRaw, old(fpRaw.writes), RAW_SECTOR);
              && ok == (rawOk && (fpIso == null || Written(fpIso, old(fpIso.writes), SECTOR)))
              && (fpRaw != null ==>
                    && fpRaw.writes == old(fpRaw.writes) + 1
                    && fpRaw.content == old(fpRaw.content) + Part(RawOf(dsk.held, i), fpRaw.taken(old(fpRaw.writes))))
              && (fpIso != null ==>
                    && fpIso.writes == old(fpIso.writes) + 1
                    && fpIso.content == old(fpIso.content) + Part(UserOf(dsk.held, i), fpIso.taken(old(fpIso.writes))))
              && (hashing && fpRaw != null ==>
                    hashRaw.message == old(hashRaw.message) + if rawOk then RawOf(dsk.held, i) else [])
              && (hashing && fpIso != null ==>
                    hashIso.message == old(hashIso.message) + if ok then UserOf(dsk.held, i) else [])
    {
      hide M.Multihash.Valid, Intact, RawSector, UserSector, RawOf, UserOf, Part;
      ghost var m := dsk.Mem();
      ok := true;
      if fpRaw != null {
        ok := OutputRaw(i, r);
      }
      if fpIso != null {
        ok := OutputIso(i, r, ok);
      }
      MemShaped(m, dsk.held, i);
      assert OnlySector(m, dsk.Mem(), Slot(i / 16, dsk.cacheSize), i % 16);
      PassedOver(m, dsk.Mem(), dsk.held, i);
    }

    /** What the loop relies on before sector i. */
    ghost predicate Running(i: nat)
      reads this, dsk, dsk.cache, dsk.rawCache, dsk.cacheMap
    {
      Apart() && dsk.Valid(i) && dsk.Planned() && dsk.sectorsNo < 0xf000_0000 && (i % 16 != 0 ==> dsk.Present(i / 16))
    }

    lemma AgreeItself(h: map<nat, Entry>, i: nat)
      ensures Agree(h, h, 0, i)
    {
    }

    /** A read at a block boundary leaves the blocks before it alone. */
    lemma EarlierKept(was: map<nat, Entry>, i: nat, memory: seq<byte>, es: seq<Entry>)
      requires i % 16 == 0 && dsk.Delivered(was, dsk.held, i, memory, es)
      ensures Agree(was, dsk.held, 0, i)
    {
      forall s: nat | 0 <= s < i
        ensures RawOf(was, s) == RawOf(dsk.held, s) && UserOf(was, s) == UserOf(dsk.held, s)
      {
        assert s / 16 < i / 16;
      }
    }

    /** A read of sector i by command n and trial t succeeds. */
    ghost predicate Readable(i: nat, n: nat, t: nat)
      reads dsk`readMethod, dsk`secMem, dsk`maxCnt, dsk`maxBlk
    {
      Reading(dsk.Origin(), i, dsk.Settings(dsk.readMethod), n, t).ok
    }

    /** Some read of sector i that comes no earlier than command n and trial t fails. */
    ghost predicate Unreadable(i: nat, n: nat, t: nat)
      reads dsk`readMethod, dsk`secMem, dsk`maxCnt, dsk`maxBlk
    {
      exists n': nat, t': nat :: n <= n' && t <= t' && !Readable(i, n', t')
    }

    /** A working drive has no unreadable sector. */
    lemma NoneUnreadable(surface: Surface, i: nat, n: nat, t: nat)
      requires Working(dsk.Origin(), dsk.readMethod, surface, n, t) && i % 16 == 0 && i < dsk.sectorsNo
      ensures !Unreadable(i, n, t)
    {
      hide Working, Reading;
      forall n': nat, t': nat | n <= n' && t <= t'
        ensures Readable(i, n', t')
      {
        StillWorking(dsk.Origin(), dsk.readMethod, surface, n, t, n', t');
        ReadsWork(dsk.Origin(), surface, i, dsk.Settings(dsk.readMethod), n', t');
      }
    }

    /** The read of the dump loop. */
    method Fetch(i: nat, ghost surface: Surface) returns (r: Disc.Outcome)
      requires Running(i) && i < dsk.sectorsNo
      modifies dsk`held, dsk`trials, dsk.drive, dsk.cache, dsk.rawCache, dsk.cacheMap, dsk.buf, dsk.bufUnscrambled
      ensures r.Found? <==> old(dsk.Present(i / 16)) || Readable(i, old(dsk.drive.commands), old(dsk.trials))
      ensures dsk.drive.commands >= old(dsk.drive.commands) && dsk.trials >= old(dsk.trials)
      ensures Agree(old(dsk.held), dsk.held, 0, i) && (!r.Found? ==> dsk.held == old(dsk.held) && i % 16 == 0)
      ensures dsk.Valid(i)
      ensures r.Found? ==> i / 16 in dsk.held && dsk.Present(i / 16) && dsk.Points(r, i) && dsk.Shows(r, i)
      ensures dsk.FollowsDisc(surface) && dsk.AllGenuine(surface, old(dsk.held)) ==>
                dsk.AllGenuine(surface, dsk.held)
    {
      hide Intact, RawSector, UserSector, RawOf, UserOf, Disc.Disc.FollowsDisc, Disc.Disc.AllGenuine, Agree;
      hide Disc.Disc.Delivered, Disc.Disc.FramesRead, Reading;
      ghost var was := dsk.held;
      ghost var hit := dsk.Present(i / 16);
      AgreeItself(was, i);
      ghost var memory, es;
      r, memory, es := dsk.ReadSector(i, i);
      if r.Found? && !hit {
        EarlierKept(was, i, memory, es);
        if dsk.FollowsDisc(surface) && dsk.AllGenuine(surface, was) {
          dsk.GenuineStays(surface, was, i, memory, es);
        }
      }
    }

    /** One sector of the dump loop: it fails if the sector is not found, or is not written to all outputs. */
    method DumpSector(i: nat, ghost surface: Surface) returns (ok: bool, ghost found: bool)
      requires Running(i) && i < dsk.sectorsNo && hashRaw.Valid() && hashIso.Valid() && (fpRaw != null || fpIso != null)
      modifies fpRaw, fpIso, hashRaw.repr, hashIso.repr, dsk`held, dsk`trials, dsk.drive
      modifies dsk.cache, dsk.rawCache, dsk.cacheMap, dsk.buf, dsk.bufUnscrambled
      ensures fpRaw == old(fpRaw) && fpIso == old(fpIso) && hashRaw == old(hashRaw) && hashIso == old(hashIso)
      ensures found <==> old(dsk.Present(i / 16)) || Readable(i, old(dsk.drive.commands), old(dsk.trials))
      ensures dsk.drive.commands >= old(dsk.drive.commands) && dsk.trials >= old(dsk.trials)
      ensures (found ==> i / 16 in dsk.held) && (ok ==> Running(i + 1))
      ensures hashRaw.Valid() && hashIso.Valid()
      ensures Agree(old(dsk.held), dsk.held, 0, i) && (!found ==> dsk.held == old(dsk.held) && i % 16 == 0)
      ensures var rawOk := fpRaw == null || Written(fpRaw, old(fpRaw.writes), RAW_SECTOR);
              && ok == (found && rawOk && (fpIso == null || Written(fpIso, old(fpIso.writes), SECTOR)))
              && (fpRaw != null ==>
                    && fpRaw.writes == old(fpRaw.writes) + (if found then 1 else 0)
                    && fpRaw.content == old(fpRaw.content)
                         + (if found then Part(RawOf(dsk.held, i), fpRaw.taken(old(fpRaw.writes))) else []))
              && (fpIso != null ==>
                    && fpIso.writes == old(fpIso.writes) + (if found then 1 else 0)
                    && fpIso.content == old(fpIso.content)
                         + (if found then Part(UserOf(dsk.held, i), fpIso.taken(old(fpIso.writes))) else []))
              && (hashing && fpRaw != null ==>
                    hashRaw.message == old(hashRaw.message) + if found && rawOk then RawOf(dsk.held, i) else [])
              && (hashing && fpIso != null ==>
                    hashIso.message == old(hashIso.message) + if ok then UserOf(dsk.held, i) else [])
      ensures dsk.FollowsDisc(surface) && dsk.AllGenuine(surface, old(dsk.held)) ==>
                dsk.AllGenuine(surface, dsk.held)
    {
      hide M.Multihash.Valid, Intact, RawSector, UserSector, RawOf, UserOf, Disc.Disc.FollowsDisc, Disc.Disc.AllGenuine;
      hide Agree, Readable, Disc.Disc.Points, Disc.Disc.Shows, Disc.Disc.Planned, Part, Written;
      var r := Fetch(i, surface);
      found := r.Found?;
      ok := false;
      if r.Found? {
        ok := Output(i, r);
      }
    }

    /** Sector i is written to all outputs: one write a sector. */
    ghost predicate SectorWritten(i: nat)
      requires startSector <= i
      reads this`startSector, this`fpRaw, this`fpIso
    {
      Written(fpRaw, i - startSector, RAW_SECTOR) && Written(fpIso, i - startSector, SECTOR)
    }

    /** Why a dump stops at a sector: it is found but not written to all outputs, or begins a block that is not read. */
    ghost predicate Stuck(i: nat, found: bool, n: nat, t: nat)
      requires startSector <= i
      reads this`startSector, this`fpRaw, this`fpIso, dsk`readMethod, dsk`secMem, dsk`maxCnt, dsk`maxBlk, dsk`held
    {
      if found then i / 16 in dsk.held && !SectorWritten(i) else i % 16 == 0 && Unreadable(i, n, t)
    }

    /** What a dump that stopped at sector i has left of it in a file. */
    ghost function Rest(fp: Stream, stopped: bool, item: seq<byte>, i: nat): seq<byte>
      requires startSector <= i
      reads this`startSector
    {
      if stopped then Part(item, fp.taken(i - startSector)) else []
    }

    /** One past the last sector a dump has written. */
    ghost function End(out: bool, current: nat): nat
      reads this
    {
      if !out then current else if startSector < dsk.sectorsNo then dsk.sectorsNo else startSector
    }

    lemma RunsGrow(was: map<nat, Entry>, now: map<nat, Entry>, a: nat, i: nat, raw: seq<byte>, iso: seq<byte>)
      requires Agree(was, now, 0, i) && a <= i
      ensures raw + RawRun(was, a, i) + RawOf(now, i) == raw + RawRun(now, a, i + 1)
      ensures iso + UserRun(was, a, i) + UserOf(now, i) == iso + UserRun(now, a, i + 1)
      ensures RawRun(was, a, i) == RawRun(now, a, i) && UserRun(was, a, i) == UserRun(now, a, i)
    {
      hide RawOf, UserOf;
      RunsAgree(was, now, a, i);
    }

    lemma NoRun(h: map<nat, Entry>, a: nat)
      ensures RawRun(h, a, a) == [] == UserRun(h, a, a)
    {
    }

    lemma CoveredGrows(was: map<nat, Entry>, now: map<nat, Entry>, a: nat, i: nat)
      requires Agree(was, now, 0, i) && Covered(was, a, i)
      ensures Covered(now, a, i) && (i / 16 in now ==> Covered(now, a, i + 1))
    {
      forall s: nat | a <= s < i
        ensures s / 16 in now
      {
        assert RawOf(was, s) == RawOf(now, s) && |RawOf(was, s)| == RAW_SECTOR;
      }
    }

    /**
     * dumper_dump: each file gains the run of sectors read, in order, and if a write fails some part of the next. The
     * raw checksum is that of the sectors written whole; the ISO one leaves out the sector at which a write fails.
     */
    method Dump(ghost surface: Surface)
      returns (out: bool, current: nat, raw: M.Digests, iso: M.Digests, ghost found: bool)
      requires Running(startSector) && hashRaw.Valid() && hashIso.Valid() && (fpRaw != null || fpIso != null)
      requires fpRaw != null ==> fpRaw.writes == 0 && (hashing ==> hashRaw.message == fpRaw.content)
      requires fpIso != null ==> fpIso.writes == 0 && (hashing ==> hashIso.message == fpIso.content)
      modifies fpRaw, fpIso, hashRaw.repr, hashIso.repr, dsk`held, dsk`trials, dsk.drive
      modifies dsk.cache, dsk.rawCache, dsk.cacheMap, dsk.buf, dsk.bufUnscrambled
      ensures fpRaw == old(fpRaw) && fpIso == old(fpIso) && startSector == old(startSector) <= current
      ensures !out ==> current < dsk.sectorsNo && Stuck(current, found, old(dsk.drive.commands), old(dsk.trials))
      ensures Working(dsk.Origin(), dsk.readMethod, surface, old(dsk.drive.commands), old(dsk.trials)) ==>
                (out <==> forall i :: startSector <= i < dsk.sectorsNo ==> SectorWritten(i))
      ensures Covered(dsk.held, startSector, End(out, current))
      ensures fpRaw != null ==>
                fpRaw.content == old(fpRaw.content) + RawRun(dsk.held, startSector, End(out, current))
                  + Rest(fpRaw, !out && found, RawOf(dsk.held, current), current)
      ensures fpIso != null ==>
                fpIso.content == old(fpIso.content) + UserRun(dsk.held, startSector, End(out, current))
                  + Rest(fpIso, !out && found, UserOf(dsk.held, current), current)
      ensures hashing && fpRaw != null ==>
                raw == M.Reported(old(fpRaw.content) + RawRun(dsk.held, startSector, End(out, current))
                         + if !out && found && Written(fpRaw, current - startSector, RAW_SECTOR)
                           then RawOf(dsk.held, current) else [])
      ensures hashing && fpIso != null ==>
                iso == M.Reported(old(fpIso.content) + UserRun(dsk.held, startSector, End(out, current)))
      ensures out && hashing && fpRaw != null ==> raw == M.Reported(fpRaw.content)
      ensures out && hashing && fpIso != null ==> iso == M.Reported(fpIso.content)
      ensures dsk.FollowsDisc(surface) && dsk.AllGenuine(surface, old(dsk.held)) ==>
                dsk.AllGenuine(surface, dsk.held)
    {
      hide M.Multihash.Valid, RawRun, UserRun, Covered, Disc.Disc.FollowsDisc, Disc.Disc.AllGenuine, Running;
      hide M.Reported;
      hide Unreadable, Working, Rest, Written, RawOf, UserOf, Counted, SectorWritten;
      RunningApart(startSector);
      ghost var raw0 := if fpRaw != null then fpRaw.content else [];
      ghost var iso0 := if fpIso != null then fpIso.content else [];
      out, current, found := DumpSectors(surface);
      if out {
        Completed(current, raw0, iso0);
      }
      if !out && Working(dsk.Origin(), dsk.readMethod, surface, old(dsk.drive.commands), old(dsk.trials)) {
        if !found {
          NoneUnreadable(surface, current, old(dsk.drive.commands), old(dsk.trials));
        }
      }
      raw, iso := NO_DIGESTS, NO_DIGESTS;
      if hashing {
        raw := hashRaw.Finish();
        iso := hashIso.Finish();
      }
    }

    /** What outputs and hashes have gained before sector i, and of it if the dump stopped there. */
    ghost predicate Gained(i: nat, stopped: bool, raw: seq<byte>, iso: seq<byte>)
      requires startSector <= i
      reads this`startSector, this`fpRaw, this`fpIso, this`hashRaw, this`hashIso, dsk`held
      reads fpRaw, fpIso, hashRaw`message, hashIso`message
    {
      && (fpRaw != null ==>
            && fpRaw.content
                 == raw + RawRun(dsk.held, startSector, i) + Rest(fpRaw, stopped, RawOf(dsk.held, i), i)
            && (hashing ==>
                  hashRaw.message == raw + RawRun(dsk.held, startSector, i)
                    + if stopped && Written(fpRaw, i - startSector, RAW_SECTOR) then RawOf(dsk.held, i) else []))
      && (fpIso != null ==>
            && fpIso.content
                 == iso + UserRun(dsk.held, startSector, i) + Rest(fpIso, stopped, UserOf(dsk.held, i), i)
            && (hashing ==> hashIso.message == iso + UserRun(dsk.held, startSector, i)))
    }

    /** One write a sector so far. */
    ghost predicate Counted(i: nat)
      requires startSector <= i
      reads this`startSector, this`fpRaw, this`fpIso, fpRaw, fpIso
    {
      (fpRaw != null ==> fpRaw.writes == i - startSector) && (fpIso != null ==> fpIso.writes == i - startSector)
    }

    /** Without a failure each file is what has been hashed of it. */
    lemma Completed(i: nat, raw: seq<byte>, iso: seq<byte>)
      requires startSector <= i && Gained(i, false, raw, iso)
      ensures hashing && fpRaw != null ==> hashRaw.message == fpRaw.content
      ensures hashing && fpIso != null ==> hashIso.message == fpIso.content
    {
      hide RawRun, UserRun, RawOf, UserOf;
    }

    /** The loop of dumper_dump. */
    method DumpSectors(ghost surface: Surface) returns (out: bool, current: nat, ghost found: bool)
      requires Running(startSector) && hashRaw.Valid() && hashIso.Valid() && (fpRaw != null || fpIso != null)
      requires fpRaw != null ==> fpRaw.writes == 0 && (hashing ==> hashRaw.message == fpRaw.content)
      requires fpIso != null ==> fpIso.writes == 0 && (hashing ==> hashIso.message == fpIso.content)
      modifies fpRaw, fpIso, hashRaw.repr, hashIso.repr, dsk`held, dsk`trials, dsk.drive
      modifies dsk.cache, dsk.rawCache, dsk.cacheMap, dsk.buf, dsk.bufUnscrambled
      ensures fpRaw == old(fpRaw) && fpIso == old(fpIso) && startSector == old(startSector) <= current
      ensures hashRaw == old(hashRaw) && hashIso == old(hashIso) && Apart() && hashRaw.Valid() && hashIso.Valid()
      ensures current == End(out, current)
      ensures !out ==> current < dsk.sectorsNo && Stuck(current, found, old(dsk.drive.commands), old(dsk.trials))
      ensures out ==> forall i :: startSector <= i < dsk.sectorsNo ==> SectorWritten(i)
      ensures Covered(dsk.held, startSector, current)
      ensures Gained(current, !out && found, if fpRaw != null then old(fpRaw.content) else [],
                     if fpIso != null then old(fpIso.content) else [])
      ensures dsk.FollowsDisc(surface) && dsk.AllGenuine(surface, old(dsk.held)) ==>
                dsk.AllGenuine(surface, dsk.held)
    {
      hide M.Multihash.Valid, Covered, Disc.Disc.FollowsDisc, Disc.Disc.AllGenuine, Gained, Counted;
      hide Running, Stuck, SectorWritten;
      out, found, current := true, true, startSector;
      ghost var raw0 := if fpRaw != null then fpRaw.content else [];
      ghost var iso0 := if fpIso != null then fpIso.content else [];
      NothingGained(raw0, iso0);
      NoneCovered(dsk.held, current);
      RunningApart(current);
      while current < dsk.sectorsNo && out
        invariant startSector <= current && (current <= dsk.sectorsNo || current == startSector)
        invariant out ==> Running(current) && Counted(current)
        invariant out ==> forall k :: startSector <= k < current ==> SectorWritten(k)
        invariant dsk.drive.commands >= old(dsk.drive.commands) && dsk.trials >= old(dsk.trials)
        invariant !out ==>
                    && current < dsk.sectorsNo
                    && Stuck(current, found, old(dsk.drive.commands), old(dsk.trials))
        invariant Apart() && hashRaw.Valid() && hashIso.Valid()
        invariant Covered(dsk.held, startSector, current) && Gained(current, !out && found, raw0, iso0)
        invariant dsk.FollowsDisc(surface) && dsk.AllGenuine(surface, old(dsk.held)) ==>
                    dsk.AllGenuine(surface, dsk.held)
        decreases dsk.sectorsNo - current, out
      {
        out, found := DumpNext(current, surface, raw0, iso0, old(dsk.drive.commands), old(dsk.trials));
        if out {
          current := current + 1;
        }
      }
    }

    lemma NothingGained(raw: seq<byte>, iso: seq<byte>)
      requires fpRaw != null ==> fpRaw.writes == 0 && fpRaw.content == raw && (hashing ==> hashRaw.message == raw)
      requires fpIso != null ==> fpIso.writes == 0 && fpIso.content == iso && (hashing ==> hashIso.message == iso)
      ensures Gained(startSector, false, raw, iso) && Counted(startSector)
    {
      hide RawOf, UserOf;
      NoRun(dsk.held, startSector);
    }

    /** One pass of the loop. */
    method DumpNext(i: nat, ghost surface: Surface, ghost raw0: seq<byte>, ghost iso0: seq<byte>, ghost n: nat,
            ghost t: nat)
      returns (ok: bool, ghost found: bool)
      requires startSector <= i < dsk.sectorsNo && Running(i) && hashRaw.Valid() && hashIso.Valid()
      requires (fpRaw != null || fpIso != null) && n <= dsk.drive.commands && t <= dsk.trials
      requires Gained(i, false, raw0, iso0) && Counted(i) && Covered(dsk.held, startSector, i)
      modifies fpRaw, fpIso, hashRaw.repr, hashIso.repr, dsk`held, dsk`trials, dsk.drive
      modifies dsk.cache, dsk.rawCache, dsk.cacheMap, dsk.buf, dsk.bufUnscrambled
      ensures startSector == old(startSector)
      ensures fpRaw == old(fpRaw) && fpIso == old(fpIso) && hashRaw == old(hashRaw) && hashIso == old(hashIso)
      ensures dsk.drive.commands >= old(dsk.drive.commands) && dsk.trials >= old(dsk.trials)
      ensures ok ==> Running(i + 1) && Counted(i + 1) && Gained(i + 1, false, raw0, iso0) && SectorWritten(i)
      ensures !ok ==> Gained(i, found, raw0, iso0) && Stuck(i, found, n, t)
      ensures hashRaw.Valid() && hashIso.Valid() && Covered(dsk.held, startSector, if ok then i + 1 else i)
      ensures dsk.FollowsDisc(surface) && dsk.AllGenuine(surface, old(dsk.held)) ==>
                dsk.AllGenuine(surface, dsk.held)
    {
      hide M.Multihash.Valid, RawOf, UserOf, RawRun, UserRun, Covered, Disc.Disc.FollowsDisc, Disc.Disc.AllGenuine;
      hide Agree, Running, Readable, Unreadable, Written, Part;
      RunningApart(i);
      ghost var was, n0, t0 := dsk.held, dsk.drive.commands, dsk.trials;
      ok, found := DumpSector(i, surface);
      RunsGrow(was, dsk.held, startSector, i, raw0, iso0);
      CoveredGrows(was, dsk.held, startSector, i);
      if ok {
        WholeParts(i);
      } else if !found {
        Refused(i, n0, t0, n, t);
      }
    }

    /** What is written of a sector that is written to all outputs. */
    lemma WholeParts(i: nat)
      requires startSector <= i
      requires fpRaw != null ==> Written(fpRaw, i - startSector, RAW_SECTOR)
      requires fpIso != null ==> Written(fpIso, i - startSector, SECTOR)
      ensures SectorWritten(i)
      ensures fpRaw != null ==> Part(RawOf(dsk.held, i), fpRaw.taken(i - startSector)) == RawOf(dsk.held, i)
      ensures fpIso != null ==> Part(UserOf(dsk.held, i), fpIso.taken(i - startSector)) == UserOf(dsk.held, i)
    {
    }

    lemma Refused(i: nat, n: nat, t: nat, n0: nat, t0: nat)
      requires !Readable(i, n, t) && n0 <= n && t0 <= t
      ensures Unreadable(i, n0, t0)
    {
      hide Readable;
    }

    lemma NoneCovered(h: map<nat, Entry>, i: nat)
      ensures Covered(h, i, i)
    {
    }

    lemma RunningApart(i: nat)
      requires Running(i)
      ensures Apart()
    {
    }
  }
}
