/** The program's dump of a disc, from scratch or resumed. */
module Friidump {
  import opened Attempts
  import opened Bytes
  import opened Geometry
  import opened Cache
  import opened Faithful
  import opened Runs
  import opened Streams
  import opened Wrappers
  import Disc
  import Dumper
  import M = Multihash
  import Resume

  /** What the files hold afterwards, and what is reported about them. */
  datatype Result = Result(done: bool, raw: Option<seq<byte>>, iso: Option<seq<byte>>, rawDigests: M.Digests,
                           isoDigests: M.Digests)

  /** The files on the disk are first parts of the dump that left blocks h behind. */
  ghost predicate Parts(h: Blocks, n: nat, raw: Option<seq<byte>>, iso: Option<seq<byte>>) {
    && (raw.Some? ==> raw.value <= RawRun(h, 0, n))
    && (iso.Some? ==> iso.value <= UserRun(h, 0, n))
  }

  /** The drive follows a disc; this run and a whole earlier dump of it, which left blocks h, cache its blocks alone. */
  ghost predicate SameDisc(d: Disc.Disc, was: Blocks, surface: Surface, earlier: Disc.Disc, h: Blocks)
    reads d`readMethod, d`secMem
  {
    && d.FollowsDisc(surface) && d.AllGenuine(surface, was)
    && Resume.Alike(earlier, d) && earlier.AllGenuine(surface, h) && Covered(h, 0, d.sectorsNo)
  }

  /** No named file would be overwritten: it exists only if the dump is to be resumed. */
  predicate Permitted(rawNamed: bool, isoNamed: bool, raw: Option<seq<byte>>, iso: Option<seq<byte>>, resume: bool) {
    resume || !((rawNamed && raw.Some?) || (isoNamed && iso.Some?))
  }

  /** The sector a dump starts at: that of the shorter of the two files. */
  function Start(rawNamed: bool, isoNamed: bool, raw: Option<seq<byte>>, iso: Option<seq<byte>>): nat {
    var r := Dumper.StartOf(if raw.Some? then |raw.value| else 0, RAW_SECTOR);
    var i := Dumper.StartOf(if iso.Some? then |iso.value| else 0, SECTOR);
    if rawNamed && isoNamed then if r < i then r else i else if rawNamed then r else i
  }

  /** The first count writes to an output are taken whole, if it is written to at all. */
  predicate Takes(named: bool, medium: Medium, count: int, size: nat) {
    named && !medium.fails ==> forall k :: 0 <= k < count ==> medium.taken(k) >= size
  }

  /**
   * The calls that set up, prepare and run a dump. Whatever parts of a whole dump the named files hold, they still hold
   * parts of it afterwards, and a dump that completes leaves the whole dump in them and reports its checksums; with a
   * working drive it completes if the files can be set up and written.
   */
  method DumpDisc(d: Disc.Disc, hashing: bool, resume: bool, rawNamed: bool, isoNamed: bool, raw: Option<seq<byte>>,
          iso: Option<seq<byte>>, rawMedium: Medium, isoMedium: Medium, ghost surface: Surface,
          ghost earlier: Disc.Disc, ghost h: Blocks)
    returns (r: Result)
    requires d.Valid(0) && d.Planned() && d.sectorsNo < 0xf000_0000 && (rawNamed || isoNamed)
    modifies d`held, d`trials, d.drive, d.cache, d.rawCache, d.cacheMap, d.buf, d.bufUnscrambled
    ensures SameDisc(d, old(d.held), surface, earlier, h) && Parts(h, d.sectorsNo, raw, iso) ==>
              && Parts(h, d.sectorsNo, r.raw, r.iso)
              && (r.done ==> Whole(h, d.sectorsNo, hashing, rawNamed && !rawMedium.fails, isoNamed, r))
    ensures r.done ==>
              && Permitted(rawNamed, isoNamed, raw, iso, resume)
              && !(if isoNamed then isoMedium.fails else rawMedium.fails)
    ensures Working(d.Origin(), d.readMethod, surface, old(d.drive.commands), old(d.trials)) ==>
              (r.done <==>
                 && Permitted(rawNamed, isoNamed, raw, iso, resume)
                 && !(if isoNamed then isoMedium.fails else rawMedium.fails)
                 && Takes(rawNamed, rawMedium, d.sectorsNo - Start(rawNamed, isoNamed, raw, iso), RAW_SECTOR)
                 && Takes(isoNamed, isoMedium, d.sectorsNo - Start(rawNamed, isoNamed, raw, iso), SECTOR))
    ensures !Permitted(rawNamed, isoNamed, raw, iso, resume) ==> !r.done && r.raw == raw && r.iso == iso
  {
    hide M.Multihash.Valid, M.Reported, SameDisc, RawRun, UserRun, Disc.Disc.Valid, Working, Whole, Takes;
    hide Dumper.StartOf;
    r := Result(false, raw, iso, Dumper.NO_DIGESTS, Dumper.NO_DIGESTS);
    var dmp := new Dumper.Dumper(d, hashing, rawMedium.taken, isoMedium.taken);
    var ok := dmp.SetRawOutputFile(rawNamed, raw, resume);
    if !ok {
      return;
    }
    ok := dmp.SetIsoOutputFile(isoNamed, iso, resume);
    if !ok {
      return;
    }
    r := RunDumper(dmp, rawMedium, isoMedium, surface, earlier, h);
  }

  /** Each output that could be set up holds the whole dump, and its checksums are reported. */
  ghost predicate Whole(h: Blocks, n: nat, hashing: bool, raw: bool, iso: bool, r: Result) {
    && (raw ==> r.raw == Some(RawRun(h, 0, n)) && (hashing ==> r.rawDigests == M.Reported(RawRun(h, 0, n))))
    && (iso ==> r.iso == Some(UserRun(h, 0, n)) && (hashing ==> r.isoDigests == M.Reported(UserRun(h, 0, n))))
  }

  /** The last two calls, dumper_prepare and dumper_dump. */
  method RunDumper(dmp: Dumper.Dumper, rawMedium: Medium, isoMedium: Medium, ghost surface: Surface,
          ghost earlier: Disc.Disc, ghost h: Blocks)
    returns (r: Result)
    requires dmp.dsk.Valid(0) && dmp.dsk.Planned() && dmp.dsk.sectorsNo < 0xf000_0000 && dmp !in dmp.dsk.Repr()
    requires dmp.Resumable() && (dmp.rawNamed || dmp.isoNamed)
    requires dmp.rawTaken == rawMedium.taken && dmp.isoTaken == isoMedium.taken
    modifies dmp, dmp.dsk`held, dmp.dsk`trials, dmp.dsk.drive, dmp.dsk.cache, dmp.dsk.rawCache, dmp.dsk.cacheMap
    modifies dmp.dsk.buf, dmp.dsk.bufUnscrambled
    ensures var fails := if old(dmp.isoNamed) then isoMedium.fails else rawMedium.fails;
            var x, m, n, t := dmp.dsk.Origin(), dmp.dsk.readMethod, old(dmp.dsk.drive.commands), old(dmp.dsk.trials);
            && (r.done ==> !fails)
            && (Working(x, m, surface, n, t) ==>
                  (r.done <==>
                     && !fails
                     && Takes(old(dmp.rawNamed), rawMedium, dmp.dsk.sectorsNo - old(dmp.Start()), RAW_SECTOR)
                     && Takes(old(dmp.isoNamed), isoMedium, dmp.dsk.sectorsNo - old(dmp.Start()), SECTOR)))
    ensures var n, raw, iso := dmp.dsk.sectorsNo, old(dmp.rawOnDisk), old(dmp.isoOnDisk);
            SameDisc(dmp.dsk, old(dmp.dsk.held), surface, earlier, h) && Parts(h, n, raw, iso) ==>
              && Parts(h, n, r.raw, r.iso)
              && (r.done ==> Whole(h, n, dmp.hashing, old(dmp.rawNamed) && !rawMedium.fails, old(dmp.isoNamed), r))
  {
    hide M.Multihash.Valid, M.Reported, SameDisc, RawRun, UserRun, Covered, Disc.Disc.FollowsDisc, Whole, Takes;
    hide Intact, Working, Disc.Disc.AllGenuine;
    var raw, iso := dmp.rawOnDisk, dmp.isoOnDisk;
    var ok := dmp.Prepare(rawMedium.fails, isoMedium.fails);
    if ok {
      StillTrue(dmp.dsk, dmp.startSector);
      r := RunPrepared(dmp, raw, iso, surface, earlier, h);
      AllWritten(dmp, rawMedium, isoMedium);
    } else {
      r := Result(false, if dmp.fpRaw != null then Some(dmp.fpRaw.content) else raw, iso, Dumper.NO_DIGESTS,
                  Dumper.NO_DIGESTS);
    }
  }

  /** Every sector is written to all outputs exactly if their writes are taken. */
  lemma AllWritten(dmp: Dumper.Dumper, rawMedium: Medium, isoMedium: Medium)
    requires dmp.fpRaw != null <==> dmp.rawNamed && !rawMedium.fails
    requires dmp.fpIso != null <==> dmp.isoNamed && !isoMedium.fails
    requires dmp.fpRaw != null ==> dmp.fpRaw.taken == rawMedium.taken
    requires dmp.fpIso != null ==> dmp.fpIso.taken == isoMedium.taken
    ensures (forall i :: dmp.startSector <= i < dmp.dsk.sectorsNo ==> dmp.SectorWritten(i)) <==>
              && Takes(dmp.rawNamed, rawMedium, dmp.dsk.sectorsNo - dmp.startSector, RAW_SECTOR)
              && Takes(dmp.isoNamed, isoMedium, dmp.dsk.sectorsNo - dmp.startSector, SECTOR)
  {
    var start, count := dmp.startSector, dmp.dsk.sectorsNo - dmp.startSector;
    if forall i :: start <= i < dmp.dsk.sectorsNo ==> dmp.SectorWritten(i) {
      forall k | 0 <= k < count
        ensures dmp.fpRaw != null ==> rawMedium.taken(k) >= RAW_SECTOR
        ensures dmp.fpIso != null ==> isoMedium.taken(k) >= SECTOR
      {
        assert dmp.SectorWritten(start + k);
      }
    }
  }

  /** The dump once both outputs are set up. */
  method RunPrepared(dmp: Dumper.Dumper, raw: Option<seq<byte>>, iso: Option<seq<byte>>, ghost surface: Surface,
          ghost earlier: Disc.Disc, ghost h: Blocks)
    returns (r: Result)
    requires dmp.Running(dmp.startSector) && dmp.hashRaw.Valid() && dmp.hashIso.Valid()
    requires dmp.fpRaw != null || dmp.fpIso != null
    requires dmp.fpRaw != null ==>
               && dmp.startSector * RAW_SECTOR <= dmp.Size(raw) && dmp.fpRaw.writes == 0
               && dmp.fpRaw.content == dmp.Kept(raw, dmp.startSector, RAW_SECTOR)
               && (dmp.hashing ==> dmp.hashRaw.message == dmp.fpRaw.content)
    requires dmp.fpIso != null ==>
               && dmp.startSector * SECTOR <= dmp.Size(iso) && dmp.fpIso.writes == 0
               && dmp.fpIso.content == dmp.Kept(iso, dmp.startSector, SECTOR)
               && (dmp.hashing ==> dmp.hashIso.message == dmp.fpIso.content)
    modifies dmp.fpRaw, dmp.fpIso, dmp.hashRaw.repr, dmp.hashIso.repr, dmp.dsk`held, dmp.dsk`trials, dmp.dsk.drive
    modifies dmp.dsk.cache, dmp.dsk.rawCache, dmp.dsk.cacheMap, dmp.dsk.buf, dmp.dsk.bufUnscrambled
    ensures dmp.fpRaw == old(dmp.fpRaw) && dmp.fpIso == old(dmp.fpIso) && dmp.startSector == old(dmp.startSector)
    ensures dmp.rawNamed == old(dmp.rawNamed) && dmp.isoNamed == old(dmp.isoNamed)
    ensures Working(dmp.dsk.Origin(), dmp.dsk.readMethod, surface, old(dmp.dsk.drive.commands), old(dmp.dsk.trials)) ==>
              (r.done <==> forall i :: dmp.startSector <= i < dmp.dsk.sectorsNo ==> dmp.SectorWritten(i))
    ensures SameDisc(dmp.dsk, old(dmp.dsk.held), surface, earlier, h) && Parts(h, dmp.dsk.sectorsNo, raw, iso) ==>
              && Parts(h, dmp.dsk.sectorsNo, r.raw, r.iso)
              && (r.done ==> Whole(h, dmp.dsk.sectorsNo, dmp.hashing, dmp.fpRaw != null, dmp.fpIso != null, r))
  {
    hide M.Multihash.Valid, M.Reported, SameDisc, RawRun, UserRun, Covered, Disc.Disc.FollowsDisc, RawOf, UserOf;
    hide Intact, Working, Disc.Disc.AllGenuine, Dumper.Dumper.Stuck, Dumper.Dumper.SectorWritten;
    dmp.RunningApart(dmp.startSector);
    var d, start := dmp.dsk, dmp.startSector;
    ghost var was := d.held;
    ghost var found;
    var done, current, raws, isos;
    done, current, raws, isos, found := dmp.Dump(surface);
    r := Result(done, if dmp.fpRaw != null then Some(dmp.fpRaw.content) else raw,
                if dmp.fpIso != null then Some(dmp.fpIso.content) else iso, raws, isos);
    if SameDisc(d, was, surface, earlier, h) && Parts(h, d.sectorsNo, raw, iso) {
      if done {
        Complete(d, was, surface, earlier, h, d.sectorsNo, start, raw, iso);
        AppendNothing(RawRun(h, 0, d.sectorsNo));
        AppendNothing(UserRun(h, 0, d.sectorsNo));
      } else {
        Stopped(d, was, surface, earlier, h, d.sectorsNo, start, current, raw, iso,
                if dmp.fpRaw != null then dmp.Rest(dmp.fpRaw, found, RawOf(d.held, current), current) else [],
                if dmp.fpIso != null then dmp.Rest(dmp.fpIso, found, UserOf(d.held, current), current) else []);
      }
    }
  }

  lemma AppendNothing<T>(x: seq<T>)
    ensures x + [] == x
  {
  }

  lemma Complete(d: Disc.Disc, was: Blocks, surface: Surface, earlier: Disc.Disc, h: Blocks, n: nat, start: nat,
                 raw: Option<seq<byte>>, iso: Option<seq<byte>>)
    requires SameDisc(d, was, surface, earlier, h) && Parts(h, n, raw, iso) && n == d.sectorsNo
    requires d.FollowsDisc(surface) && d.AllGenuine(surface, was) ==> d.AllGenuine(surface, d.held)
    requires Covered(d.held, start, if start < n then n else start)
    ensures var content := if raw.Some? then raw.value else [];
            start * RAW_SECTOR <= |content| ==>
              start <= n && content[..start * RAW_SECTOR] + RawRun(d.held, start, n) == RawRun(h, 0, n)
    ensures var content := if iso.Some? then iso.value else [];
            start * SECTOR <= |content| ==>
              start <= n && content[..start * SECTOR] + UserRun(d.held, start, n) == UserRun(h, 0, n)
  {
    hide Resume.Alike, Disc.Disc.AllGenuine, Disc.Disc.FollowsDisc, RawRun, UserRun;
    var r, i := if raw.Some? then raw.value else [], if iso.Some? then iso.value else [];
    if start <= n {
      Resume.SameSize(earlier, d);
      Resume.ResumedDumpIsWhole(earlier, d, surface, h, d.held, n, start, r, i);
    } else {
      RunLengths(h, 0, n);
    }
  }

  lemma Stopped(d: Disc.Disc, was: Blocks, surface: Surface, earlier: Disc.Disc, h: Blocks, n: nat, start: nat,
                current: nat, raw: Option<seq<byte>>, iso: Option<seq<byte>>, p: seq<byte>, q: seq<byte>)
    requires SameDisc(d, was, surface, earlier, h) && Parts(h, n, raw, iso) && n == d.sectorsNo
    requires d.FollowsDisc(surface) && d.AllGenuine(surface, was) ==> d.AllGenuine(surface, d.held)
    requires start <= current < n && Covered(d.held, start, current)
    requires p <= RawOf(d.held, current) && q <= UserOf(d.held, current)
    ensures var content := if raw.Some? then raw.value else [];
            start * RAW_SECTOR <= |content| ==>
              content[..start * RAW_SECTOR] + RawRun(d.held, start, current) + p <= RawRun(h, 0, n)
    ensures var content := if iso.Some? then iso.value else [];
            start * SECTOR <= |content| ==>
              content[..start * SECTOR] + UserRun(d.held, start, current) + q <= UserRun(h, 0, n)
  {
    hide Resume.Alike, Disc.Disc.AllGenuine, Disc.Disc.FollowsDisc, RawRun, UserRun, RawOf, UserOf;
    var r, i := if raw.Some? then raw.value else [], if iso.Some? then iso.value else [];
    Resume.SameSize(earlier, d);
    Resume.ResumedPartIsPart(earlier, d, surface, h, d.held, n, start, current, r, i, p, q);
  }

  /** A cache to be relied on from the first sector can be relied on from any. */
  lemma StillTrue(d: Disc.Disc, s: nat)
    requires d.Valid(0)
    ensures d.Valid(s)
  {
    LaterIntact(d.Mem(), d.held, 0, s);
  }
}
