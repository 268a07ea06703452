/** A dump resumed over files that already hold a part of it gives what one uninterrupted dump gives. */
module Resume {
  import opened Bytes
  import opened Geometry
  import opened Faithful
  import opened Runs
  import opened Wrappers
  import Disc

  /** Two runs on discs of one kind and size unscramble alike: what both can unscramble, they unscramble to the same. */
  ghost predicate Alike(d1: Disc.Disc, d2: Disc.Disc) {
    && d1.kind == d2.kind && d1.sectorsNo == d2.sectorsNo
    && forall t1: nat, t2: nat, s: nat, raw: RawBlock ::
         d1.unscramble(t1, s, raw).Some? && d2.unscramble(t2, s, raw).Some? ==>
           d1.unscramble(t1, s, raw) == d2.unscramble(t2, s, raw)
  }

  /** On the same disc they then cache the same blocks. */
  lemma GenuineUnique(d1: Disc.Disc, d2: Disc.Disc, surface: Surface, b: nat, c1: Entry, c2: Entry)
    requires Alike(d1, d2) && d1.Genuine(surface, b, c1) && d2.Genuine(surface, b, c2)
    ensures c1 == c2
  {
    hide Disc.Cached, Frames;
    var raw: RawBlock := Frames(surface, 16 * b, 16);
    var e1 :| d1.Unscrambled(16 * b, raw, e1) && c1 == Disc.Cached(d1.kind, e1);
    var e2 :| d2.Unscrambled(16 * b, raw, e2) && c2 == Disc.Cached(d2.kind, e2);
    var t1 :| d1.unscramble(t1, 16 * b, raw) == Some(e1);
    var t2 :| d2.unscramble(t2, 16 * b, raw) == Some(e2);
  }

  lemma SameSize(d1: Disc.Disc, d2: Disc.Disc)
    requires Alike(d1, d2)
    ensures d1.sectorsNo == d2.sectorsNo
  {
  }

  lemma RunsSame(d1: Disc.Disc, d2: Disc.Disc, surface: Surface, h1: Blocks, h2: Blocks, a: nat, n: nat)
    requires Alike(d1, d2) && d1.AllGenuine(surface, h1) && d2.AllGenuine(surface, h2)
    requires Covered(h1, a, n) && Covered(h2, a, n) && n <= d1.sectorsNo
    ensures RawRun(h1, a, n) == RawRun(h2, a, n) && UserRun(h1, a, n) == UserRun(h2, a, n)
  {
    SameSize(d1, d2);
    hide Alike, RawSector, UserSector;
    forall s: nat | a <= s < n
      ensures RawOf(h1, s) == RawOf(h2, s) && UserOf(h1, s) == UserOf(h2, s)
    {
      GenuineUnique(d1, d2, surface, s / 16, h1[s / 16], h2[s / 16]);
    }
    RunsAgree(h1, h2, a, n);
  }

  /**
   * The whole dump of n sectors leaves blocks h1 behind. If raw and iso are first parts of its files, then what is kept
   * of them up to sector start, followed by the sectors that a resumed dump reads, are the whole files.
   */
  lemma ResumedDumpIsWhole(d1: Disc.Disc, d2: Disc.Disc, surface: Surface, h1: Blocks, h2: Blocks, n: nat,
          start: nat, raw: seq<byte>, iso: seq<byte>)
    requires Alike(d1, d2) && d1.AllGenuine(surface, h1) && d2.AllGenuine(surface, h2)
    requires Covered(h1, 0, n) && Covered(h2, start, n) && n <= d1.sectorsNo
    requires raw <= RawRun(h1, 0, n) && iso <= UserRun(h1, 0, n)
    ensures start * RAW_SECTOR <= |raw| ==>
              start <= n && raw[..start * RAW_SECTOR] + RawRun(h2, start, n) == RawRun(h1, 0, n)
    ensures start * SECTOR <= |iso| ==> start <= n && iso[..start * SECTOR] + UserRun(h2, start, n) == UserRun(h1, 0, n)
  {
    hide Alike, Disc.Disc.AllGenuine, RawRun, UserRun, RawOf, UserOf;
    RunLengths(h1, 0, n);
    if start <= n {
      CoveredPart(h1, start, n);
      RunLengths(h1, 0, start);
      RunsConcat(h1, 0, start, n);
      RunsSame(d1, d2, surface, h1, h2, start, n);
      if start * RAW_SECTOR <= |raw| {
        assert raw[..start * RAW_SECTOR] == RawRun(h1, 0, n)[..start * RAW_SECTOR];
      }
      if start * SECTOR <= |iso| {
        assert iso[..start * SECTOR] == UserRun(h1, 0, n)[..start * SECTOR];
      }
    }
  }

  /** So are, as far as they go, the files of a resumed dump that stops at a sector, with any part of it written. */
  lemma ResumedPartIsPart(d1: Disc.Disc, d2: Disc.Disc, surface: Surface, h1: Blocks, h2: Blocks, n: nat, start: nat,
          current: nat, raw: seq<byte>, iso: seq<byte>, p: seq<byte>, q: seq<byte>)
    requires Alike(d1, d2) && d1.AllGenuine(surface, h1) && d2.AllGenuine(surface, h2)
    requires Covered(h1, 0, n) && n <= d1.sectorsNo && start <= current < n && Covered(h2, start, current)
    requires raw <= RawRun(h1, 0, n) && iso <= UserRun(h1, 0, n)
    requires p <= RawOf(h2, current) && q <= UserOf(h2, current)
    ensures start * RAW_SECTOR <= |raw| ==>
              raw[..start * RAW_SECTOR] + RawRun(h2, start, current) + p <= RawRun(h1, 0, n)
    ensures start * SECTOR <= |iso| ==> iso[..start * SECTOR] + UserRun(h2, start, current) + q <= UserRun(h1, 0, n)
  {
    hide Alike, Disc.Disc.AllGenuine, RawRun, UserRun, RawOf, UserOf, Covered;
    var end := if current / 16 in h2 then current + 1 else current;
    CoveredPart(h1, start, n);
    CoveredPart(h1, end, n);
    OneMoreCovered(h2, start, current);
    RunLengths(h1, 0, start);
    RunsConcat(h1, 0, start, end);
    RunsConcat(h1, 0, end, n);
    RunsConcat(h1, 0, start, n);
    RunsSame(d1, d2, surface, h1, h2, start, end);
    OneMoreSector(h2, start, current);
    PrefixOfWhole(RawRun(h1, 0, start), RawRun(h2, start, current), RawOf(h2, current), RawRun(h1, end, n), p);
    PrefixOfWhole(UserRun(h1, 0, start), UserRun(h2, start, current), UserOf(h2, current), UserRun(h1, end, n), q);
    if start * RAW_SECTOR <= |raw| {
      assert raw[..start * RAW_SECTOR] == RawRun(h1, 0, n)[..start * RAW_SECTOR] == RawRun(h1, 0, start);
    }
    if start * SECTOR <= |iso| {
      assert iso[..start * SECTOR] == UserRun(h1, 0, n)[..start * SECTOR] == UserRun(h1, 0, start);
    }
  }

  lemma PrefixOfWhole<T>(r: seq<T>, a: seq<T>, b: seq<T>, c: seq<T>, p: seq<T>)
    requires p <= b
    ensures r + a + p <= r + (a + b) + c && (b == [] ==> a + b == a)
  {
  }

  lemma OneMoreCovered(h: Blocks, a: nat, b: nat)
    requires Covered(h, a, b) && a <= b
    ensures b / 16 in h ==> Covered(h, a, b + 1)
  {
  }

  lemma OneMoreSector(h: Blocks, a: nat, b: nat)
    requires a <= b
    ensures RawRun(h, a, b + 1) == RawRun(h, a, b) + RawOf(h, b)
    ensures UserRun(h, a, b + 1) == UserRun(h, a, b) + UserOf(h, b)
    ensures b / 16 !in h ==> RawOf(h, b) == [] == UserOf(h, b)
  {
    hide RawSector, UserSector;
  }

  lemma CoveredPart(h: Blocks, a: nat, n: nat)
    requires Covered(h, 0, n) && a <= n
    ensures Covered(h, 0, a) && Covered(h, a, n) && forall b :: a <= b <= n ==> Covered(h, a, b)
  {
  }
}
