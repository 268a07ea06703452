/** A drive whose memory holds the sectors of a disc in order: every way of reading then delivers those sectors. */
module Faithful {
  import opened Bytes
  import opened Geometry
  import opened Reads
  import opened Slices
  import D = Drive

  /** A disc: byte o of the raw frame of sector s. */
  type Surface = (nat, nat) -> byte

  /** The end of the last block of a disc. */
  function EndOf(sectorsNo: nat): (end: nat)
    ensures end % 16 == 0 && sectorsNo <= end < sectorsNo + 16
  {
    (sectorsNo + 15) / 16 * 16
  }

  lemma BlockBeforeEnd(sectorsNo: nat, b: nat)
    requires 16 * b < sectorsNo
    ensures 16 * b + 16 <= EndOf(sectorsNo)
  {
  }

  /** After a read of sector s the memory holds that many frames from there on, as far as they come before the end. */
  ghost predicate Holds(d: D.Drive, disc: Surface, depth: nat, end: nat) {
    forall s: nat, o: nat :: o < depth * RAW_SECTOR && s + o / RAW_SECTOR < end ==>
      d.memory(s, o) == disc(s + o / RAW_SECTOR, o % RAW_SECTOR)
  }

  /** The data a read hands over is the user data of the sectors from there on, as far as they come before the end. */
  ghost predicate HandsOver(d: D.Drive, disc: Surface, end: nat) {
    forall s: nat, o: nat :: o < USER_BLOCK && s + o / SECTOR < end ==>
      d.transfer(s, o) == disc(s + o / SECTOR, 12 + o % SECTOR)
  }

  /** What a read method needs: a pass of step sectors, or five blocks; methods 8 and 9 use the data handed over. */
  ghost predicate Follows(d: D.Drive, disc: Surface, m: nat, step: nat, end: nat) {
    Holds(d, disc, if m <= 6 then step else 80, end) && (m >= 8 ==> HandsOver(d, disc, end))
  }

  /** The frames of n sectors from s on. */
  ghost function Frames(disc: Surface, s: nat, n: nat): (r: seq<byte>)
    ensures |r| == n * RAW_SECTOR
  {
    seq(n * RAW_SECTOR, i requires 0 <= i < n * RAW_SECTOR => disc(s + i / RAW_SECTOR, i % RAW_SECTOR))
  }

  lemma FramesConcat(disc: Surface, s: nat, a: nat, b: nat)
    ensures Frames(disc, s, a) + Frames(disc, s + a, b) == Frames(disc, s, a + b)
  {
    var x, y := Frames(disc, s, a) + Frames(disc, s + a, b), Frames(disc, s, a + b);
    forall i | 0 <= i < |y|
      ensures x[i] == y[i]
    {
      if i >= a * RAW_SECTOR {
        var k := i - a * RAW_SECTOR;
        assert i / RAW_SECTOR == a + k / RAW_SECTOR && i % RAW_SECTOR == k % RAW_SECTOR;
      }
    }
  }

  lemma FramesSlice(disc: Surface, s: nat, n: nat, from: nat, len: nat)
    requires from + len <= n
    ensures Frames(disc, s, n)[from * RAW_SECTOR..(from + len) * RAW_SECTOR] == Frames(disc, s + from, len)
  {
    FramesConcat(disc, s, from, len);
    FramesConcat(disc, s, from + len, n - from - len);
    var x, y, z := Frames(disc, s, from), Frames(disc, s + from, len), Frames(disc, s + (from + len), n - from - len);
    assert Frames(disc, s, n) == (x + y) + z;
  }

  lemma RamIsFrames(d: D.Drive, disc: Surface, depth: nat, end: nat, s: nat, n: nat)
    requires Holds(d, disc, depth, end) && n <= depth && s + n <= end
    ensures d.Ram(s, 0, n * RAW_SECTOR) == Frames(disc, s, n)
  {
    var x, y := d.Ram(s, 0, n * RAW_SECTOR), Frames(disc, s, n);
    forall i | 0 <= i < n * RAW_SECTOR
      ensures x[i] == y[i]
    {
      assert x[i] == d.memory(s, 0 + i);
    }
  }

  /** The passes of a streaming read deliver the sectors in order, up to the end. */
  lemma {:induction false} PassesAreFrames(d: D.Drive, disc: Surface, depth: nat, end: nat, s: nat, step: nat, n: nat,
          m: nat)
    requires Holds(d, disc, depth, end) && step <= depth && m <= n * step && s + m <= end
    ensures m * RAW_SECTOR <= |PassBytes(d, s, step, n)|
    ensures PassBytes(d, s, step, n)[..m * RAW_SECTOR] == Frames(disc, s, m)
  {
    hide Holds, Frames;
    PassLength(d, s, step, n);
    Regroup(n, step);
    Monotonic(m, n * step, RAW_SECTOR);
    if n > 0 {
      var a := (n - 1) * step;
      OneMore(n - 1, step);
      PassLength(d, s, step, n - 1);
      Regroup(n - 1, step);
      if m <= a {
        PassesAreFrames(d, disc, depth, end, s, step, n - 1, m);
      } else {
        PassesAreFrames(d, disc, depth, end, s, step, n - 1, a);
        Monotonic(m - a, step, RAW_SECTOR);
        RamPrefix(d, s + a, (m - a) * RAW_SECTOR, RAW_SECTOR * step);
        RamIsFrames(d, disc, depth, end, s + a, m - a);
        FramesConcat(disc, s, a, m - a);
        PrefixOfConcat(PassBytes(d, s, step, n - 1), d.Ram(s + a, 0, RAW_SECTOR * step), (m - a) * RAW_SECTOR);
      }
    } else {
      assert Frames(disc, s, 0) == [];
    }
  }

  lemma Regroup(n: nat, step: nat)
    ensures n * (RAW_SECTOR * step) == n * step * RAW_SECTOR && RAW_SECTOR * step == step * RAW_SECTOR
  {
  }

  lemma PrefixOfConcat<T>(a: seq<T>, b: seq<T>, k: nat)
    requires k <= |b|
    ensures (a + b)[..|a| + k] == a + b[..k] && a[..|a|] == a
  {
  }

  lemma RebuiltIsFrames(d: D.Drive, disc: Surface, end: nat, s: nat, j: nat)
    requires Holds(d, disc, 80, end) && HandsOver(d, disc, end) && j < 5 && s + 16 * (j + 1) <= end
    ensures Rebuilt(d, s, s + 16 * j, j) == Frames(disc, s + 16 * j, 16)
  {
    hide Holds, HandsOver, Rebuilt, Frames;
    var x, y := Rebuilt(d, s, s + 16 * j, j), Frames(disc, s + 16 * j, 16);
    forall i | 0 <= i < RAW_BLOCK
      ensures x[i] == y[i]
    {
      var k, o := i / RAW_SECTOR, i % RAW_SECTOR;
      assert i == k * RAW_SECTOR + o;
      RebuiltAt(d, s, s + 16 * j, j, k, o);
      FrameAt(disc, s + 16 * j, 16, k, o);
      if 12 <= o < 2060 {
        TransferAt(d, disc, end, s + 16 * j, k, o - 12);
      } else {
        MemoryAt(d, disc, end, s, 16 * j + k, o);
      }
    }
  }

  lemma FrameAt(disc: Surface, s: nat, n: nat, k: nat, o: nat)
    requires k < n && o < RAW_SECTOR
    ensures k * RAW_SECTOR + o < n * RAW_SECTOR && Frames(disc, s, n)[k * RAW_SECTOR + o] == disc(s + k, o)
  {
    var i := k * RAW_SECTOR + o;
    assert i / RAW_SECTOR == k && i % RAW_SECTOR == o;
  }

  lemma TransferAt(d: D.Drive, disc: Surface, end: nat, s: nat, k: nat, o: nat)
    requires HandsOver(d, disc, end) && k < 16 && o < SECTOR && s + k < end
    ensures d.transfer(s, k * SECTOR + o) == disc(s + k, 12 + o)
  {
    var i := k * SECTOR + o;
    assert i / SECTOR == k && i % SECTOR == o;
  }

  lemma MemoryAt(d: D.Drive, disc: Surface, end: nat, s: nat, f: nat, o: nat)
    requires Holds(d, disc, 80, end) && f < 80 && o < RAW_SECTOR && s + f < end
    ensures d.memory(s, f * RAW_SECTOR + o) == disc(s + f, o)
  {
    var i := f * RAW_SECTOR + o;
    assert i / RAW_SECTOR == f && i % RAW_SECTOR == o;
  }

  /** So do the frames rebuilt from headers and user data. */
  lemma {:induction false} RebuiltAreFrames(d: D.Drive, disc: Surface, end: nat, s: nat, n: nat)
    requires Holds(d, disc, 80, end) && HandsOver(d, disc, end) && n <= 5 && s + 16 * n <= end
    ensures RebuiltAll(d, s, n) == Frames(disc, s, 16 * n)
  {
    hide Holds, HandsOver, Rebuilt, Frames;
    if n > 0 {
      RebuiltAreFrames(d, disc, end, s, n - 1);
      RebuiltIsFrames(d, disc, end, s, n - 1);
      FramesConcat(disc, s, 16 * (n - 1), 16);
    } else {
      assert Frames(disc, s, 0) == [];
    }
  }

  /** A read of more blocks begins with those of a read of fewer. */
  lemma {:induction false} RebuiltPrefix(d: D.Drive, s: nat, k: nat, n: nat)
    requires k <= n
    ensures RebuiltAll(d, s, n)[..k * RAW_BLOCK] == RebuiltAll(d, s, k)
  {
    hide Rebuilt;
    if k < n {
      RebuiltPrefix(d, s, k, n - 1);
    }
  }
}
