/** The direct-mapped cache of 16-sector blocks, on sequences. */
module Cache {
  import opened Bytes
  import opened Words
  import opened Geometry
  import opened Slices

  const INVALID: word := 0xffff_ffff
  const MINIMUM_SIZE: nat := 5

  function Slot(block: nat, size: nat): (p: nat)
    requires size > 0
    ensures p < size
  {
    block % size
  }

  /** Blocks fewer than the cache size apart go to different slots. */
  lemma SlotsApart(a: nat, b: nat, size: nat)
    requires a < b < a + size
    ensures Slot(a, size) != Slot(b, size)
  {
    if a % size == b % size {
      var q, r := a / size, b / size;
      assert a == size * q + a % size && b == size * r + b % size;
      assert b - a == size * r - size * q;
      Multiple(size, r - q, b - a);
    }
  }

  lemma Multiple(size: nat, k: int, d: int)
    requires size * k == d
    ensures d <= 0 || d >= size
  {
    if k >= 1 {
      assert size * k >= size;
    } else {
      assert size * k <= 0;
    }
  }

  /** The sectors of slot p from number first on are those of an entry. */
  ghost predicate SlotHolds(data: seq<byte>, raw: seq<byte>, p: nat, e: Entry, first: int)
    requires |data| >= (p + 1) * USER_BLOCK && |raw| >= (p + 1) * RAW_BLOCK
  {
    && (forall k :: 0 <= k < SECTORS_PER_BLOCK && first <= k ==>
         UserSector(e, k) == data[p * USER_BLOCK + k * SECTOR..p * USER_BLOCK + k * SECTOR + SECTOR])
    && (forall k :: 0 <= k < SECTORS_PER_BLOCK && first <= k ==>
         RawSector(e, k) == raw[p * RAW_BLOCK + k * RAW_SECTOR..p * RAW_BLOCK + k * RAW_SECTOR + RAW_SECTOR])
  }

  /** The memory of a cache. */
  datatype Memory = Memory(size: nat, data: seq<byte>, raw: seq<byte>, tags: seq<word>)

  ghost predicate Shaped(m: Memory) {
    m.size >= MINIMUM_SIZE && |m.data| == m.size * USER_BLOCK && |m.raw| == m.size * RAW_BLOCK && |m.tags| == m.size
  }

  /** A tag names the block whose data, as far as sector number from and later, its slot holds. */
  ghost predicate TagTrue(m: Memory, held: map<nat, Entry>, from: nat, p: nat)
    requires Shaped(m) && p < m.size
  {
    m.tags[p] != INVALID ==>
      && Slot(m.tags[p], m.size) == p
      && m.tags[p] in held
      && SlotHolds(m.data, m.raw, p, held[m.tags[p]], from - 16 * (m.tags[p] as int))
  }

  ghost predicate Intact(m: Memory, held: map<nat, Entry>, from: nat) {
    Shaped(m) && forall p :: 0 <= p < m.size ==> TagTrue(m, held, from, p)
  }

  lemma MemShaped(m: Memory, held: map<nat, Entry>, from: nat)
    requires Intact(m, held, from)
    ensures Shaped(m)
  {
  }

  /** Nothing outside one slot has changed. */
  ghost predicate OthersKept(m: Memory, n: Memory, p: nat)
    requires Shaped(m) && Shaped(n) && m.size == n.size && p < m.size
  {
    && (forall i :: 0 <= i < p * USER_BLOCK || (p + 1) * USER_BLOCK <= i < |m.data| ==> n.data[i] == m.data[i])
    && (forall i :: 0 <= i < p * RAW_BLOCK || (p + 1) * RAW_BLOCK <= i < |m.raw| ==> n.raw[i] == m.raw[i])
  }

  lemma KeptSlot(m: Memory, n: Memory, p: nat, q: nat, e: Entry, first: int)
    requires Shaped(m) && Shaped(n) && m.size == n.size && p < m.size && q < m.size && p != q
    requires OthersKept(m, n, p) && SlotHolds(m.data, m.raw, q, e, first)
    ensures SlotHolds(n.data, n.raw, q, e, first)
  {
    forall k | 0 <= k < SECTORS_PER_BLOCK && first <= k
      ensures UserSector(e, k) == n.data[q * USER_BLOCK + k * SECTOR..q * USER_BLOCK + k * SECTOR + SECTOR]
    {
      SameSlice(m.data, n.data, q * USER_BLOCK + k * SECTOR, SECTOR);
    }
    forall k | 0 <= k < SECTORS_PER_BLOCK && first <= k
      ensures RawSector(e, k) == n.raw[q * RAW_BLOCK + k * RAW_SECTOR..q * RAW_BLOCK + k * RAW_SECTOR + RAW_SECTOR]
    {
      SameSlice(m.raw, n.raw, q * RAW_BLOCK + k * RAW_SECTOR, RAW_SECTOR);
    }
  }

  lemma FilledSlot(n: Memory, p: nat, e: Entry)
    requires Shaped(n) && p < n.size
    requires n.data[p * USER_BLOCK..(p + 1) * USER_BLOCK] == e.data
    requires n.raw[p * RAW_BLOCK..(p + 1) * RAW_BLOCK] == e.raw
    ensures SlotHolds(n.data, n.raw, p, e, 0)
  {
    forall k | 0 <= k < SECTORS_PER_BLOCK
      ensures UserSector(e, k) == n.data[p * USER_BLOCK + k * SECTOR..p * USER_BLOCK + k * SECTOR + SECTOR]
    {
      SliceWithin(n.data, p * USER_BLOCK, USER_BLOCK, k * SECTOR, k * SECTOR + SECTOR);
    }
    forall k | 0 <= k < SECTORS_PER_BLOCK
      ensures RawSector(e, k) == n.raw[p * RAW_BLOCK + k * RAW_SECTOR..p * RAW_BLOCK + k * RAW_SECTOR + RAW_SECTOR]
    {
      SliceWithin(n.raw, p * RAW_BLOCK, RAW_BLOCK, k * RAW_SECTOR, k * RAW_SECTOR + RAW_SECTOR);
    }
  }

  lemma Weaker(n: Memory, p: nat, e: Entry, first: int, later: int)
    requires Shaped(n) && p < n.size && SlotHolds(n.data, n.raw, p, e, first)
    requires first <= later || first <= 0
    ensures SlotHolds(n.data, n.raw, p, e, later)
  {
  }

  /** Adding a block keeps every tag true. */
  lemma AddKeepsIntact(m: Memory, n: Memory, held: map<nat, Entry>, from: nat, block: word, e: Entry)
    requires Intact(m, held, from) && Shaped(n) && n.size == m.size && block != INVALID
    requires var p := Slot(block, m.size);
             && OthersKept(m, n, p) && n.tags == m.tags[p := block]
             && n.data[p * USER_BLOCK..(p + 1) * USER_BLOCK] == e.data
             && n.raw[p * RAW_BLOCK..(p + 1) * RAW_BLOCK] == e.raw
    ensures Intact(n, held[block := e], from)
  {
    hide Slot, SlotHolds, OthersKept;
    var p := Slot(block, m.size);
    var held' := held[block := e];
    forall q | 0 <= q < n.size
      ensures TagTrue(n, held', from, q)
    {
      if q == p {
        FilledSlot(n, p, e);
        Weaker(n, p, e, 0, from - 16 * (block as int));
      } else if m.tags[q] != INVALID {
        assert TagTrue(m, held, from, q);
        KeptSlot(m, n, p, q, held[m.tags[q]], from - 16 * (m.tags[q] as int));
      }
    }
  }

  lemma LaterIntact(m: Memory, held: map<nat, Entry>, from: nat, later: nat)
    requires Intact(m, held, from) && from <= later
    ensures Intact(m, held, later)
  {
    hide Slot, SlotHolds;
    forall p | 0 <= p < m.size
      ensures TagTrue(m, held, later, p)
    {
      assert TagTrue(m, held, from, p);
      if m.tags[p] != INVALID {
        Weaker(m, p, held[m.tags[p]], from - 16 * (m.tags[p] as int), later - 16 * (m.tags[p] as int));
      }
    }
  }

  /** Damage to sectors already passed over is not seen from a later sector on. */
  lemma PassedOver(m: Memory, n: Memory, held: map<nat, Entry>, s: nat)
    requires Intact(m, held, s) && Shaped(n) && n.size == m.size && n.tags == m.tags
    requires m.tags[Slot(s / 16, m.size)] == s / 16
    requires OnlySector(m, n, Slot(s / 16, m.size), s % 16)
    ensures Intact(n, held, s + 1)
  {
    hide Slot, SlotHolds, OnlySector;
    var p := Slot(s / 16, m.size);
    var later := s + 1;
    forall q | 0 <= q < n.size
      ensures TagTrue(n, held, later, q)
    {
      if m.tags[q] != INVALID {
        assert TagTrue(m, held, s, q);
        var e, b: int := held[m.tags[q]], m.tags[q];
        if q == p {
          LaterSectors(m, n, p, s % 16, e);
        } else {
          OthersOfSector(m, n, p, s % 16);
          KeptSlot(m, n, p, q, e, s - 16 * b);
          Weaker(n, q, e, s - 16 * b, later - 16 * b);
        }
      }
    }
  }

  /** Nothing has changed but in sector k of slot p. */
  ghost predicate OnlySector(m: Memory, n: Memory, p: nat, k: nat)
    requires Shaped(m) && Shaped(n) && m.size == n.size && p < m.size && k < SECTORS_PER_BLOCK
  {
    && (forall i :: 0 <= i < p * USER_BLOCK + k * SECTOR || p * USER_BLOCK + k * SECTOR + SECTOR <= i < |m.data| ==>
          n.data[i] == m.data[i])
    && (forall i ::
          0 <= i < p * RAW_BLOCK + k * RAW_SECTOR || p * RAW_BLOCK + k * RAW_SECTOR + RAW_SECTOR <= i < |m.raw| ==>
            n.raw[i] == m.raw[i])
  }

  lemma OthersOfSector(m: Memory, n: Memory, p: nat, k: nat)
    requires Shaped(m) && Shaped(n) && m.size == n.size && p < m.size && k < SECTORS_PER_BLOCK && OnlySector(m, n, p, k)
    ensures OthersKept(m, n, p)
  {
  }

  lemma LaterSectors(m: Memory, n: Memory, p: nat, k: nat, e: Entry)
    requires Shaped(m) && Shaped(n) && m.size == n.size && p < m.size && k < SECTORS_PER_BLOCK
    requires OnlySector(m, n, p, k) && SlotHolds(m.data, m.raw, p, e, k)
    ensures SlotHolds(n.data, n.raw, p, e, k + 1)
  {
    forall j | 0 <= j < SECTORS_PER_BLOCK && k + 1 <= j
      ensures UserSector(e, j) == n.data[p * USER_BLOCK + j * SECTOR..p * USER_BLOCK + j * SECTOR + SECTOR]
    {
      SameSlice(m.data, n.data, p * USER_BLOCK + j * SECTOR, SECTOR);
    }
    forall j | 0 <= j < SECTORS_PER_BLOCK && k + 1 <= j
      ensures RawSector(e, j) == n.raw[p * RAW_BLOCK + j * RAW_SECTOR..p * RAW_BLOCK + j * RAW_SECTOR + RAW_SECTOR]
    {
      SameSlice(m.raw, n.raw, p * RAW_BLOCK + j * RAW_SECTOR, RAW_SECTOR);
    }
  }
}
