/** Runs of sectors out of the cached blocks. */
module Runs {
  import opened Bytes
  import opened Geometry

  type Blocks = map<nat, Entry>

  ghost function RawOf(held: Blocks, s: nat): seq<byte> {
    if s / 16 in held then RawSector(held[s / 16], s % 16) else []
  }

  ghost function UserOf(held: Blocks, s: nat): seq<byte> {
    if s / 16 in held then UserSector(held[s / 16], s % 16) else []
  }

  /** The sectors from number a up to b, in order. */
  ghost function RawRun(held: Blocks, a: nat, b: nat): seq<byte> {
    if b <= a then [] else RawRun(held, a, b - 1) + RawOf(held, b - 1)
  }

  ghost function UserRun(held: Blocks, a: nat, b: nat): seq<byte> {
    if b <= a then [] else UserRun(held, a, b - 1) + UserOf(held, b - 1)
  }

  ghost predicate Agree(held: Blocks, other: Blocks, a: nat, b: nat) {
    forall s: nat :: a <= s < b ==> RawOf(held, s) == RawOf(other, s) && UserOf(held, s) == UserOf(other, s)
  }

  lemma {:induction false} RunsAgree(held: Blocks, other: Blocks, a: nat, b: nat)
    requires Agree(held, other, a, b)
    ensures RawRun(held, a, b) == RawRun(other, a, b) && UserRun(held, a, b) == UserRun(other, a, b)
    decreases b
  {
    hide RawOf, UserOf;
    if a < b {
      RunsAgree(held, other, a, b - 1);
    }
  }

  lemma {:induction false} RunsConcat(held: Blocks, a: nat, b: nat, c: nat)
    requires a <= b <= c
    ensures RawRun(held, a, b) + RawRun(held, b, c) == RawRun(held, a, c)
    ensures UserRun(held, a, b) + UserRun(held, b, c) == UserRun(held, a, c)
    decreases c
  {
    hide RawOf, UserOf;
    if b < c {
      RunsConcat(held, a, b, c - 1);
    }
  }

  /** Every sector of the range lies in a cached block. */
  ghost predicate Covered(held: Blocks, a: nat, b: nat) {
    forall s: nat :: a <= s < b ==> s / 16 in held
  }

  lemma {:induction false} RunLengths(held: Blocks, a: nat, b: nat)
    requires Covered(held, a, b) && a <= b
    ensures |RawRun(held, a, b)| == (b - a) * RAW_SECTOR && |UserRun(held, a, b)| == (b - a) * SECTOR
    decreases b
  {
    if a < b {
      RunLengths(held, a, b - 1);
    }
  }
}
