/** Folding a compression function over the 64-byte blocks of a message. */
module Blocks {
  import opened Bytes

  const BLOCK: nat := 64

  type Block = b: seq<byte> | |b| == BLOCK witness seq(BLOCK, i => 0)

  ghost function Fold<S>(f: (S, Block) -> S, s: S, m: seq<byte>): S
    requires |m| % BLOCK == 0
  {
    if m == [] then s else Fold(f, f(s, m[..BLOCK]), m[BLOCK..])
  }

  lemma {:induction false} FoldConcat<S>(f: (S, Block) -> S, s: S, a: seq<byte>, b: seq<byte>)
    requires |a| % BLOCK == 0 && |b| % BLOCK == 0
    ensures Fold(f, s, a + b) == Fold(f, Fold(f, s, a), b)
  {
    if a == [] {
      assert a + b == b;
    } else {
      assert (a + b)[..BLOCK] == a[..BLOCK] && (a + b)[BLOCK..] == a[BLOCK..] + b;
      FoldConcat(f, f(s, a[..BLOCK]), a[BLOCK..], b);
    }
  }

  lemma FoldOne<S>(f: (S, Block) -> S, s: S, b: seq<byte>)
    requires |b| == BLOCK
    ensures Fold(f, s, b) == f(s, b)
  {
    assert b[..BLOCK] == b && b[BLOCK..] == [];
  }

  /** The part of a message made of whole blocks, and what is left over. */
  function Whole(m: seq<byte>): (w: seq<byte>)
    ensures |w| % BLOCK == 0 && |w| == |m| - |m| % BLOCK
  {
    m[..|m| - |m| % BLOCK]
  }

  function Rest(m: seq<byte>): (r: seq<byte>)
    ensures |r| == |m| % BLOCK
  {
    m[|m| - |m| % BLOCK..]
  }

  lemma LeftOver(n: nat, r: nat)
    requires n % BLOCK == 0 && r < BLOCK
    ensures (n + r) % BLOCK == r
  {
    var q := n / BLOCK;
    assert n + r == BLOCK * q + r;
  }

  /** Appending blocks b to a message whose leftover they complete. */
  lemma WholeGrows(m: seq<byte>, d: seq<byte>, k: nat)
    requires k <= |d| && (|m| + k) % BLOCK == 0 && |d| - k < BLOCK
    ensures |m + d| % BLOCK == |d| - k
    ensures Whole(m + d) == Whole(m) + (Rest(m) + d[..k]) && Rest(m + d) == d[k..]
  {
    LeftOver(|m| + k, |d| - k);
    assert (m + d)[..|m| + k] == m + d[..k];
    assert m == Whole(m) + Rest(m);
  }

  lemma RestGrows(m: seq<byte>, d: seq<byte>)
    requires |m| % BLOCK + |d| < BLOCK
    ensures |m + d| % BLOCK == |m| % BLOCK + |d|
    ensures Whole(m + d) == Whole(m) && Rest(m + d) == Rest(m) + d
  {
    assert |m + d| % BLOCK == |m| % BLOCK + |d| by {
      var q := |m| / BLOCK;
      assert |m + d| == BLOCK * q + (|m| % BLOCK + |d|);
    }
  }

  lemma WholeIsAll(p: seq<byte>)
    requires |p| % BLOCK == 0
    ensures Whole(p) == p
  {
  }
}
