/** Slices of sequences, and products with a growing factor. */
module Slices {
  lemma SliceWithin<T>(s: seq<T>, at: nat, len: nat, i: nat, j: nat)
    requires at + len <= |s| && i <= j <= len
    ensures s[at + i..at + j] == s[at..at + len][i..j]
  {
    var t := s[at..at + len];
    var a, b := s[at + i..at + j], t[i..j];
    forall k | 0 <= k < |a|
      ensures a[k] == b[k]
    {
      assert t[i + k] == s[at + (i + k)];
    }
  }

  lemma SameSlice<T>(a: seq<T>, b: seq<T>, at: nat, n: nat)
    requires |a| == |b| && at + n <= |a|
    requires forall i :: at <= i < at + n ==> b[i] == a[i]
    ensures a[at..at + n] == b[at..at + n]
  {
  }

  lemma SliceOfPrefix<T>(a: seq<T>, b: seq<T>, i: nat, j: nat)
    requires i <= j <= |a|
    ensures (a + b)[i..j] == a[i..j]
  {
  }

  lemma SliceOfSuffix<T>(a: seq<T>, b: seq<T>)
    ensures (a + b)[|a|..|a + b|] == b
  {
  }

  lemma AppendSlice<T>(w: seq<T>, r: seq<T>, d: seq<T>, i: nat, j: nat)
    requires i <= j <= |d|
    ensures w + (r + d[..i]) + d[i..j] == w + (r + d[..j])
  {
    assert d[..j] == d[..i] + d[i..j];
    assert r + d[..j] == r + d[..i] + d[i..j];
  }

  lemma OneMore(n: nat, l: nat)
    ensures n * l + l == (n + 1) * l && 0 * l == 0
  {
  }

  lemma Monotonic(a: nat, b: nat, l: nat)
    requires a <= b
    ensures a * l <= b * l
  {
  }
}
