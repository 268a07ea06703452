/** The ed2k hash: MD4 of the concatenated MD4s of 9728000-byte chunks. */
module Ed2k {
  import opened Bytes
  import opened Words
  import Md4

  const CHUNK: nat := 9728000

  /** The digests of the full chunks of a message, in order. */
  ghost function ChunkDigests(m: seq<byte>): seq<byte> {
    if |m| < CHUNK then [] else Md4.Digest(m[..CHUNK]) + ChunkDigests(m[CHUNK..])
  }

  /** What follows the last full chunk. */
  ghost function Remainder(m: seq<byte>): (r: seq<byte>)
    ensures |r| == |m| % CHUNK
  {
    m[|m| - |m| % CHUNK..]
  }

  /** The ed2k hash of a message; a multiple of the chunk size counts an empty remainder chunk too. */
  ghost function Digest(m: seq<byte>): (d: seq<byte>)
    ensures |d| == 16
  {
    if |m| < CHUNK then Md4.Digest(m) else Md4.Digest(ChunkDigests(m) + Md4.Digest(Remainder(m)))
  }

  /** What the chunk counter, which has 32 bits, makes of it. */
  ghost function Computed(m: seq<byte>): seq<byte> {
    if |m| / CHUNK % WORD == 0 then Md4.Digest(Remainder(m))
    else Md4.Digest(ChunkDigests(m) + Md4.Digest(Remainder(m)))
  }

  /** The counter never shows on fewer than 2^32 chunks (41 petabytes), and in general only on its multiples. */
  lemma ComputedIsDigest(m: seq<byte>)
    requires |m| < CHUNK || |m| / CHUNK % WORD != 0
    ensures Computed(m) == Digest(m)
  {
    hide Md4.Digest, ChunkDigests;
    if |m| < CHUNK {
      assert Remainder(m) == m;
    }
  }

  lemma {:induction false} ChunkDigestsConcat(full: seq<byte>, m: seq<byte>)
    requires |full| % CHUNK == 0
    ensures ChunkDigests(full + m) == ChunkDigests(full) + ChunkDigests(m)
  {
    if full == [] {
      assert full + m == m;
    } else {
      assert (full + m)[..CHUNK] == full[..CHUNK] && (full + m)[CHUNK..] == full[CHUNK..] + m;
      ChunkDigestsConcat(full[CHUNK..], m);
    }
  }

  lemma CountGrows(n: nat, k: nat)
    requires n % CHUNK + k <= CHUNK
    ensures n % CHUNK + k < CHUNK ==> (n + k) % CHUNK == n % CHUNK + k && (n + k) / CHUNK == n / CHUNK
    ensures n % CHUNK + k == CHUNK ==> (n + k) % CHUNK == 0 && (n + k) / CHUNK == n / CHUNK + 1
  {
    var q := n / CHUNK;
    assert n + k == CHUNK * q + (n % CHUNK + k);
  }

  lemma Divides(n: nat, q: nat, x: nat)
    requires n == CHUNK * q + x && x < CHUNK
    ensures n / CHUNK == q && n % CHUNK == x
  {
  }

  lemma SplitAt(full: seq<byte>, x: seq<byte>, q: nat)
    requires |full| == CHUNK * q && |x| < CHUNK
    ensures Remainder(full + x) == x && ChunkDigests(full + x) == ChunkDigests(full)
  {
    hide Md4.Digest, ChunkDigests;
    Divides(|full + x|, q, |x|);
    Divides(|full|, q, 0);
    ChunkDigestsConcat(full, x);
    FewBytes(x);
  }

  lemma Splits(m: seq<byte>) returns (full: seq<byte>)
    ensures |full| == CHUNK * (|m| / CHUNK) && m == full + Remainder(m)
  {
    full := m[..|m| - |m| % CHUNK];
  }

  /** Appending data that does not cross a chunk boundary. */
  lemma ChunkGrows(m: seq<byte>, d: seq<byte>)
    requires |m| % CHUNK + |d| <= CHUNK
    ensures |m| % CHUNK + |d| < CHUNK ==> Remainder(m + d) == Remainder(m) + d && ChunkDigests(m + d) == ChunkDigests(m)
    ensures |m| % CHUNK + |d| == CHUNK ==>
              Remainder(m + d) == [] && ChunkDigests(m + d) == ChunkDigests(m) + Md4.Digest(Remainder(m) + d)
  {
    hide Md4.Digest, ChunkDigests, Remainder;
    var full := Splits(m);
    var q, r := |m| / CHUNK, Remainder(m);
    SplitAt(full, r, q);
    assert m + d == full + (r + d);
    Divides(|full|, q, 0);
    if |r + d| < CHUNK {
      SplitAt(full, r + d, q);
    } else {
      ChunkDigestsConcat(full, r + d);
      FewBytes(r + d);
      assert m + d == m + d + [];
      SplitAt(m + d, [], q + 1);
    }
  }

  lemma FewBytes(m: seq<byte>)
    requires |m| <= CHUNK
    ensures ChunkDigests(m) == if |m| < CHUNK then [] else Md4.Digest(m)
  {
    hide Md4.Digest;
    if |m| == CHUNK {
      assert m[..CHUNK] == m && m[CHUNK..] == [];
    }
  }

  class Context {
    const md4cur: Md4.Context
    const md4final: Md4.Context
    const lastmd4: array<byte>
    var bytesProcessed: nat
    var chunks: word
    ghost var message: seq<byte>

    ghost function Repr(): set<object> {
      {this, lastmd4} + md4cur.Repr() + md4final.Repr()
    }

    ghost predicate Separate() {
      && md4cur.Repr() !! md4final.Repr() && this !in md4cur.Repr() + md4final.Repr()
      && lastmd4 !in md4cur.Repr() + md4final.Repr() && lastmd4.Length == 16
      && md4cur.Allocated() && md4final.Allocated()
    }

    /** The running MD4 covers the current chunk, the final one the digests of the chunks before it. */
    ghost predicate Valid()
      reads Repr()
    {
      && Separate() && md4cur.Valid() && md4final.Valid()
      && bytesProcessed == |message| % CHUNK && chunks == |message| / CHUNK % WORD
      && md4cur.message == Remainder(message) && md4final.message == ChunkDigests(message)
    }

    /** ed2khash_starts, on a new context. */
    constructor ()
      ensures Valid() && message == [] && fresh(Repr())
    {
      hide Md4.Digest, ChunkDigests, Remainder, Md4.Context.Valid;
      md4cur := new Md4.Context();
      md4final := new Md4.Context();
      lastmd4 := new byte[16](i => 0);
      bytesProcessed, chunks := 0, 0;
      message := [];
      new;
      NothingYet();
      assert Separate();
      assert md4cur.Valid() && md4final.Valid();
    }

    lemma NothingYet()
      ensures Remainder([]) == [] == ChunkDigests([])
    {
      hide Md4.Digest;
    }

    /** ed2khash_update. */
    method Update(input: array<byte>, at: nat, ilen: int)
      requires Valid() && ilen < 0x8000_0000 && at + ilen <= input.Length && input !in Repr()
      modifies Repr()
      ensures Valid() && message == old(message) + (if ilen <= 0 then [] else input[at..at + ilen])
      ensures bytesProcessed < CHUNK
    {
      hide Remainder, ChunkDigests, Md4.Digest, Valid;
      var left, pos := ilen, at;
      while left > 0
        invariant Valid() && pos >= at && (ilen > 0 ==> pos + left == at + ilen && left >= 0)
        invariant ilen <= 0 ==> message == old(message) && left == ilen
        invariant ilen > 0 ==> message == old(message) + input[at..pos]
        invariant input[..] == old(input[..])
      {
        ChunkNotFull();
        var x := if bytesProcessed + left >= CHUNK then CHUNK - bytesProcessed else left;
        assert input[at..pos + x] == input[at..pos] + input[pos..pos + x];
        Advance(input, pos, x);
        left := left - x;
        pos := pos + x;
      }
      ChunkNotFull();
    }

    lemma ChunkNotFull()
      requires Valid()
      ensures bytesProcessed < CHUNK
    {
    }

    /** One pass of the update loop, with data that reaches at most the end of the chunk. */
    method Advance(input: array<byte>, at: nat, x: nat)
      requires Valid() && x < 0x8000_0000 && at + x <= input.Length && input !in Repr()
      requires 0 < x && bytesProcessed + x <= CHUNK
      modifies Repr()
      ensures Valid() && message == old(message) + input[at..at + x]
    {
      hide Remainder, ChunkDigests, Md4.Digest, Md4.Context.Valid;
      CountGrows(|message|, x);
      ChunkGrows(message, input[at..at + x]);
      md4cur.Update(input, at, x);
      bytesProcessed := bytesProcessed + x;
      message := message + input[at..at + x];
      if bytesProcessed % CHUNK == 0 {
        NextCount(old(|message|) / CHUNK);
        EndChunk();
      }
    }

    /** The digest of a full chunk goes to the final MD4. */
    method EndChunk()
      requires Separate() && md4cur.Valid() && md4final.Valid()
      modifies this`bytesProcessed, this`chunks, lastmd4, md4cur.Repr(), md4final.Repr()
      ensures md4cur.Valid() && md4final.Valid() && bytesProcessed == 0 && chunks == (old(chunks) + 1) % WORD
      ensures md4cur.message == [] && md4final.message == old(md4final.message) + Md4.Digest(old(md4cur.message))
    {
      hide Md4.Digest, Md4.Context.Valid;
      md4cur.Finish(lastmd4);
      md4cur.Starts();
      bytesProcessed := 0;
      chunks := (chunks + 1) % WORD;
      assert lastmd4[0..0 + 16] == lastmd4[..16];
      md4final.Update(lastmd4, 0, 16);
    }

    lemma NextCount(n: nat)
      ensures (n % WORD + 1) % WORD == (n + 1) % WORD
    {
      assert n + 1 == n % WORD + 1 + WORD * (n / WORD);
    }

    /** ed2khash_finish. */
    method Finish(output: array<byte>)
      requires Valid() && output.Length >= 16 && output !in Repr()
      modifies Repr(), output
      ensures output[..16] == Computed(old(message))
    {
      hide Remainder, ChunkDigests, Md4.Digest, Md4.Context.Valid;
      if chunks > 0 {
        md4cur.Finish(lastmd4);
        assert lastmd4[0..0 + 16] == lastmd4[..16];
        md4final.Update(lastmd4, 0, 16);
        md4final.Finish(output);
      } else {
        md4cur.Finish(output);
      }
    }
  }
}
