/** Files opened for reading and appending. */
module Streams {
  import opened Bytes

  /** What the file system does for an output: whether setting it up fails, and how much it takes of each write. */
  datatype Medium = Medium(fails: bool, taken: nat -> nat)

  /** The first k bytes of an item. */
  function Part(item: seq<byte>, k: nat): (p: seq<byte>)
    ensures p <= item && (k >= |item| ==> p == item)
  {
    if k < |item| then item[..k] else item
  }

  /** A stream in append mode: reads follow the position, writes go to the end wherever it is. */
  class Stream {
    /** How many bytes the file system takes of the n-th write. */
    const taken: nat -> nat
    var content: seq<byte>
    var pos: nat
    var writes: nat

    constructor (content: seq<byte>, taken: nat -> nat)
      ensures this.content == content && this.taken == taken && pos == 0 == writes
    {
      this.content, this.taken, pos, writes := content, taken, 0, 0;
    }

    /** fread of one item of n bytes. */
    method ReadItem(buf: array<byte>, n: nat) returns (items: nat)
      requires n <= buf.Length && n > 0
      modifies this`pos, buf
      ensures items == if old(pos) + n <= |content| then 1 else 0
      ensures items == 1 ==> buf[..n] == content[old(pos)..old(pos) + n] && pos == old(pos) + n
    {
      if pos + n <= |content| {
        forall i | 0 <= i < n {
          buf[i] := content[pos + i];
        }
        pos := pos + n;
        items := 1;
      } else {
        forall i | 0 <= i < n && pos + i < |content| {
          buf[i] := content[pos + i];
        }
        pos := if pos < |content| then |content| else pos;
        items := 0;
      }
    }

    /** fwrite of one item of n bytes, and ferror: a write that fails may still leave a part of the item. */
    method Append(src: array<byte>, at: nat, n: nat) returns (ok: bool)
      requires at + n <= src.Length
      modifies this
      ensures writes == old(writes) + 1 && ok == (taken(old(writes)) >= n)
      ensures content == old(content) + Part(src[at..at + n], taken(old(writes)))
    {
      var k := taken(writes);
      ok := k >= n;
      content := content + Part(src[at..at + n], k);
      pos, writes := |content|, writes + 1;
    }

    method Seek(to: nat)
      modifies this`pos
      ensures pos == to
    {
      pos := to;
    }

    method Truncate(n: nat)
      requires n <= |content|
      modifies this`content
      ensures content == old(content[..n])
    {
      content := content[..n];
    }
  }
}
