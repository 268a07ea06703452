/** All checksums of a stream at once; SHA-1 comes last because it destroys the data. */
module Multihash {
  import opened Bytes
  import opened Words
  import Crc32
  import Ed2k
  import Md4
  import Md5
  import Sha1

  datatype Digests = Digests(crc32: word, md4: seq<byte>, md5: seq<byte>, ed2k: seq<byte>, sha1: seq<byte>)

  /** The CRC-32 of a message: register preset to ones, result complemented. */
  ghost function Crc(m: seq<byte>): word {
    Crc32.RegisterFits(0xffff_ffff, m);
    XorWord(Crc32.Register(0xffff_ffff, m), 0xffff_ffff)
  }

  /** What the program reports: its calls that feed MD4 and ed2k are commented out. */
  ghost function Reported(m: seq<byte>): Digests {
    Digests(Crc(m), Md4.Digest([]), Md5.Digest(m), Ed2k.Digest([]), Sha1.Digest(m))
  }

  class Multihash {
    var crc32: word
    const md4: Md4.Context
    const md5: Md5.Context
    const ed2k: Ed2k.Context
    const sha1: Sha1.Context
    ghost var message: seq<byte>

    /** The memory of the hashes. */
    ghost const repr: set<object>

    ghost predicate Separate() {
      && repr == {this} + md4.Repr() + md5.Repr() + ed2k.Repr() + sha1.Repr()
      && this !in md4.Repr() + md5.Repr() + ed2k.Repr() + sha1.Repr()
      && md4.Repr() !! md5.Repr() !! ed2k.Repr() !! sha1.Repr()
    }

    /** Every hash that is fed has absorbed the message; MD4 and ed2k have absorbed nothing. */
    ghost predicate Valid()
      reads this, repr
    {
      && Separate()
      && crc32 == Crc32.Register(0xffff_ffff, message)
      && md4.Valid() && md4.message == []
      && md5.Valid() && md5.message == message
      && ed2k.Valid() && ed2k.message == []
      && sha1.Valid() && sha1.message == message
    }

    /** multihash_init. */
    constructor ()
      ensures Valid() && message == [] && fresh(repr)
    {
      hide Md4.Context.Valid, Md5.Context.Valid, Ed2k.Context.Valid, Sha1.Context.Valid, Crc32.Register;
      hide Md4.Context.Repr, Md5.Context.Repr, Ed2k.Context.Repr, Sha1.Context.Repr;
      crc32 := 0xffff_ffff;
      var c4 := new Md4.Context();
      Md4Allocated(c4);
      var c5 := new Md5.Context();
      Md5Allocated(c5);
      var ce := new Ed2k.Context();
      Ed2kAllocated(ce);
      var c1 := new Sha1.Context();
      Sha1Allocated(c1);
      md4, md5, ed2k, sha1 := c4, c5, ce, c1;
      repr := {this} + c4.Repr() + c5.Repr() + ce.Repr() + c1.Repr();
      message := [];
      new;
      Crc32.NoMessage(0xffff_ffff);
    }

    static lemma Md4Allocated(c: Md4.Context)
      ensures allocated(c.Repr())
    {
    }

    static lemma Md5Allocated(c: Md5.Context)
      ensures allocated(c.Repr())
    {
    }

    static lemma Ed2kAllocated(c: Ed2k.Context)
      ensures allocated(c.Repr())
    {
    }

    static lemma Sha1Allocated(c: Sha1.Context)
      ensures allocated(c.Repr())
    {
    }

    /** multihash_update. The data may come back overwritten, but every hash is that of the data passed in. */
    method Update(data: array<byte>, at: nat, bytes: nat)
      requires Valid() && at + bytes <= data.Length && bytes < 0x8000_0000 && data !in repr
      modifies repr, data
      ensures Valid() && message == old(message) + old(data[at..at + bytes])
      ensures forall p :: 0 <= p < at || at + bytes <= p < data.Length ==> data[p] == old(data[p])
    {
      hide Md4.Context.Valid, Md5.Context.Valid, Ed2k.Context.Valid, Sha1.Context.Valid, Crc32.Register;
      ghost var d := data[at..at + bytes];
      Crc32.RegisterConcat(0xffff_ffff, message, d);
      crc32 := Crc32.Update(crc32, data, at, bytes);
      message := message + d;
      assert bytes == 0 ==> d == [];
      md5.Update(data, at, bytes);
      sha1.Update(data, at, bytes);
    }

    /** multihash_finish, without the hexadecimal strings. */
    method Finish() returns (digests: Digests)
      requires Valid()
      modifies repr
      ensures digests == Reported(old(message))
    {
      hide Md4.Context.Valid, Md5.Context.Valid, Ed2k.Context.Valid, Sha1.Context.Valid, Crc32.Register;
      hide Md4.Digest, Md5.Digest, Sha1.Digest, Ed2k.Digest, Ed2k.Computed;
      Ed2k.ComputedIsDigest([]);
      crc32 := XorWord(crc32, 0xffff_ffff);
      var buf := new byte[20];
      md4.Finish(buf);
      var md4s := buf[..16];
      md5.Final();
      var md5s := md5.digest[..];
      ed2k.Finish(buf);
      var ed2ks := buf[..16];
      sha1.Final(buf);
      var sha1s := buf[..20];
      digests := Digests(crc32, md4s, md5s, ed2ks, sha1s);
    }
  }
}
