/** What MD4 and MD5 have in common: registers, padding, byte order. */
module MessageDigest {
  import opened Bytes
  import opened Words
  import opened Blocks

  datatype Registers = Registers(a: word, b: word, c: word, d: word)

  type Words16 = w: seq<word> | |w| == 16 witness seq(16, i => 0)

  const INITIAL := Registers(0x67452301, 0xEFCDAB89, 0x98BADCFE, 0x10325476)

  function WordsOf(block: Block): Words16 {
    seq(16, t requires 0 <= t < 16 => LittleEndianWord(block, t))
  }

  ghost function RegistersOf(s: seq<word>): Registers
    requires |s| == 4
  {
    Registers(s[0], s[1], s[2], s[3])
  }

  /** The bit length as eight bytes, least significant first. */
  function LengthBytes(n: nat): (s: seq<byte>)
    ensures |s| == 8
  {
    var bits := 8 * n % (WORD * WORD);
    LittleEndianBytes(bits % WORD) + LittleEndianBytes(bits / WORD)
  }

  /** Sections 3.1 and 3.2 of RFC 1320 and of RFC 1321: a one bit, zeros up to 56 bytes modulo 64, the length. */
  function Padded(m: seq<byte>): (p: seq<byte>)
    ensures |p| % BLOCK == 0
  {
    var k := (119 - |m| % BLOCK) % BLOCK;
    assert (|m| + 1 + k + 8) % BLOCK == 0;
    m + [0x80] + Zeros(k) + LengthBytes(|m|)
  }

  function DigestBytes(r: Registers): (d: seq<byte>)
    ensures |d| == 16
  {
    LittleEndianBytes(r.a) + LittleEndianBytes(r.b) + LittleEndianBytes(r.c) + LittleEndianBytes(r.d)
  }
}
