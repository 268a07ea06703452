/** Lengths counted in two 32-bit words. */
module Counters {
  import opened Words
  import opened Blocks

  /** The two 32-bit counters hold the bit length modulo 2^64. */
  ghost predicate Counts(lo: word, hi: word, n: nat) {
    lo + WORD * hi == 8 * n % (WORD * WORD)
  }

  lemma CountsAdd(lo: word, hi: word, n: nat, len: nat, c: word)
    requires Counts(lo, hi, n) && len < WORD && c == 8 * len % WORD
    ensures var lo' := (lo + c) % WORD;
            var hi' := if lo' < c then (hi + 1) % WORD else hi;
            Counts(lo', (hi' + len / 0x2000_0000) % WORD, n + len)
  {
    var u := len / 0x2000_0000;
    var lo' := (lo + c) % WORD;
    var carry := if lo' < c then 1 else 0;
    assert lo + c == lo' + WORD * carry;
    assert 8 * len == c + WORD * u;
    var q := 8 * n / (WORD * WORD);
    assert 8 * n == lo + WORD * hi + WORD * WORD * q;
    var h := hi + carry + u;
    assert 8 * (n + len) == lo' + WORD * (h % WORD) + WORD * WORD * (q + h / WORD);
    CarryModulo(hi, carry, u);
    TwoWords(lo', h % WORD, q + h / WORD);
  }

  lemma CarryModulo(hi: word, carry: nat, u: nat)
    requires carry <= 1
    ensures ((hi + carry) % WORD + u) % WORD == (hi + carry + u) % WORD
  {
    var a := hi + carry;
    assert a + u == a % WORD + u + WORD * (a / WORD);
  }

  lemma TwoWords(lo: word, hi: word, q: int)
    ensures (lo + WORD * hi + WORD * WORD * q) % (WORD * WORD) == lo + WORD * hi
  {
  }

  /** The low counter gives the number of bytes waiting in the buffer. */
  lemma CountsModulo(lo: word, hi: word, n: nat)
    requires Counts(lo, hi, n)
    ensures lo / 8 % BLOCK == n % BLOCK
  {
    var q := 8 * n / (WORD * WORD);
    var h := hi + WORD * q;
    assert 8 * n == lo + WORD * h;
    CountsDivide(lo, n, h);
  }

  lemma CountsDivide(lo: word, n: nat, h: int)
    requires 8 * n == lo + WORD * h
    ensures lo / 8 % BLOCK == n % BLOCK
  {
    assert lo / 8 == n - 0x2000_0000 * h;
    assert n == lo / 8 + BLOCK * (0x80_0000 * h);
  }
}
