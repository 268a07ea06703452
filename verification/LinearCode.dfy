/** The (182,172) code: codewords, minimum distance, generator polynomial, systematic encoding. */
module LinearCode {
  import opened Bytes
  import opened GaloisField
  import opened Polynomials
  import opened BerlekampMassey
  import opened ErrorLocator

  const NN: nat := 255
  const CODE_LENGTH: nat := 182
  const MESSAGE_LENGTH: nat := 172
  const PAD: nat := 73

  ghost predicate VanishesAtRoots(w: seq<byte>) {
    forall i :: 0 <= i < NROOTS ==> WordValue(w, Exp(i)) == 0
  }

  ghost predicate IsCodeword(w: seq<byte>) {
    |w| == CODE_LENGTH && VanishesAtRoots(w)
  }

  // ---------- minimum distance ----------

  lemma {:induction false} WeightZero(v: seq<byte>)
    requires Weight(v) == 0
    ensures AllZero(v)
  {
    if v != [] {
      WeightZero(v[1..]);
    }
  }

  /** The BCH bound: a nonzero word of up to 255 bytes vanishing at ten consecutive powers has weight above ten. */
  lemma LightWordIsZero(w: seq<byte>)
    requires |w| <= NN && Weight(w) <= NROOTS && VanishesAtRoots(w)
    ensures AllZero(w)
  {
    hide Mul, Xor, Exp, WordValue;
    var ls := Locators(|w|);
    LocatorsDistinct(|w|);
    SupportShape(ls, w);
    var xs, vs := SupportNodes(ls, w), SupportValues(w);
    forall n: nat | n < |xs|
      ensures PowerSum(xs, vs, n) == 0
    {
      SupportPowerSum(ls, w, n);
      WordIsPowerSum(w, n);
      assert WordValue(w, Exp(n)) == 0;
    }
    if xs != [] {
      var v := vs[0];
      Vandermonde(xs, vs);
      assert false;
    }
    WeightZero(w);
  }

  /** Two different codewords differ in at least eleven bytes. */
  lemma MinimumDistance(a: seq<byte>, b: seq<byte>)
    requires IsCodeword(a) && IsCodeword(b) && a != b
    ensures Weight(XorWords(a, b)) >= NROOTS + 1
  {
    hide Mul, Xor, Exp, WordValue;
    var d := XorWords(a, b);
    forall i | 0 <= i < NROOTS
      ensures WordValue(d, Exp(i)) == 0
    {
      WordValueXor(a, b, Exp(i));
      XorUnits(0);
    }
    if Weight(d) <= NROOTS {
      LightWordIsZero(d);
      forall p | 0 <= p < |a|
        ensures a[p] == b[p]
      {
        XorCancels(a[p], b[p]);
        assert d[p] == 0;
      }
      assert false;
    }
  }

  /** A codeword with one to ten bytes changed always shows a nonzero syndrome. */
  lemma DetectsUpToTen(c: seq<byte>, e: seq<byte>)
    requires IsCodeword(c) && |e| == CODE_LENGTH && 1 <= Weight(e) <= NROOTS
    ensures exists i :: 0 <= i < NROOTS && WordValue(XorWords(c, e), Exp(i)) != 0
  {
    hide Mul, Xor, Exp, WordValue;
    var w := XorWords(c, e);
    if forall i :: 0 <= i < NROOTS ==> WordValue(w, Exp(i)) == 0 {
      assert IsCodeword(w);
      var d := XorWords(c, w);
      forall p | 0 <= p < |e|
        ensures d[p] == e[p]
      {
        XorCancels(c[p], e[p]);
      }
      assert d == e;
      if c == w {
        forall p | 0 <= p < |e|
          ensures e[p] == 0
        {
          XorUnits(c[p]);
        }
        WeightOfZeros(e);
      }
      MinimumDistance(c, w);
      assert false;
    }
  }

  lemma {:induction false} WeightOfZeros(v: seq<byte>)
    requires AllZero(v)
    ensures Weight(v) == 0
  {
    if v != [] {
      WeightOfZeros(v[1..]);
    }
  }

  // ---------- the generator polynomial, constant term first ----------

  /** p(x) * (x + r). */
  ghost function TimesRoot(p: seq<byte>, r: byte): (q: seq<byte>)
    ensures |q| == |p| + 1
    ensures forall j {:trigger q[j]} :: 0 <= j <= |p| ==>
      q[j] == Xor(if j > 0 then p[j - 1] else 0, if j < |p| then Mul(r, p[j]) else 0)
  {
    XorWords([0] + p, Scaled(r, p) + [0])
  }

  lemma {:induction false} EvalXor(a: seq<byte>, b: seq<byte>, y: byte)
    requires |a| == |b|
    ensures Eval(XorWords(a, b), y) == Xor(Eval(a, y), Eval(b, y))
  {
    hide Mul, Xor;
    if a == [] {
      XorUnits(0);
    } else {
      var c := XorWords(a, b);
      assert c[1..] == XorWords(a[1..], b[1..]);
      EvalXor(a[1..], b[1..], y);
      MulDistributes(y, Eval(a[1..], y), Eval(b[1..], y));
      XorInterchange(a[0], b[0], Mul(y, Eval(a[1..], y)), Mul(y, Eval(b[1..], y)));
    }
  }

  lemma {:induction false} EvalScaledSnoc(r: byte, p: seq<byte>, y: byte)
    ensures Eval(Scaled(r, p) + [0], y) == Mul(r, Eval(p, y))
  {
    hide Mul, Xor;
    if p == [] {
      MulUnit(r);
      MulUnit(y);
      XorUnits(0);
      assert (Scaled(r, p) + [0])[1..] == [];
    } else {
      var q := Scaled(r, p) + [0];
      assert q[1..] == Scaled(r, p[1..]) + [0];
      EvalScaledSnoc(r, p[1..], y);
      MulSwap(y, r, Eval(p[1..], y));
      MulDistributes(r, p[0], Mul(y, Eval(p[1..], y)));
    }
  }

  lemma TimesRootEval(p: seq<byte>, r: byte, y: byte)
    ensures Eval(TimesRoot(p, r), y) == Mul(Xor(y, r), Eval(p, y))
  {
    hide Mul, Xor;
    EvalXor([0] + p, Scaled(r, p) + [0], y);
    assert ([0] + p)[1..] == p;
    XorUnits(Mul(y, Eval(p, y)));
    EvalScaledSnoc(r, p, y);
    MulDistributes(Eval(p, y), y, r);
  }

  /** The product of (x + alpha^i) for i < n. */
  ghost function Generator(n: nat): (g: seq<byte>)
    ensures |g| == n + 1
  {
    if n == 0 then [1] else TimesRoot(Generator(n - 1), Exp(n - 1))
  }

  lemma {:induction false} GeneratorMonic(n: nat)
    ensures Generator(n)[n] == 1
  {
    hide Mul, Xor;
    if n > 0 {
      GeneratorMonic(n - 1);
      XorUnits(1);
    }
  }

  lemma {:induction false} GeneratorRoots(n: nat, i: nat)
    requires i < n
    ensures Eval(Generator(n), Exp(i)) == 0
  {
    hide Mul, Xor, Exp;
    TimesRootEval(Generator(n - 1), Exp(n - 1), Exp(i));
    if i == n - 1 {
      XorUnits(Exp(i));
    } else {
      GeneratorRoots(n - 1, i);
    }
    MulUnit(Eval(Generator(n - 1), Exp(i)));
    MulUnit(Xor(Exp(i), Exp(n - 1)));
  }

  ghost function Reversed(p: seq<byte>): (w: seq<byte>)
    ensures |w| == |p| && forall j :: 0 <= j < |p| ==> w[j] == p[|p| - 1 - j]
  {
    if p == [] then [] else Reversed(p[1..]) + [p[0]]
  }

  lemma {:induction false} ReversedValue(p: seq<byte>, y: byte)
    ensures WordValue(Reversed(p), y) == Eval(p, y)
  {
    hide Mul, Xor;
    if p != [] {
      ReversedValue(p[1..], y);
      WordValueSnoc(Reversed(p[1..]), p[0], y);
      MulCommutes(y, Eval(p[1..], y));
      XorCommutes(p[0], Mul(y, Eval(p[1..], y)));
    }
  }

  lemma {:induction false} FullWeight(v: seq<byte>, j: nat)
    requires Weight(v) >= |v| && j < |v|
    ensures v[j] != 0
  {
    WeightBound(v[1..]);
    if j > 0 {
      FullWeight(v[1..], j - 1);
    }
  }

  lemma {:induction false} WeightBound(v: seq<byte>)
    ensures Weight(v) <= |v|
  {
    if v != [] {
      WeightBound(v[1..]);
    }
  }

  /** The generator read as a word, leading coefficient first. */
  ghost function GeneratorWord(): (w: seq<byte>)
    ensures |w| == NROOTS + 1
  {
    Reversed(Generator(NROOTS))
  }

  lemma GeneratorWordVanishes()
    ensures GeneratorWord()[0] == 1 && VanishesAtRoots(GeneratorWord())
  {
    hide Mul, Xor, Exp, WordValue, Eval;
    GeneratorMonic(NROOTS);
    forall i | 0 <= i < NROOTS
      ensures WordValue(GeneratorWord(), Exp(i)) == 0
    {
      ReversedValue(Generator(NROOTS), Exp(i));
      GeneratorRoots(NROOTS, i);
    }
  }

  /** No coefficient of the generator vanishes, as the encoder takes for granted. */
  lemma GeneratorNonzero(j: nat)
    requires j <= NROOTS
    ensures Generator(NROOTS)[j] != 0
  {
    hide Mul, Xor, Exp, WordValue, Generator;
    var w := GeneratorWord();
    GeneratorWordVanishes();
    if Weight(w) <= NROOTS {
      LightWordIsZero(w);
      assert false;
    }
    FullWeight(w, NROOTS - j);
  }

  // ---------- systematic encoding ----------

  /** One step of the shift register: feed d in, divide by the generator. */
  ghost function EncodeStep(p: seq<byte>, d: byte): (p': seq<byte>)
    requires |p| == NROOTS
    ensures |p'| == NROOTS
  {
    XorWords(p[1..] + [0], Scaled(Xor(d, p[0]), GeneratorWord()[1..]))
  }

  lemma EncodeStepAt(p: seq<byte>, d: byte, j: nat)
    requires |p| == NROOTS && j < NROOTS
    ensures EncodeStep(p, d)[j]
         == Xor(if j + 1 < NROOTS then p[j + 1] else 0, Mul(Xor(d, p[0]), Generator(NROOTS)[NROOTS - 1 - j]))
  {
    hide Xor, Mul, Generator;
    var shifted, w := p[1..] + [0], GeneratorWord()[1..];
    assert shifted[j] == if j + 1 < NROOTS then p[j + 1] else 0;
    assert w[j] == Generator(NROOTS)[NROOTS - 1 - j];
  }

  /** The parity of a message. */
  ghost function Parity(m: seq<byte>): (p: seq<byte>)
    ensures |p| == NROOTS
  {
    if m == [] then Zeros(NROOTS) else EncodeStep(Parity(m[..|m| - 1]), m[|m| - 1])
  }

  lemma {:induction false} WordValueScaled(d: byte, w: seq<byte>, x: byte)
    ensures WordValue(Scaled(d, w), x) == Mul(d, WordValue(w, x))
  {
    hide Mul, Xor;
    if w == [] {
      MulUnit(d);
    } else {
      assert Scaled(d, w)[1..] == Scaled(d, w[1..]);
      WordValueScaled(d, w[1..], x);
      var p := Pow(x, |w| - 1);
      MulAssociates(d, w[0], p);
      MulDistributes(d, Mul(w[0], p), WordValue(w[1..], x));
    }
  }

  lemma {:induction false} WordValueZeros(w: seq<byte>, x: byte)
    requires AllZero(w)
    ensures WordValue(w, x) == 0
  {
    hide Mul, Xor;
    if w != [] {
      WordValueZeros(w[1..], x);
      MulUnit(Pow(x, |w| - 1));
      XorUnits(0);
    }
  }

  /** At a root x of the generator a register step multiplies by x and adds d * x^10. */
  lemma EncodeStepValue(p: seq<byte>, d: byte, x: byte)
    requires |p| == NROOTS && WordValue(GeneratorWord(), x) == 0
    ensures WordValue(EncodeStep(p, d), x) == Xor(Mul(WordValue(p, x), x), Mul(d, Pow(x, NROOTS)))
  {
    hide Mul, Xor;
    var f := Xor(d, p[0]);
    var g := GeneratorWord();
    var x10 := Pow(x, NROOTS);
    var h := WordValue(p[1..], x);
    GeneratorWordVanishes();
    MulUnit(x10);
    XorCancels(x10, WordValue(g[1..], x));
    assert WordValue(g[1..], x) == x10;
    WordValueXor(p[1..] + [0], Scaled(f, g[1..]), x);
    WordValueScaled(f, g[1..], x);
    WordValueSnoc(p[1..], 0, x);
    XorUnits(Mul(h, x));
    // value of the step: h * x + f * x^10
    MulDistributes(x10, d, p[0]);
    var head := Mul(p[0], Pow(x, NROOTS - 1));
    MulDistributes(x, head, h);
    MulAssociates(p[0], Pow(x, NROOTS - 1), x);
    MulCommutes(Pow(x, NROOTS - 1), x);
    assert Mul(head, x) == Mul(p[0], x10);
    XorCommutes(Mul(d, x10), Mul(p[0], x10));
    XorAssociates(Mul(h, x), Mul(p[0], x10), Mul(d, x10));
    XorCommutes(Mul(h, x), Mul(p[0], x10));
  }

  /** The register holds the remainder: message times x^10 plus parity vanishes at every root of the generator. */
  lemma {:induction false} ParityBalances(m: seq<byte>, x: byte)
    requires WordValue(GeneratorWord(), x) == 0
    ensures WordValue(m + Parity(m), x) == 0
  {
    hide Mul, Xor, EncodeStep, WordValue;
    var x10 := Pow(x, NROOTS);
    WordValueConcat(m, Parity(m), x);
    if m == [] {
      assert m + Parity(m) == Parity(m);
      WordValueZeros(Parity(m), x);
    } else {
      var m', d := m[..|m| - 1], m[|m| - 1];
      assert m == m' + [d];
      ParityBalances(m', x);
      WordValueConcat(m', Parity(m'), x);
      var h, p := WordValue(m', x), WordValue(Parity(m'), x);
      WordValueSnoc(m', d, x);
      EncodeStepValue(Parity(m'), d, x);
      XorCancels(Mul(h, x10), p);
      // (h x + d) x^10 + (p x + d x^10), with p = h x^10
      MulDistributes(x10, Mul(h, x), d);
      MulAssociates(h, x, x10);
      MulCommutes(x, x10);
      MulAssociates(h, x10, x);
      XorUnits(Xor(Mul(p, x), Mul(d, x10)));
    }
  }

  ghost function Encoded(m: seq<byte>): seq<byte> {
    m + Parity(m)
  }

  /** Encoding always produces a codeword. */
  lemma EncodedIsCodeword(m: seq<byte>)
    requires |m| == MESSAGE_LENGTH
    ensures IsCodeword(Encoded(m))
  {
    hide WordValue, Exp, Parity, GeneratorWord;
    GeneratorWordVanishes();
    forall i | 0 <= i < NROOTS
      ensures WordValue(Encoded(m), Exp(i)) == 0
    {
      ParityBalances(m, Exp(i));
    }
  }

  lemma {:induction false} WeightSplit(u: seq<byte>, v: seq<byte>)
    ensures Weight(u + v) == Weight(u) + Weight(v)
  {
    if u == [] {
      assert u + v == v;
    } else {
      assert (u + v)[1..] == u[1..] + v;
      WeightSplit(u[1..], v);
    }
  }

  /** The parity is the only completion of a message to a codeword. */
  lemma CodewordIffEncoded(w: seq<byte>)
    requires |w| == CODE_LENGTH
    ensures IsCodeword(w) <==> w == Encoded(w[..MESSAGE_LENGTH])
  {
    hide WordValue, Exp, Parity, Xor;
    var m := w[..MESSAGE_LENGTH];
    var c := Encoded(m);
    EncodedIsCodeword(m);
    if IsCodeword(w) && w != c {
      var d := XorWords(w, c);
      MinimumDistance(w, c);
      forall p | 0 <= p < MESSAGE_LENGTH
        ensures d[..MESSAGE_LENGTH][p] == 0
      {
        XorUnits(w[p]);
      }
      WeightOfZeros(d[..MESSAGE_LENGTH]);
      assert d == d[..MESSAGE_LENGTH] + d[MESSAGE_LENGTH..];
      WeightSplit(d[..MESSAGE_LENGTH], d[MESSAGE_LENGTH..]);
      WeightBound(d[MESSAGE_LENGTH..]);
      assert false;
    }
  }

  /** Encodings of different messages differ in at least eleven bytes. */
  lemma EncodingsFarApart(m: seq<byte>, m': seq<byte>)
    requires |m| == |m'| == MESSAGE_LENGTH && m != m'
    ensures Weight(XorWords(Encoded(m), Encoded(m'))) >= NROOTS + 1
  {
    hide WordValue, Exp, Parity, Xor;
    EncodedIsCodeword(m);
    EncodedIsCodeword(m');
    assert Encoded(m)[..MESSAGE_LENGTH] == m && Encoded(m')[..MESSAGE_LENGTH] == m';
    MinimumDistance(Encoded(m), Encoded(m'));
  }

  // ---------- syndromes of a received word ----------

  ghost function WordSyndromes(w: seq<byte>): (s: seq<byte>)
    ensures |s| == NROOTS && forall i :: 0 <= i < NROOTS ==> s[i] == WordValue(w, Exp(i))
  {
    seq(NROOTS, i requires 0 <= i < NROOTS => WordValue(w, Exp(i)))
  }

  ghost function ErrorNodes(e: seq<byte>): seq<byte> {
    SupportNodes(Locators(|e|), e)
  }

  /** The syndromes of a damaged codeword are those of the damage alone. */
  lemma DamagedSyndromes(c: seq<byte>, e: seq<byte>)
    requires IsCodeword(c) && |e| == CODE_LENGTH
    ensures |ErrorNodes(e)| == |SupportValues(e)| == Weight(e)
    ensures Errors(ErrorNodes(e), SupportValues(e))
    ensures WordSyndromes(XorWords(c, e)) == Syndromes(ErrorNodes(e), SupportValues(e))
  {
    hide Mul, Xor, Exp, WordValue;
    var ls := Locators(CODE_LENGTH);
    LocatorsDistinct(CODE_LENGTH);
    SupportShape(ls, e);
    var xs, es := ErrorNodes(e), SupportValues(e);
    forall l | 0 <= l < |xs|
      ensures xs[l] != 0
    {
      var p := SupportIndex(ls, e, l);
      ExpNonzero(CODE_LENGTH - 1 - p);
    }
    forall i | 0 <= i < NROOTS
      ensures WordSyndromes(XorWords(c, e))[i] == Syndromes(xs, es)[i]
    {
      WordValueXor(c, e, Exp(i));
      XorUnits(WordValue(e, Exp(i)));
      WordIsPowerSum(e, i);
      SupportPowerSum(ls, e, i);
    }
  }

  /** Position p is damaged exactly when its locator is among the error locators. */
  lemma ErrorNodeAt(e: seq<byte>, p: nat)
    requires |e| == CODE_LENGTH && p < CODE_LENGTH
    ensures Exp(CODE_LENGTH - 1 - p) in ErrorNodes(e) <==> e[p] != 0
  {
    hide Exp;
    LocatorsDistinct(CODE_LENGTH);
    SupportMembers(Locators(CODE_LENGTH), e, p);
  }
}
