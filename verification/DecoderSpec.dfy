/** What rs_decode computes without erasures, as a function of the received word, and what that is worth. */
module DecoderSpec {
  import opened Bytes
  import opened GaloisField
  import opened Polynomials
  import opened BerlekampMassey
  import opened ErrorLocator
  import opened LinearCode
  import opened Forney

  /** The table index_of, with its mark for zero. */
  ghost function IndexOf(b: byte): (i: nat)
    ensures i <= NN
    ensures i == NN <==> b == 0
  {
    if b == 0 then NN else Log(b)
  }

  ghost function Degree(c: seq<byte>, n: nat): (d: nat)
    requires n < |c|
    ensures d <= n && (d > 0 ==> c[d] != 0)
    ensures forall i :: d < i <= n ==> c[i] == 0
  {
    if n == 0 || c[n] != 0 then n else Degree(c, n - 1)
  }

  /** The numerator terms from i up, each read through the tables. */
  ghost function NumeratorCode(c: seq<byte>, s: seq<byte>, deg: nat, root: nat, i: nat): byte
    requires |c| == NROOTS + 1 && |s| == NROOTS && i <= deg <= NROOTS
    decreases deg - i
  {
    if i == deg then 0 else
      var omega := Conv(c, s, i);
      var rest := NumeratorCode(c, s, deg, root, i + 1);
      if omega == 0 then rest else Xor(rest, TablePower(Log(omega) + i * root))
  }

  /** The first even index of the denominator loop. */
  function DenominatorTop(deg: nat): (top: nat)
    ensures top % 2 == 0
  {
    var m := if deg < NROOTS - 1 then deg else NROOTS - 1;
    m - m % 2
  }

  /** The denominator terms at even i, i + 2, ... read through the tables. */
  ghost function DenominatorCode(c: seq<byte>, deg: nat, root: nat, i: nat): byte
    requires |c| == NROOTS + 1 && deg <= NROOTS && i % 2 == 0
    decreases DenominatorTop(deg) + 2 - i
  {
    if i > DenominatorTop(deg) then 0 else
      var rest := DenominatorCode(c, deg, root, i + 2);
      if c[i + 1] == 0 then rest else Xor(rest, TablePower(Log(c[i + 1]) + i * root))
  }

  /** The argument of the last table lookup. */
  ghost function QuotientArgument(num1: byte, num2: byte, den: byte): nat {
    IndexOf(num1) + IndexOf(num2) + NN - IndexOf(den)
  }

  /** The byte added to the data at the location of the given root. */
  ghost function Correction(c: seq<byte>, s: seq<byte>, deg: nat, root: nat): byte
    requires |c| == NROOTS + 1 && |s| == NROOTS && deg <= NROOTS && 1 <= root <= NN
  {
    var num1 := NumeratorCode(c, s, deg, root, 0);
    var num2 := TablePower(NN - root);
    var den := DenominatorCode(c, deg, root, 0);
    if num1 == 0 then 0 else TablePower(QuotientArgument(num1, num2, den))
  }

  /** The root exponent whose location is byte p of the data. */
  function RootOf(p: nat): nat { p + PAD + 1 }

  /** The word after patching every location found. */
  ghost function Patched(w: seq<byte>, c: seq<byte>, s: seq<byte>, deg: nat, roots: seq<nat>): (w': seq<byte>)
    requires |w| == CODE_LENGTH && |c| == NROOTS + 1 && |s| == NROOTS && deg <= NROOTS
    ensures |w'| == CODE_LENGTH
    ensures forall p :: 0 <= p < CODE_LENGTH ==>
      w'[p] == if RootOf(p) in roots then Xor(w[p], Correction(c, s, deg, RootOf(p))) else w[p]
  {
    seq(CODE_LENGTH, p requires 0 <= p < CODE_LENGTH =>
      if RootOf(p) in roots then Xor(w[p], Correction(c, s, deg, RootOf(p))) else w[p])
  }

  /** The return value, the root exponents in the order found, and the data left behind. */
  datatype Outcome = Outcome(count: int, roots: seq<nat>, word: seq<byte>)

  ghost function Decoded(w: seq<byte>): (o: Outcome)
    requires |w| == CODE_LENGTH
    ensures |o.word| == CODE_LENGTH
  {
    var s := WordSyndromes(w);
    if AllZero(s) then Outcome(0, [], w) else
      var c := Run(s, NROOTS).lambda;
      var deg := Degree(c, NROOTS);
      var roots := RootsTo(c, NN);
      if |roots| != deg then Outcome(-1, roots, w)
      else Outcome(deg, roots, Patched(w, c, s, deg, roots))
  }

  // ---------- no error ----------

  lemma SyndromesOfCodeword(w: seq<byte>)
    requires |w| == CODE_LENGTH
    ensures AllZero(WordSyndromes(w)) <==> IsCodeword(w)
  {
    hide WordValue, Exp;
    var s := WordSyndromes(w);
    if AllZero(s) {
      forall i | 0 <= i < NROOTS
        ensures WordValue(w, Exp(i)) == 0
      {
        assert s[i] == 0;
      }
    }
  }

  /** Decoding what the encoder produced returns zero and changes nothing. */
  lemma DecodeEncoded(m: seq<byte>)
    requires |m| == MESSAGE_LENGTH
    ensures Decoded(Encoded(m)) == Outcome(0, [], Encoded(m))
  {
    hide WordValue, Exp, Parity;
    EncodedIsCodeword(m);
    SyndromesOfCodeword(Encoded(m));
  }

  // ---------- location of up to five errors ----------

  lemma LocationFacts(c: seq<byte>, e: seq<byte>) returns (s: seq<byte>, lambda: seq<byte>)
    requires IsCodeword(c) && |e| == CODE_LENGTH && 1 <= Weight(e) <= 5
    ensures |ErrorNodes(e)| == |SupportValues(e)| == Weight(e) && Errors(ErrorNodes(e), SupportValues(e))
    ensures s == WordSyndromes(XorWords(c, e)) == Syndromes(ErrorNodes(e), SupportValues(e)) && !AllZero(s)
    ensures lambda == Run(s, NROOTS).lambda && Locates(lambda, ErrorNodes(e))
    ensures |RootsTo(lambda, NN)| == Weight(e)
    ensures forall i :: 1 <= i <= NN ==> (i in RootsTo(lambda, NN) <==> Exp(NN - i) in ErrorNodes(e))
    ensures Decoded(XorWords(c, e)) == Outcome(Weight(e), RootsTo(lambda, NN),
              Patched(XorWords(c, e), lambda, s, Weight(e), RootsTo(lambda, NN)))
  {
    hide WordValue, Exp, Run, PowerSum, Xor, Eval, SupportNodes, SupportValues, Decoded, Patched, ErrorNodes;
    DamagedSyndromes(c, e);
    var xs, es := ErrorNodes(e), SupportValues(e);
    s := WordSyndromes(XorWords(c, e));
    DetectsUpToTen(c, e);
    SyndromesOfCodeword(XorWords(c, e));
    lambda := Run(s, NROOTS).lambda;
    LambdaLocates(xs, es);
    RootCount(lambda, xs);
    DecodedIs(XorWords(c, e), s, lambda, Weight(e));
  }

  lemma DecodedIs(w: seq<byte>, s: seq<byte>, c: seq<byte>, t: nat)
    requires |w| == CODE_LENGTH && s == WordSyndromes(w) && !AllZero(s) && c == Run(s, NROOTS).lambda
    requires t <= NROOTS && DegreeAtMost(c, t) && c[t] != 0 && |RootsTo(c, NN)| == t
    ensures Decoded(w) == Outcome(t, RootsTo(c, NN), Patched(w, c, s, t, RootsTo(c, NN)))
  {
    hide WordValue, Exp, Run, Correction, Patched, RootsTo;
    assert Degree(c, NROOTS) == t;
  }

  /** The damaged position that a root exponent stands for. */
  ghost predicate StandsForDamage(e: seq<byte>, i: int) {
    PAD < i <= PAD + |e| && e[i - PAD - 1] != 0
  }

  lemma RootStandsForDamage(e: seq<byte>, i: nat)
    requires |e| == CODE_LENGTH && |ErrorNodes(e)| == |SupportValues(e)| && 1 <= i <= NN
    ensures Exp(NN - i) in ErrorNodes(e) <==> StandsForDamage(e, i)
  {
    hide Exp, ErrorNodes, SupportValues;
    if Exp(NN - i) in ErrorNodes(e) {
      var l :| 0 <= l < |ErrorNodes(e)| && ErrorNodes(e)[l] == Exp(NN - i);
      NodeIsLocator(e, l, i);
    }
    if i > PAD {
      ErrorNodeAt(e, i - PAD - 1);
    }
  }

  /** Up to five errors are counted, and the roots found are those of the damaged positions. */
  lemma LocatesUpToFive(c: seq<byte>, e: seq<byte>)
    requires IsCodeword(c) && |e| == CODE_LENGTH && 1 <= Weight(e) <= 5
    ensures Decoded(XorWords(c, e)).count == |Decoded(XorWords(c, e)).roots| == Weight(e)
    ensures forall i: nat :: i in Decoded(XorWords(c, e)).roots <==> StandsForDamage(e, i)
  {
    hide WordValue, Exp, Run, PowerSum, Xor, Eval, SupportNodes, SupportValues, Decoded, Patched, ErrorNodes;
    hide Locates, Errors, Syndromes, WordSyndromes, VanishesAtRoots, Weight, AllZero, XorWords;
    var s, lambda := LocationFacts(c, e);
    var roots := RootsTo(lambda, NN);
    forall i: nat
      ensures i in roots <==> StandsForDamage(e, i)
    {
      if 1 <= i <= NN {
        RootStandsForDamage(e, i);
      }
    }
  }

  lemma NodeIsLocator(e: seq<byte>, l: nat, i: nat)
    requires |e| == CODE_LENGTH && |ErrorNodes(e)| == |SupportValues(e)|
    requires l < |ErrorNodes(e)| && 1 <= i <= NN && ErrorNodes(e)[l] == Exp(NN - i)
    ensures PAD < i
  {
    hide Exp;
    var p := SupportIndex(Locators(CODE_LENGTH), e, l);
    ExpInjective(CODE_LENGTH - 1 - p, NN - i);
  }

  /** Whatever the corrections are, bytes that were not damaged are not touched. */
  lemma UndamagedBytesKept(c: seq<byte>, e: seq<byte>, p: nat)
    requires IsCodeword(c) && |e| == CODE_LENGTH && 1 <= Weight(e) <= 5
    requires p < CODE_LENGTH && e[p] == 0
    ensures Decoded(XorWords(c, e)).word[p] == c[p]
  {
    hide WordValue, Exp, Run, PowerSum, Xor, Eval, SupportNodes, SupportValues, Decoded, Correction, ErrorNodes;
    hide Locates, Errors, Syndromes, WordSyndromes, VanishesAtRoots, Weight, AllZero;
    var s, lambda := LocationFacts(c, e);
    ErrorNodeAt(e, p);
    XorUnits(c[p]);
  }

  // ---------- values ----------

  /** No numerator or denominator lookup leaves the range in which modnn is exact. */
  ghost predicate TermsInRange(c: seq<byte>, s: seq<byte>, deg: nat, root: nat)
    requires |c| == NROOTS + 1 && |s| == NROOTS && deg <= NROOTS
  {
    && (forall i :: 0 <= i < deg && Conv(c, s, i) != 0 ==> Log(Conv(c, s, i)) + i * root <= 510)
    && (forall i :: 0 <= i <= DenominatorTop(deg) && i % 2 == 0 && c[i + 1] != 0 ==> Log(c[i + 1]) + i * root <= 510)
  }

  lemma TermExact(b: byte, i: nat, root: nat)
    requires b != 0 && Log(b) + i * root <= 510
    ensures TablePower(Log(b) + i * root) == Mul(b, Pow(Exp(root), i))
  {
    hide Exp, Mul;
    TablePowerExact(Log(b) + i * root);
    MulExp(Log(b), i * root);
    PowExp(root, i);
    assert root * i == i * root;
  }

  lemma {:induction false} NumeratorExact(c: seq<byte>, s: seq<byte>, deg: nat, root: nat, i: nat)
    requires |c| == NROOTS + 1 && |s| == NROOTS && i <= deg <= NROOTS && TermsInRange(c, s, deg, root)
    ensures Xor(NumeratorTo(c, s, Exp(root), i), NumeratorCode(c, s, deg, root, i)) == NumeratorTo(c, s, Exp(root), deg)
    decreases deg - i
  {
    hide Exp, Mul, Xor, ConvTo, TablePower;
    var y := Exp(root);
    if i == deg {
      XorUnits(NumeratorTo(c, s, y, deg));
    } else {
      NumeratorExact(c, s, deg, root, i + 1);
      var w, n, rest := Conv(c, s, i), NumeratorTo(c, s, y, i), NumeratorCode(c, s, deg, root, i + 1);
      var term := Mul(w, Pow(y, i));
      if w == 0 {
        MulUnit(Pow(y, i));
        XorUnits(n);
      } else {
        TermExact(w, i, root);
        XorCommutes(rest, term);
        XorAssociates(n, term, rest);
      }
    }
  }

  lemma {:induction false} OddPastDegree(c: seq<byte>, y: byte, deg: nat, k: nat)
    requires deg < k <= |c| && DegreeAtMost(c, deg)
    ensures OddTo(c, y, k) == OddTo(c, y, deg + 1)
  {
    hide Mul, Xor;
    if k > deg + 1 {
      OddPastDegree(c, y, deg, k - 1);
      MulUnit(Pow(y, k - 1));
      XorUnits(OddTo(c, y, k - 1));
    }
  }

  lemma {:induction false} DenominatorExactFrom(c: seq<byte>, s: seq<byte>, deg: nat, root: nat, i: nat)
    requires |c| == NROOTS + 1 && |s| == NROOTS && deg <= NROOTS && TermsInRange(c, s, deg, root)
    requires i % 2 == 0 && i <= DenominatorTop(deg) + 2
    ensures Xor(OddTo(c, Exp(root), i), Mul(Exp(root), DenominatorCode(c, deg, root, i)))
         == OddTo(c, Exp(root), DenominatorTop(deg) + 2)
    decreases DenominatorTop(deg) + 2 - i
  {
    hide Exp, Mul, Xor, ConvTo, TablePower;
    var y := Exp(root);
    MulUnit(y);
    if i > DenominatorTop(deg) {
      XorUnits(OddTo(c, y, i));
    } else {
      DenominatorExactFrom(c, s, deg, root, i + 2);
      var o, b, rest := OddTo(c, y, i), c[i + 1], DenominatorCode(c, deg, root, i + 2);
      assert OddTo(c, y, i + 1) == o;
      var term := Mul(b, Pow(y, i));
      MulSwap(y, b, Pow(y, i));
      if b == 0 {
        MulUnit(Pow(y, i + 1));
        XorUnits(o);
      } else {
        TermExact(b, i, root);
        MulDistributes(y, rest, term);
        XorCommutes(Mul(y, rest), Mul(y, term));
        XorAssociates(o, Mul(y, term), Mul(y, rest));
      }
    }
  }

  lemma DenominatorExact(c: seq<byte>, s: seq<byte>, deg: nat, root: nat)
    requires |c| == NROOTS + 1 && |s| == NROOTS && deg <= NROOTS && TermsInRange(c, s, deg, root)
    requires DegreeAtMost(c, deg)
    ensures Mul(Exp(root), DenominatorCode(c, deg, root, 0)) == OddTo(c, Exp(root), deg + 1)
  {
    hide Exp, Mul, Xor, ConvTo, TablePower, DenominatorCode;
    var y := Exp(root);
    DenominatorExactFrom(c, s, deg, root, 0);
    XorUnits(Mul(y, DenominatorCode(c, deg, root, 0)));
    if deg == NROOTS {
      assert OddTo(c, y, deg + 1) == OddTo(c, y, deg);
    } else {
      OddPastDegree(c, y, deg, DenominatorTop(deg) + 2);
    }
  }

  /** The last lookup divides: its logarithm is that of the quotient, modulo 255. */
  lemma QuotientExact(num1: byte, num2: byte, den: byte, q: byte)
    requires num1 != 0 && num2 != 0 && den != 0 && Mul(q, den) == Mul(num1, num2)
    ensures Exp(QuotientArgument(num1, num2, den)) == q
    ensures QuotientArgument(num1, num2, den) <= 763
  {
    hide Shift, Mul;
    MulNonzero(num1, num2);
    MulNonzero(q, den);
    var a := QuotientArgument(num1, num2, den);
    MulExp(a, Log(den));
    MulExp(Log(num1), Log(num2));
    PeriodOnce(Log(num1) + Log(num2));
    MulCommutes(Exp(a), den);
    MulCommutes(q, den);
    MulCancels(den, Exp(a), q);
  }

  /** With all terms in range, the three factors of the formula are what Forney's theory says. */
  lemma FactorsExact(xs: seq<byte>, es: seq<byte>, m: nat, root: nat) returns (num1: byte, num2: byte, den: byte)
    requires Errors(xs, es) && 1 <= |xs| <= 5 && m < |xs| && 1 <= root <= NN && xs[m] == Exp(NN - root)
    requires TermsInRange(Run(Syndromes(xs, es), NROOTS).lambda, Syndromes(xs, es), |xs|, root)
    ensures num1 == NumeratorCode(Run(Syndromes(xs, es), NROOTS).lambda, Syndromes(xs, es), |xs|, root, 0) != 0
    ensures den == DenominatorCode(Run(Syndromes(xs, es), NROOTS).lambda, |xs|, root, 0) != 0
    ensures num2 == TablePower(NN - root) == xs[m]
    ensures Mul(es[m], den) == Mul(num1, num2)
  {
    hide Exp, Mul, Xor, PowerSum, Syndromes, Eval, ReverseTo, ConvTo, Run, NumeratorCode, DenominatorCode,
         NumeratorTo, PrefixSum, OddTo, TermsInRange, Inverse, TablePower;
    var s := Syndromes(xs, es);
    var c := Run(s, NROOTS).lambda;
    var t, x, y := |xs|, xs[m], Exp(root);
    LambdaVanishesAtErrors(xs, es, c);
    ExpInverse(root);
    InverseTwice(y);
    InverseCancels(x);
    assert Inverse(x) == y;
    MulCommutes(x, y);
    num1 := NumeratorCode(c, s, t, root, 0);
    den := DenominatorCode(c, t, root, 0);
    num2 := TablePower(NN - root);
    TablePowerExact(NN - root);
    var w := PrefixSum(c, x, y, t);
    PrefixNonzero(c, xs, m);
    NumeratorIsolates(c, xs, es, y, t, m);
    StartOfNumerator(c, s, t, root);
    assert num1 == Mul(es[m], w);
    PrefixIsDerivative(c, x, y, t);
    DenominatorExact(c, s, t, root);
    assert Mul(y, den) == w;
    MulNonzero(es[m], w);
    MulNonzero(y, den);
    // num1 * x = e * (y * den) * x = e * den
    MulAssociates(es[m], w, x);
    MulCommutes(w, x);
    MulAssociates(x, y, den);
    MulUnit(den);
  }

  lemma StartOfNumerator(c: seq<byte>, s: seq<byte>, deg: nat, root: nat)
    requires |c| == NROOTS + 1 && |s| == NROOTS && deg <= NROOTS && TermsInRange(c, s, deg, root)
    ensures NumeratorCode(c, s, deg, root, 0) == NumeratorTo(c, s, Exp(root), deg)
  {
    hide Exp, Xor, TermsInRange, NumeratorCode;
    NumeratorExact(c, s, deg, root, 0);
    XorUnits(NumeratorCode(c, s, deg, root, 0));
  }

  /** With every lookup in range the correction is the error value; with only the last one out of range it is not. */
  lemma CorrectionExact(xs: seq<byte>, es: seq<byte>, m: nat, root: nat)
    requires Errors(xs, es) && 1 <= |xs| <= 5 && m < |xs| && 1 <= root <= NN && xs[m] == Exp(NN - root)
    requires TermsInRange(Run(Syndromes(xs, es), NROOTS).lambda, Syndromes(xs, es), |xs|, root)
    ensures var s := Syndromes(xs, es);
            var c := Run(s, NROOTS).lambda;
            var a := QuotientArgument(NumeratorCode(c, s, |xs|, root, 0), TablePower(NN - root),
                                      DenominatorCode(c, |xs|, root, 0));
            Correction(c, s, |xs|, root) == es[m] <==> a <= 510
  {
    hide Exp, Mul, Syndromes, Run, NumeratorCode, DenominatorCode, TermsInRange, TablePower, QuotientArgument;
    var num1, num2, den := FactorsExact(xs, es, m, root);
    QuotientExact(num1, num2, den, es[m]);
    var a := QuotientArgument(num1, num2, den);
    if a <= 510 {
      TablePowerExact(a);
    } else {
      TablePowerWrong(a);
    }
  }

  // ---------- what is repaired ----------

  ghost function LambdaOf(w: seq<byte>): seq<byte> {
    Run(WordSyndromes(w), NROOTS).lambda
  }

  /** The argument of the last lookup when the root of position p is corrected. */
  ghost function LastArgument(w: seq<byte>, t: nat, p: nat): nat
    requires |w| == CODE_LENGTH && p < CODE_LENGTH && t <= NROOTS
  {
    QuotientArgument(NumeratorCode(LambdaOf(w), WordSyndromes(w), t, RootOf(p), 0), TablePower(NN - RootOf(p)),
                     DenominatorCode(LambdaOf(w), t, RootOf(p), 0))
  }

  ghost predicate TermsInRangeAt(w: seq<byte>, t: nat, p: nat)
    requires |w| == CODE_LENGTH && p < CODE_LENGTH && t <= NROOTS
  {
    TermsInRange(LambdaOf(w), WordSyndromes(w), t, RootOf(p))
  }

  /** The index among the error locators of a damaged position. */
  lemma NodeOf(e: seq<byte>, p: nat) returns (m: nat)
    requires |e| == CODE_LENGTH && p < CODE_LENGTH && e[p] != 0 && |ErrorNodes(e)| == |SupportValues(e)|
    ensures m < |ErrorNodes(e)| && ErrorNodes(e)[m] == Exp(NN - RootOf(p)) && SupportValues(e)[m] == e[p]
  {
    hide Exp, SupportNodes, SupportValues, Locators;
    ErrorNodeAt(e, p);
    m :| 0 <= m < |ErrorNodes(e)| && ErrorNodes(e)[m] == Exp(CODE_LENGTH - 1 - p);
    var q := SupportIndex(Locators(CODE_LENGTH), e, m);
    ExpInjective(CODE_LENGTH - 1 - q, CODE_LENGTH - 1 - p);
  }

  /** A damaged byte whose term lookups stay in range is restored exactly when the last lookup does too. */
  lemma RestoredIff(c: seq<byte>, e: seq<byte>, p: nat)
    requires IsCodeword(c) && |e| == CODE_LENGTH && 1 <= Weight(e) <= 5 && p < CODE_LENGTH && e[p] != 0
    requires TermsInRangeAt(XorWords(c, e), Weight(e), p)
    ensures Decoded(XorWords(c, e)).word[p] == c[p] <==> LastArgument(XorWords(c, e), Weight(e), p) <= 510
  {
    hide WordValue, Exp, Run, PowerSum, Xor, Eval, SupportNodes, SupportValues, Decoded, Correction, ErrorNodes;
    hide Locates, Syndromes, WordSyndromes, VanishesAtRoots, Weight, AllZero, TermsInRange, RootsTo;
    hide NumeratorCode, DenominatorCode, TablePower, QuotientArgument;
    var w := XorWords(c, e);
    var s, lambda := LocationFacts(c, e);
    ErrorNodeAt(e, p);
    var m := NodeOf(e, p);
    var xs, es := ErrorNodes(e), SupportValues(e);
    CorrectionExact(xs, es, m, RootOf(p));
    var v := Correction(lambda, s, Weight(e), RootOf(p));
    assert Decoded(w).word[p] == Xor(w[p], v);
    XorAssociates(c[p], e[p], v);
    XorCancels(e[p], v);
    XorCancels(c[p], Xor(e[p], v));
    XorUnits(c[p]);
  }

  /** Up to five errors are repaired completely whenever every table lookup stays in range. */
  lemma RepairsInRange(c: seq<byte>, e: seq<byte>)
    requires IsCodeword(c) && |e| == CODE_LENGTH && 1 <= Weight(e) <= 5
    requires forall p :: 0 <= p < CODE_LENGTH && e[p] != 0 ==>
               TermsInRangeAt(XorWords(c, e), Weight(e), p) && LastArgument(XorWords(c, e), Weight(e), p) <= 510
    ensures Decoded(XorWords(c, e)).word == c
  {
    hide WordValue, Exp, Run, Decoded, Weight, TermsInRangeAt, LastArgument, XorWords, VanishesAtRoots;
    var w' := Decoded(XorWords(c, e)).word;
    forall p | 0 <= p < CODE_LENGTH
      ensures w'[p] == c[p]
    {
      if e[p] == 0 {
        UndamagedBytesKept(c, e, p);
      } else {
        RestoredIff(c, e, p);
      }
    }
  }

  // ---------- one error ----------

  lemma OneErrorInRange(xs: seq<byte>, es: seq<byte>, root: nat)
    requires Errors(xs, es) && |xs| == 1 && 1 <= root <= NN && xs[0] == Exp(NN - root)
    ensures TermsInRange(Run(Syndromes(xs, es), NROOTS).lambda, Syndromes(xs, es), 1, root)
    ensures QuotientArgument(NumeratorCode(Run(Syndromes(xs, es), NROOTS).lambda, Syndromes(xs, es), 1, root, 0),
              TablePower(NN - root), DenominatorCode(Run(Syndromes(xs, es), NROOTS).lambda, 1, root, 0)) <= 510
  {
    hide Exp, Mul, Xor, PowerSum, Syndromes, Run, Eval, Inverse, NumeratorCode, DenominatorCode, TablePower, ConvTo;
    hide Pow, OddTo, EvalTo, ReverseTo;
    var s := Syndromes(xs, es);
    var c := Run(s, NROOTS).lambda;
    var num1, num2, den := FactorsExact(xs, es, 0, root);
    // the denominator is the locator itself, because c vanishes at its inverse
    LambdaVanishesAtErrors(xs, es, c);
    var x, y := xs[0], Exp(root);
    ExpInverse(root);
    InverseTwice(y);
    InverseCancels(x);
    DenominatorExact(c, s, 1, root);
    LinearRoot(c, y);
    MulCommutes(x, y);
    MulCancels(y, x, den);
  }

  lemma LinearRoot(c: seq<byte>, y: byte)
    requires |c| > 1 && c[0] == 1 && DegreeAtMost(c, 1) && Eval(c, y) == 0
    ensures OddTo(c, y, 2) == 1
  {
    hide Mul, Xor;
    EvalToAndFrom(c, y, 2);
    EvalFromZeros(c, y, 2);
    XorUnits(EvalTo(c, y, 2));
    EvalToStep(c, y, 1);
    EvalToStep(c, y, 0);
    MulUnit(1);
    XorUnits(1);
    var v := Mul(c[1], Pow(y, 1));
    XorCancels(1, v);
    assert OddTo(c, y, 1) == 0;
    XorUnits(v);
  }

  /** One damaged byte anywhere in a codeword is found, counted and restored. */
  lemma SingleErrorRepaired(c: seq<byte>, e: seq<byte>)
    requires IsCodeword(c) && |e| == CODE_LENGTH && Weight(e) == 1
    ensures Decoded(XorWords(c, e)).count == 1 && Decoded(XorWords(c, e)).word == c
  {
    hide WordValue, Exp, Run, Decoded, Weight, XorWords, VanishesAtRoots, ErrorNodes, SupportValues, Syndromes;
    hide NumeratorCode, DenominatorCode, TermsInRange, QuotientArgument, TablePower, RootsTo, Patched;
    var s, lambda := LocationFacts(c, e);
    forall p | 0 <= p < CODE_LENGTH && e[p] != 0
      ensures TermsInRangeAt(XorWords(c, e), 1, p) && LastArgument(XorWords(c, e), 1, p) <= 510
    {
      var m := NodeOf(e, p);
      OneErrorInRange(ErrorNodes(e), SupportValues(e), RootOf(p));
    }
    RepairsInRange(c, e);
  }

  // ---------- two errors ----------

  /** The last argument when two bytes are damaged, in terms of the damage: value err at locator x, the other at x'. */
  ghost function TwoErrorArgument(err: byte, x: byte, x': byte): nat
    requires err != 0 && x != 0 && x != x'
  {
    IndexOf(Mul(Mul(err, Xor(x, x')), Inverse(x))) + Log(x) + NN - IndexOf(Xor(x, x'))
  }

  lemma QuadraticRoots(c: seq<byte>, x: byte, x': byte)
    requires |c| > 2 && c[0] == 1 && x != x' && Reverse(c, x, 2) == 0 && Reverse(c, x', 2) == 0
    ensures c[1] == Xor(x, x')
  {
    hide Mul, Xor;
    var d := Xor(x, x');
    FirstReverse(c, x);
    FirstReverse(c, x');
    ReverseStep(c, x, 1);
    ReverseStep(c, x', 1);
    ReverseStep(c, x, 2);
    ReverseStep(c, x', 2);
    MulUnit(x);
    MulUnit(x');
    // x (x + c1) = c2 = x' (x' + c1)
    XorCancels(Mul(x, Xor(x, c[1])), c[2]);
    XorCancels(Mul(x', Xor(x', c[1])), c[2]);
    MulDistributes(x, x, c[1]);
    MulDistributes(x', x', c[1]);
    XorCancels(Xor(Mul(x, x), Mul(x, c[1])), Xor(Mul(x', x'), Mul(x', c[1])));
    XorInterchange(Mul(x, x), Mul(x, c[1]), Mul(x', x'), Mul(x', c[1]));
    XorCancels(Xor(Mul(x, x), Mul(x', x')), Xor(Mul(x, c[1]), Mul(x', c[1])));
    MulDistributes(c[1], x, x');
    assert Xor(Mul(x, x), Mul(x', x')) == Mul(d, c[1]);
    // x^2 + x'^2 = (x + x')^2
    MulDistributes(d, x, x');
    MulDistributes(x, x, x');
    MulDistributes(x', x, x');
    MulCommutes(x, x');
    var xx, xy, yy := Mul(x, x), Mul(x, x'), Mul(x', x');
    XorAssociates(xx, xy, Xor(xy, yy));
    XorCancels(xy, yy);
    XorCancels(x, x');
    MulCancels(d, d, c[1]);
  }

  lemma TwoErrorFactors(xs: seq<byte>, es: seq<byte>, m: nat, root: nat)
    requires Errors(xs, es) && |xs| == 2 && m < 2 && 1 <= root <= NN && xs[m] == Exp(NN - root)
    ensures TermsInRange(Run(Syndromes(xs, es), NROOTS).lambda, Syndromes(xs, es), 2, root)
    ensures QuotientArgument(NumeratorCode(Run(Syndromes(xs, es), NROOTS).lambda, Syndromes(xs, es), 2, root, 0),
              TablePower(NN - root), DenominatorCode(Run(Syndromes(xs, es), NROOTS).lambda, 2, root, 0))
         == TwoErrorArgument(es[m], xs[m], xs[1 - m])
  {
    hide Exp, Mul, Xor, PowerSum, Syndromes, Run, Eval, Inverse, NumeratorCode, DenominatorCode, TablePower, ConvTo;
    hide Pow, OddTo, EvalTo, ReverseTo;
    var s := Syndromes(xs, es);
    var c := Run(s, NROOTS).lambda;
    var x, x', y := xs[m], xs[1 - m], Exp(root);
    LambdaVanishesAtErrors(xs, es, c);
    QuadraticRoots(c, x, x');
    var num1, num2, den := FactorsExact(xs, es, m, root);
    ExpInverse(root);
    InverseTwice(y);
    DenominatorExact(c, s, 2, root);
    QuadraticOdd(c, y);
    MulCancels(y, den, c[1]);
    // num1 = e * (x + x') / x
    InverseCancels(x);
    MulCommutes(x, Inverse(x));
    MulAssociates(num1, x, Inverse(x));
    MulUnit(num1);
  }

  lemma QuadraticOdd(c: seq<byte>, y: byte)
    requires |c| > 2
    ensures OddTo(c, y, 3) == Mul(y, c[1])
  {
    hide Mul, Xor;
    assert OddTo(c, y, 0) == 0 && OddTo(c, y, 1) == 0;
    assert OddTo(c, y, 2) == Xor(0, Mul(c[1], Pow(y, 1)));
    assert Pow(y, 1) == Mul(y, Pow(y, 0));
    MulUnit(y);
    MulCommutes(y, c[1]);
    XorUnits(Mul(y, c[1]));
  }

  ghost function LocatorOf(p: nat): byte
    requires p < CODE_LENGTH
  {
    Exp(CODE_LENGTH - 1 - p)
  }

  lemma LocatorsOfPair(p: nat, q: nat)
    requires p < CODE_LENGTH && q < CODE_LENGTH && p != q
    ensures LocatorOf(p) != 0 && LocatorOf(p) != LocatorOf(q)
  {
    hide Exp;
    ExpNonzero(CODE_LENGTH - 1 - p);
    if LocatorOf(p) == LocatorOf(q) {
      ExpInjective(CODE_LENGTH - 1 - p, CODE_LENGTH - 1 - q);
    }
  }

  lemma TwoErrorRestored(c: seq<byte>, e: seq<byte>, p: nat, q: nat)
    requires IsCodeword(c) && |e| == CODE_LENGTH && Weight(e) == 2
    requires p < CODE_LENGTH && q < CODE_LENGTH && p != q && e[p] != 0 && e[q] != 0
    ensures LocatorOf(p) != 0 && LocatorOf(p) != LocatorOf(q)
    ensures Decoded(XorWords(c, e)).word[p] == c[p] <==> TwoErrorArgument(e[p], LocatorOf(p), LocatorOf(q)) <= 510
  {
    hide WordValue, Exp, Run, Decoded, Weight, XorWords, VanishesAtRoots, ErrorNodes, SupportValues, Syndromes;
    hide NumeratorCode, DenominatorCode, TermsInRange, QuotientArgument, TablePower, RootsTo, Patched, TwoErrorArgument;
    hide Locates, WordSyndromes, AllZero;
    LocatorsOfPair(p, q);
    TwoErrorArguments(c, e, p, q);
    RestoredIff(c, e, p);
  }

  lemma TwoErrorArguments(c: seq<byte>, e: seq<byte>, p: nat, q: nat)
    requires IsCodeword(c) && |e| == CODE_LENGTH && Weight(e) == 2
    requires p < CODE_LENGTH && q < CODE_LENGTH && p != q && e[p] != 0 && e[q] != 0
    requires LocatorOf(p) != 0 && LocatorOf(p) != LocatorOf(q)
    ensures TermsInRangeAt(XorWords(c, e), 2, p)
    ensures LastArgument(XorWords(c, e), 2, p) == TwoErrorArgument(e[p], LocatorOf(p), LocatorOf(q))
  {
    hide WordValue, Exp, Run, Decoded, Weight, XorWords, VanishesAtRoots, ErrorNodes, SupportValues, Syndromes;
    hide NumeratorCode, DenominatorCode, TermsInRange, QuotientArgument, TablePower, RootsTo, Patched, TwoErrorArgument;
    hide Locates, AllZero, WordSyndromes;
    DamagedSyndromes(c, e);
    var m := NodeOf(e, p);
    var n := NodeOf(e, q);
    assert n == 1 - m;
    TwoErrorFactors(ErrorNodes(e), SupportValues(e), m, RootOf(p));
  }

  /** Two errors are repaired if and only if both last lookups stay in range. */
  lemma TwoErrorsRepairedIff(c: seq<byte>, e: seq<byte>, p: nat, q: nat)
    requires IsCodeword(c) && |e| == CODE_LENGTH && Weight(e) == 2
    requires p < CODE_LENGTH && q < CODE_LENGTH && p != q && e[p] != 0 && e[q] != 0
    ensures LocatorOf(p) != 0 && LocatorOf(q) != 0 && LocatorOf(p) != LocatorOf(q)
    ensures Decoded(XorWords(c, e)).word == c <==>
              TwoErrorArgument(e[p], LocatorOf(p), LocatorOf(q)) <= 510
              && TwoErrorArgument(e[q], LocatorOf(q), LocatorOf(p)) <= 510
  {
    hide WordValue, Exp, Run, Decoded, XorWords, VanishesAtRoots, TwoErrorArgument, LocatorOf;
    TwoErrorRestored(c, e, p, q);
    TwoErrorRestored(c, e, q, p);
    var w' := Decoded(XorWords(c, e)).word;
    forall r | 0 <= r < CODE_LENGTH && r != p && r != q
      ensures w'[r] == c[r]
    {
      WeightTwoElsewhere(e, p, q, r);
      UndamagedBytesKept(c, e, r);
    }
  }

  lemma {:induction false} WeightAt(v: seq<byte>, p: nat)
    requires p < |v| && v[p] != 0
    ensures Weight(v[p := 0]) == Weight(v) - 1
  {
    if p == 0 {
      assert v[p := 0][1..] == v[1..];
    } else {
      assert v[p := 0][1..] == v[1..][p - 1 := 0];
      WeightAt(v[1..], p - 1);
    }
  }

  lemma WeightTwoElsewhere(e: seq<byte>, p: nat, q: nat, r: nat)
    requires Weight(e) == 2 && p < |e| && q < |e| && r < |e| && p != q && r != p && r != q && e[p] != 0 && e[q] != 0
    ensures e[r] == 0
  {
    var u := e[p := 0][q := 0];
    WeightAt(e, p);
    WeightAt(e[p := 0], q);
    WeightZero(u);
    assert u[r] == e[r];
  }

  /** A pair of errors that is located but not repaired, in every codeword: value 2 at byte 11, anything at byte 96. */
  lemma TwoErrorsNotRepaired(c: seq<byte>, e: seq<byte>)
    requires IsCodeword(c) && |e| == CODE_LENGTH && Weight(e) == 2 && e[11] == 2 && e[96] != 0
    ensures Decoded(XorWords(c, e)).count == 2 && Decoded(XorWords(c, e)).word != c
  {
    hide WordValue, Exp, Run, Decoded, XorWords, VanishesAtRoots, Mul, Inverse, Xor;
    LocatesUpToFive(c, e);
    TwoErrorsRepairedIff(c, e, 11, 96);
    ArgumentOutOfRange();
  }

  lemma ArgumentOutOfRange()
    ensures LocatorOf(11) != 0 && LocatorOf(11) != LocatorOf(96)
    ensures TwoErrorArgument(2, LocatorOf(11), LocatorOf(96)) == 511
  {
    hide Exp, Mul, Inverse, Xor;
    LocatorsOfPair(11, 96);
    assert LocatorOf(11) == Exp(170) && LocatorOf(96) == Exp(85);
    NeighbourPowers();
    MulUnit(2);
    ExpInverse(170);
    SomePowers();
    MulExp(1, 85);
    LogExp(86);
    LogExp(170);
    ExpStep(0);
    LogExp(0);
  }

  lemma NeighbourPowers()
    ensures Xor(Exp(170), Exp(85)) == 1
  {
    hide Exp;
    SomePowers();
    XorNatIsBits(0xd7, 0xd6, 8);
    SomeDigits();
    DigitsOfByte(0xd6);
  }

  // ---------- a return value of zero is no proof of a codeword ----------

  predicate ZeroFrom(s: seq<byte>, k: nat) {
    forall n :: k <= n < |s| ==> s[n] == 0
  }

  lemma {:induction false} ConvFromTail(c: seq<byte>, s: seq<byte>, n: nat, k: nat, from: nat)
    requires n < |s| && k <= n + 1 && k <= |c| && ZeroFrom(s, from) && n >= from + k - 1
    ensures ConvTo(c, s, n, k) == 0
  {
    hide Mul, Xor;
    if k > 0 {
      ConvFromTail(c, s, n, k - 1, from);
      MulUnit(c[k - 1]);
      XorUnits(0);
    }
  }

  lemma {:induction false} ConvPastDegree(c: seq<byte>, s: seq<byte>, n: nat, k: nat, d: nat)
    requires n < |s| && d < k <= n + 1 && k <= |c| && DegreeAtMost(c, d)
    ensures ConvTo(c, s, n, k) == ConvTo(c, s, n, d + 1)
  {
    hide Mul, Xor;
    if k > d + 1 {
      ConvPastDegree(c, s, n, k - 1, d);
      MulUnit(s[n - (k - 1)]);
      XorUnits(ConvTo(c, s, n, k - 1));
    }
  }

  /** The length of the register after a step. */
  lemma RunEnds(s: seq<byte>, r: nat)
    requires |s| == NROOTS && r <= NROOTS
    ensures r == 0 ==> Run(s, r).el == 0
    ensures r > 0 ==>
              var g := Run(s, r - 1);
              Run(s, r).el == if Conv(g.lambda, s, r - 1) != 0 && 2 * g.el <= r - 1 then r - g.el else g.el
  {
    hide Mul, Xor, ConvTo;
  }

  lemma InvariantDegree(g: Register, s: seq<byte>, r: nat)
    requires |s| == NROOTS && r <= NROOTS && Invariant(g, s, r)
    ensures |g.lambda| == NROOTS + 1 && g.el <= r && DegreeAtMost(g.lambda, g.el)
  {
    hide Mul, Xor, ConvTo;
  }

  /** The register never outgrows the nonzero syndromes. */
  lemma {:induction false} LengthAtMostNonzero(s: seq<byte>, k: nat, r: nat)
    requires |s| == NROOTS && r <= NROOTS && ZeroFrom(s, k)
    ensures Run(s, r).el <= k
  {
    hide Mul, Xor, ConvTo, Run, Invariant;
    RunEnds(s, r);
    if r > 0 {
      LengthAtMostNonzero(s, k, r - 1);
      RunInvariant(s, r - 1);
      var g := Run(s, r - 1);
      InvariantDegree(g, s, r - 1);
      if r - g.el > k {
        ConvPastDegree(g.lambda, s, r - 1, r, g.el);
        ConvFromTail(g.lambda, s, r - 1, g.el + 1, k);
      }
    }
  }

  /** If only the first five syndromes can be nonzero, the final locator polynomial is the constant one. */
  lemma TailZeroGivesOne(s: seq<byte>, k: nat)
    requires |s| == NROOTS && 1 <= k <= 5 && ZeroFrom(s, k) && s[k - 1] != 0
    ensures DegreeAtMost(Run(s, NROOTS).lambda, 0) && Run(s, NROOTS).lambda[0] == 1
  {
    hide Mul, Xor, ConvTo, Run;
    RunInvariant(s, NROOTS);
    LengthAtMostNonzero(s, k, NROOTS);
    var c := Run(s, NROOTS).lambda;
    var d := Degree(c, NROOTS);
    if d > 0 {
      var n := k - 1 + d;
      assert d <= k && Conv(c, s, n) == 0;
      ConvPastDegree(c, s, n, n + 1, d);
      ConvFromTail(c, s, n, d, k);
      LastTerm(c, s, n, d);
      MulNonzero(c[d], s[k - 1]);
      assert false;
    }
  }

  lemma LastTerm(c: seq<byte>, s: seq<byte>, n: nat, d: nat)
    requires d <= n < |s| && d < |c| && ConvTo(c, s, n, d) == 0
    ensures ConvTo(c, s, n, d + 1) == Mul(c[d], s[n - d])
  {
    hide Mul, Xor;
    XorUnits(Mul(c[d], s[n - d]));
  }

  /** Such syndromes make the decoder return zero and leave the word, although it is not a codeword. */
  lemma ZeroReturned(w: seq<byte>, k: nat)
    requires |w| == CODE_LENGTH && 1 <= k <= 5
    requires ZeroFrom(WordSyndromes(w), k) && WordSyndromes(w)[k - 1] != 0
    ensures !IsCodeword(w) && Decoded(w) == Outcome(0, [], w)
  {
    hide WordValue, Exp, Run, Eval, Correction;
    var s := WordSyndromes(w);
    var c := Run(s, NROOTS).lambda;
    SyndromesOfCodeword(w);
    TailZeroGivesOne(s, k);
    RootsAtMostDegree(c, NN, 0);
    DecodedIs(w, s, c, 0);
    assert Patched(w, c, s, 0, []) == w;
  }

  /** The decoder returns 0 exactly for codewords and for words whose locator polynomial came out constant. */
  lemma ZeroReturnedIff(w: seq<byte>)
    requires |w| == CODE_LENGTH
    ensures Decoded(w).count == 0 <==> IsCodeword(w) || DegreeAtMost(LambdaOf(w), 0)
    ensures Decoded(w).count == 0 ==> Decoded(w).word == w
  {
    hide WordValue, Exp, Run, Eval, Correction, VanishesAtRoots;
    var s, c := WordSyndromes(w), LambdaOf(w);
    SyndromesOfCodeword(w);
    RunInvariant(s, NROOTS);
    if AllZero(s) {
    } else if DegreeAtMost(c, 0) {
      RootsAtMostDegree(c, NN, 0);
      DecodedIs(w, s, c, 0);
      assert Patched(w, c, s, 0, []) == w;
    } else {
      assert Degree(c, NROOTS) > 0;
    }
  }

  /** A constant locator polynomial says that the syndromes vanish from the register length on. */
  lemma ConstantLocatorLength(s: seq<byte>)
    requires |s| == NROOTS && DegreeAtMost(Run(s, NROOTS).lambda, 0)
    ensures ZeroFrom(s, Run(s, NROOTS).el)
  {
    hide Mul, Xor, ConvTo, Run;
    RunInvariant(s, NROOTS);
    var g := Run(s, NROOTS);
    forall n | g.el <= n < NROOTS
      ensures s[n] == 0
    {
      assert Conv(g.lambda, s, n) == 0;
      ConvPastDegree(g.lambda, s, n, n + 1, 0);
      FirstTerm(g.lambda, s, n);
    }
  }

  lemma FirstTerm(c: seq<byte>, s: seq<byte>, n: nat)
    requires n < |s| && c != [] && c[0] == 1
    ensures ConvTo(c, s, n, 1) == s[n]
  {
    hide Mul, Xor;
    MulUnit(s[n]);
    XorUnits(s[n]);
  }

  lemma {:induction false} LastNonzero(s: seq<byte>, n: nat) returns (k: nat)
    requires n <= |s| && ZeroFrom(s, n) && !AllZero(s)
    ensures 1 <= k <= n && ZeroFrom(s, k) && s[k - 1] != 0
  {
    if n == 0 || s[n - 1] != 0 {
      k := n;
    } else {
      k := LastNonzero(s, n - 1);
    }
  }

  /** With a register of length at most five: exactly the words whose last five syndromes vanish. */
  lemma ZeroReturnedShort(w: seq<byte>)
    requires |w| == CODE_LENGTH
    ensures Decoded(w).count == 0 && Run(WordSyndromes(w), NROOTS).el <= 5 <==> ZeroFrom(WordSyndromes(w), 5)
  {
    hide WordValue, Exp, Run, Decoded, VanishesAtRoots;
    var s := WordSyndromes(w);
    ZeroReturnedIff(w);
    SyndromesOfCodeword(w);
    if ZeroFrom(s, 5) {
      LengthAtMostNonzero(s, 5, NROOTS);
      if !AllZero(s) {
        var k := LastNonzero(s, 5);
        TailZeroGivesOne(s, k);
      }
    } else if DegreeAtMost(LambdaOf(w), 0) {
      ConstantLocatorLength(s);
    }
  }

  /** Damage to at most five bytes is never taken for a codeword. */
  lemma ZeroMeansUndamaged(c: seq<byte>, e: seq<byte>)
    requires IsCodeword(c) && |e| == CODE_LENGTH && Weight(e) <= 5
    ensures Decoded(XorWords(c, e)).count == 0 <==> Weight(e) == 0
  {
    hide WordValue, Exp, Decoded, VanishesAtRoots;
    if Weight(e) == 0 {
      UndamagedWord(c, e);
      ZeroReturnedIff(c);
    } else {
      LocatesUpToFive(c, e);
    }
  }

  lemma UndamagedWord(c: seq<byte>, e: seq<byte>)
    requires |c| == CODE_LENGTH == |e| && Weight(e) == 0
    ensures XorWords(c, e) == c
  {
    hide Xor;
    forall p | 0 <= p < CODE_LENGTH
      ensures XorWords(c, e)[p] == c[p]
    {
      if e[p] != 0 {
        WeightAt(e, p);
        assert false;
      }
      XorUnits(c[p]);
    }
  }

  /** The product of (x + alpha^i) for 1 <= i <= n. */
  ghost function UpperGenerator(n: nat): (g: seq<byte>)
    ensures |g| == n + 1
  {
    if n == 0 then [1] else TimesRoot(UpperGenerator(n - 1), Exp(n))
  }

  lemma {:induction false} UpperGeneratorMonic(n: nat)
    ensures UpperGenerator(n)[n] == 1
  {
    hide Mul, Xor;
    if n > 0 {
      UpperGeneratorMonic(n - 1);
      XorUnits(1);
    }
  }

  lemma {:induction false} UpperGeneratorRoots(n: nat, i: nat)
    requires 1 <= i <= n
    ensures Eval(UpperGenerator(n), Exp(i)) == 0
  {
    hide Mul, Xor, Exp;
    TimesRootEval(UpperGenerator(n - 1), Exp(n), Exp(i));
    if i == n {
      XorUnits(Exp(i));
    } else {
      UpperGeneratorRoots(n - 1, i);
    }
    MulUnit(Eval(UpperGenerator(n - 1), Exp(i)));
    MulUnit(Xor(Exp(i), Exp(n)));
  }

  /** Such words exist: the decoder reports no error for some words that are not codewords. */
  lemma ZeroReturnIsNoProof()
    ensures exists w: seq<byte> :: |w| == CODE_LENGTH && !IsCodeword(w) && Decoded(w) == Outcome(0, [], w)
  {
    hide WordValue, Exp, Run, Eval, Correction, Decoded, UpperGenerator, Xor, Mul;
    var h := Reversed(UpperGenerator(NROOTS - 1));
    var w := Zeros(MESSAGE_LENGTH) + h;
    forall x: byte
      ensures WordValue(w, x) == Eval(UpperGenerator(NROOTS - 1), x)
    {
      WordValueConcat(Zeros(MESSAGE_LENGTH), h, x);
      WordValueZeros(Zeros(MESSAGE_LENGTH), x);
      MulUnit(Pow(x, |h|));
      ReversedValue(UpperGenerator(NROOTS - 1), x);
      XorUnits(WordValue(h, x));
    }
    forall i | 1 <= i < NROOTS
      ensures WordValue(w, Exp(i)) == 0
    {
      UpperGeneratorRoots(NROOTS - 1, i);
    }
    UpperGeneratorMonic(NROOTS - 1);
    if WordValue(w, Exp(0)) == 0 {
      WeightSplit(Zeros(MESSAGE_LENGTH), h);
      WeightOfZeros(Zeros(MESSAGE_LENGTH));
      WeightBound(h);
      var v := w[MESSAGE_LENGTH];
      LightWordIsZero(w);
      assert false;
    }
    ZeroReturned(w, 1);
  }
}
