/** Error values: Forney's formula in the arithmetic of the tables of rs.c. */
module Forney {
  import opened Bytes
  import opened GaloisField
  import opened Polynomials
  import opened BerlekampMassey
  import opened ErrorLocator

  // ---------- modnn ----------

  /** modnn with its oversized shift read as zero. */
  function ModNn(x: int): (r: int)
    ensures x < 255 ==> r == x
    ensures x >= 0 ==> 0 <= r < 255
    decreases x
  {
    if x < 255 then x else ModNn((x - 255) % 256)
  }

  /** Up to 510 the function is the remainder modulo 255. */
  lemma ModNnExact(x: nat)
    requires x <= 510
    ensures ModNn(x) == x % 255
  {
  }

  /** Above 510 it is not, at first by exactly one. */
  lemma ModNnWrong(x: nat)
    requires 510 < x <= 765
    ensures ModNn(x) == x - 511 && x % 255 == (ModNn(x) + 1) % 255
  {
    assert (x - 255) % 256 == x - 511;
  }

  /** The function is the remainder exactly up to 510 and on the bands of 256 that come 255 times 256 later. */
  lemma ModNnIff(x: nat)
    ensures ModNn(x) == x % 255 <==> x <= 510 || (x - 255) / 256 % 255 == 0
  {
    if x <= 510 {
      ModNnExact(x);
    } else {
      var q, r := (x - 255) / 256, (x - 255) % 256;
      ModNnExact(r);
      assert x == 255 * (q + 1) + (q + r);
      SameRemainder(q + 1, q + r);
      Addends(q, r);
    }
  }

  lemma SameRemainder(k: nat, y: nat)
    ensures (255 * k + y) % 255 == y % 255
  {
  }

  /** A multiple of 255 is all that can be added without changing the remainder. */
  lemma Addends(q: nat, r: nat)
    ensures (q + r) % 255 == r % 255 <==> q % 255 == 0
  {
    var k := q / 255;
    SameRemainder(k, q % 255 + r);
    assert q + r == 255 * k + (q % 255 + r);
    var j := r / 255;
    SameRemainder(j, q % 255 + r % 255);
    assert q % 255 + r == 255 * j + (q % 255 + r % 255);
  }

  /** No lookup passes more than 254 + 9 * 255 = 2549: there it is the remainder up to 510 only. */
  lemma ModNnOfLookup(x: nat)
    requires x <= 2549
    ensures ModNn(x) == x % 255 <==> x <= 510
  {
    ModNnIff(x);
  }

  /** The power of x that alpha_to[modnn(a)] reads. */
  ghost function TablePower(a: nat): byte {
    Exp(ModNn(a))
  }

  lemma TablePowerExact(a: nat)
    requires a <= 510
    ensures TablePower(a) == Exp(a)
  {
    hide Exp;
    ModNnExact(a);
    ExpMod(a);
  }

  lemma TablePowerWrong(a: nat)
    requires 510 < a <= 765
    ensures TablePower(a) != Exp(a) && Mul(2, TablePower(a)) == Exp(a)
  {
    hide Shift, Mul;
    ModNnWrong(a);
    ExpMod(a);
    ExpMod(ModNn(a) + 1);
    ExpStep(0);
    MulExp(1, ModNn(a));
    if ModNn(a) > 0 {
      ExpDistinct(ModNn(a), ModNn(a) + 1);
    }
  }

  // ---------- the algebra of the formula ----------

  /** The sum over i < k of y^i times the i-th coefficient of c(x) * s(x). */
  ghost function NumeratorTo(c: seq<byte>, s: seq<byte>, y: byte, k: nat): byte
    requires k <= |s| && k <= |c|
  {
    if k == 0 then 0 else Xor(NumeratorTo(c, s, y, k - 1), Mul(Conv(c, s, k - 1), Pow(y, k - 1)))
  }

  /** The sum over i < k of y^i times the i-th reversed prefix of c at x. */
  ghost function PrefixSum(c: seq<byte>, x: byte, y: byte, k: nat): byte
    requires k <= |c|
  {
    if k == 0 then 0 else Xor(PrefixSum(c, x, y, k - 1), Mul(Reverse(c, x, k - 1), Pow(y, k - 1)))
  }

  /** The sum over odd i < k of c[i] * y^i. */
  ghost function OddTo(c: seq<byte>, y: byte, k: nat): byte
    requires k <= |c|
  {
    if k == 0 then 0
    else if k % 2 == 0 then Xor(OddTo(c, y, k - 1), Mul(c[k - 1], Pow(y, k - 1)))
    else OddTo(c, y, k - 1)
  }

  lemma {:induction false} NumeratorSplit(c: seq<byte>, xs: seq<byte>, es: seq<byte>, y: byte, k: nat)
    requires |xs| == |es| > 0 && k <= NROOTS && k <= |c|
    ensures NumeratorTo(c, Syndromes(xs, es), y, k)
         == Xor(Mul(es[0], PrefixSum(c, xs[0], y, k)), NumeratorTo(c, Syndromes(xs[1..], es[1..]), y, k))
  {
    hide Mul, Xor, ConvTo, ReverseTo;
    var s, s' := Syndromes(xs, es), Syndromes(xs[1..], es[1..]);
    if k == 0 {
      MulUnit(es[0]);
      XorUnits(0);
    } else {
      NumeratorSplit(c, xs, es, y, k - 1);
      ConvSplit(c, xs, es, k - 1, k);
      var r, v, p := Reverse(c, xs[0], k - 1), Conv(c, s', k - 1), Pow(y, k - 1);
      MulDistributes(p, Mul(es[0], r), v);
      MulAssociates(es[0], r, p);
      MulDistributes(es[0], PrefixSum(c, xs[0], y, k - 1), Mul(r, p));
      XorInterchange(Mul(es[0], PrefixSum(c, xs[0], y, k - 1)), NumeratorTo(c, s', y, k - 1),
                     Mul(es[0], Mul(r, p)), Mul(v, p));
    }
  }

  lemma {:induction false} NumeratorOfNothing(c: seq<byte>, s: seq<byte>, y: byte, k: nat)
    requires k <= |s| && k <= |c| && AllZero(s)
    ensures NumeratorTo(c, s, y, k) == 0
  {
    hide Mul, Xor, ConvTo;
    if k > 0 {
      NumeratorOfNothing(c, s, y, k - 1);
      ConvOfNothing(c, s, k - 1, k);
      MulUnit(Pow(y, k - 1));
      XorUnits(0);
    }
  }

  /** (1 + x y) times the prefix sum telescopes to c(y) and a remainder. */
  lemma {:induction false} PrefixTelescopes(c: seq<byte>, x: byte, y: byte, k: nat)
    requires 0 < k < |c|
    ensures Xor(PrefixSum(c, x, y, k), Mul(Mul(x, y), PrefixSum(c, x, y, k)))
         == Xor(EvalTo(c, y, k), Mul(Mul(x, Reverse(c, x, k - 1)), Pow(y, k)))
  {
    hide Mul, Xor, ReverseTo;
    var z := Mul(x, y);
    var r, p := Reverse(c, x, k - 1), Pow(y, k - 1);
    var w, last := PrefixSum(c, x, y, k - 1), Mul(r, p);
    MulDistributes(z, w, last);
    XorInterchange(w, last, Mul(z, w), Mul(z, last));
    // z * (r * y^(k-1)) is (x r) * y^k
    MulAssociates(x, y, last);
    MulSwap(y, r, p);
    MulAssociates(x, r, Pow(y, k));
    assert Mul(z, last) == Mul(Mul(x, r), Pow(y, k));
    if k == 1 {
      FirstReverse(c, x);
      MulUnit(z);
      XorUnits(0);
      XorUnits(last);
    } else {
      PrefixTelescopes(c, x, y, k - 1);
      var q := Reverse(c, x, k - 2);
      ReverseStep(c, x, k - 1);
      MulDistributes(p, Mul(x, q), c[k - 1]);
      var a, b, d := EvalTo(c, y, k - 1), Mul(Mul(x, q), p), Mul(c[k - 1], p);
      XorAssociates(a, b, Xor(last, Mul(z, last)));
      XorAssociates(b, last, Mul(z, last));
      XorCancels(b, d);
      XorAssociates(a, d, Mul(z, last));
    }
  }

  lemma FirstReverse(c: seq<byte>, x: byte)
    requires |c| > 0
    ensures Reverse(c, x, 0) == c[0]
  {
    hide Mul, Xor;
    assert ReverseTo(c, x, 0, 0) == 0;
    MulUnit(c[0]);
    XorUnits(c[0]);
  }

  lemma ReverseStep(c: seq<byte>, x: byte, n: nat)
    requires 0 < n < |c|
    ensures Reverse(c, x, n) == Xor(Mul(x, Reverse(c, x, n - 1)), c[n])
  {
    hide Mul, Xor;
    ReverseRaise(c, x, n - 1, n);
    MulUnit(c[n]);
  }

  /** At a root y of c other than 1/x the prefix sum of a root x vanishes. */
  lemma PrefixVanishes(c: seq<byte>, x: byte, y: byte, t: nat)
    requires 0 < t < |c| && DegreeAtMost(c, t)
    requires Reverse(c, x, t) == 0 && Eval(c, y) == 0 && Mul(x, y) != 1
    ensures PrefixSum(c, x, y, t) == 0
  {
    hide Mul, Xor, ReverseTo, EvalTo, PrefixSum;
    var w, z := PrefixSum(c, x, y, t), Mul(x, y);
    PrefixTelescopes(c, x, y, t);
    ReverseStep(c, x, t);
    XorCancels(Mul(x, Reverse(c, x, t - 1)), c[t]);
    EvalToStep(c, y, t);
    EvalToAndFrom(c, y, t + 1);
    EvalFromZeros(c, y, t + 1);
    XorUnits(EvalTo(c, y, t + 1));
    assert Xor(w, Mul(z, w)) == 0;
    XorCancels(w, Mul(z, w));
    MulUnit(w);
    MulCommutes(1, w);
    MulCommutes(z, w);
    if w != 0 {
      MulCancels(w, 1, z);
    }
  }

  lemma EvalToStep(c: seq<byte>, y: byte, k: nat)
    requires k < |c|
    ensures EvalTo(c, y, k + 1) == Xor(EvalTo(c, y, k), Mul(c[k], Pow(y, k)))
  {
  }

  /** Only the numerator term of the error at 1/y survives. */
  lemma {:induction false} NumeratorIsolates(c: seq<byte>, xs: seq<byte>, es: seq<byte>, y: byte, t: nat, m: nat)
    requires |xs| == |es| && m < |xs| && Distinct(xs) && y != 0 && Mul(xs[m], y) == 1
    requires 0 < t <= NROOTS && t < |c| && DegreeAtMost(c, t) && Eval(c, y) == 0
    requires forall l :: 0 <= l < |xs| ==> Reverse(c, xs[l], t) == 0
    ensures NumeratorTo(c, Syndromes(xs, es), y, t) == Mul(es[m], PrefixSum(c, xs[m], y, t))
    decreases |xs|
  {
    hide Mul, Xor, ReverseTo, PrefixSum, Eval, NumeratorTo;
    NumeratorSplit(c, xs, es, y, t);
    var xs', es' := xs[1..], es[1..];
    if m == 0 {
      NumeratorVanishes(c, xs', es', y, t, xs[0]);
      XorUnits(Mul(es[0], PrefixSum(c, xs[0], y, t)));
    } else {
      assert xs'[m - 1] == xs[m] && es'[m - 1] == es[m];
      NumeratorIsolates(c, xs', es', y, t, m - 1);
      OtherLocator(xs[0], xs[m], y);
      PrefixVanishes(c, xs[0], y, t);
      MulUnit(es[0]);
      XorUnits(NumeratorTo(c, Syndromes(xs', es'), y, t));
    }
  }

  lemma OtherLocator(x: byte, x': byte, y: byte)
    requires x != x' && Mul(x', y) == 1
    ensures Mul(x, y) != 1
  {
    hide Mul;
    MulCommutes(x, y);
    MulCommutes(x', y);
    MulUnit(x');
    if Mul(x, y) == 1 {
      MulCancels(y, x, x');
    }
  }

  lemma {:induction false} NumeratorVanishes(c: seq<byte>, xs: seq<byte>, es: seq<byte>, y: byte, t: nat, x0: byte)
    requires |xs| == |es| && x0 !in xs && Mul(x0, y) == 1
    requires 0 < t <= NROOTS && t < |c| && DegreeAtMost(c, t) && Eval(c, y) == 0
    requires forall l :: 0 <= l < |xs| ==> Reverse(c, xs[l], t) == 0
    ensures NumeratorTo(c, Syndromes(xs, es), y, t) == 0
    decreases |xs|
  {
    hide Mul, Xor, ReverseTo, PrefixSum, Eval, NumeratorTo;
    if xs == [] {
      NumeratorOfNothing(c, Syndromes(xs, es), y, t);
    } else {
      NumeratorSplit(c, xs, es, y, t);
      NumeratorVanishes(c, xs[1..], es[1..], y, t, x0);
      assert xs[0] in xs;
      OtherLocator(xs[0], x0, y);
      PrefixVanishes(c, xs[0], y, t);
      MulUnit(es[0]);
      XorUnits(0);
    }
  }

  /** With y = 1/x the prefix sum is the odd part of c at y, up to the even remainder. */
  lemma {:induction false} PrefixIsOddPart(c: seq<byte>, x: byte, y: byte, k: nat)
    requires Mul(x, y) == 1 && k <= |c|
    ensures PrefixSum(c, x, y, k) == if k % 2 == 0 then OddTo(c, y, k) else Xor(EvalTo(c, y, k), OddTo(c, y, k))
  {
    hide Mul, Xor, ReverseTo;
    if k > 0 {
      PrefixIsOddPart(c, x, y, k - 1);
      ReverseIsEvalTo(c, x, y, k - 1, k);
      var p, q, v := Pow(x, k - 1), Pow(y, k - 1), EvalTo(c, y, k);
      PowInverse(x, y, k - 1, k - 1);
      MulCommutes(p, v);
      MulAssociates(v, p, q);
      MulUnit(v);
      assert Mul(Reverse(c, x, k - 1), q) == v;
      var o := OddTo(c, y, k - 1);
      if k % 2 == 1 {
        XorCommutes(o, v);
      } else {
        // (E + o) + (E + term) with E the even remainder so far
        var e, term := EvalTo(c, y, k - 1), Mul(c[k - 1], q);
        XorInterchange(e, o, e, term);
        XorUnits(e);
        XorUnits(Xor(o, term));
      }
    }
  }

  /** With y = 1/x a root of c of degree t, the prefix sum is the whole odd part. */
  lemma PrefixIsDerivative(c: seq<byte>, x: byte, y: byte, t: nat)
    requires Mul(x, y) == 1 && 0 < t < |c| && DegreeAtMost(c, t) && Eval(c, y) == 0
    ensures PrefixSum(c, x, y, t) == OddTo(c, y, t + 1)
  {
    hide Mul, Xor, ReverseTo;
    EvalToAndFrom(c, y, t + 1);
    EvalFromZeros(c, y, t + 1);
    XorUnits(EvalTo(c, y, t + 1));
    if t % 2 == 0 {
      PrefixIsOddPart(c, x, y, t);
    } else {
      PrefixIsOddPart(c, x, y, t + 1);
      ReverseIsEvalTo(c, x, y, t, t + 1);
      MulUnit(Pow(x, t));
      MulUnit(Pow(y, t));
      XorUnits(PrefixSum(c, x, y, t));
    }
  }

  ghost function ReversedPrefixes(c: seq<byte>, x: byte, t: nat): (rs: seq<byte>)
    requires t <= |c|
    ensures |rs| == t && forall i :: 0 <= i < t ==> rs[i] == Reverse(c, x, i)
  {
    seq(t, i requires 0 <= i < t => Reverse(c, x, i))
  }

  lemma {:induction false} PrefixSumIsEval(c: seq<byte>, x: byte, y: byte, t: nat, k: nat)
    requires k <= t <= |c|
    ensures PrefixSum(c, x, y, k) == EvalTo(ReversedPrefixes(c, x, t), y, k)
  {
    hide Mul, Xor, Reverse;
    if k > 0 {
      PrefixSumIsEval(c, x, y, t, k - 1);
    }
  }

  /** The roots of a locator polynomial are simple: the prefix sum at the matching root is not zero. */
  lemma PrefixNonzero(c: seq<byte>, xs: seq<byte>, m: nat)
    requires |c| == NROOTS + 1 && c[0] == 1 && m < |xs| <= NROOTS && DegreeAtMost(c, |xs|)
    requires Distinct(xs) && forall l :: 0 <= l < |xs| ==> xs[l] != 0
    requires forall l :: 0 <= l < |xs| ==> Reverse(c, xs[l], |xs|) == 0 && Eval(c, Inverse(xs[l])) == 0
    ensures PrefixSum(c, xs[m], Inverse(xs[m]), |xs|) != 0
  {
    hide Mul, Xor, ReverseTo, PrefixSum, Eval, Inverse;
    var t := |xs|;
    var ys := Inverses(xs);
    var rs := ReversedPrefixes(c, xs[m], t);
    InversesDistinct(xs);
    FirstReverse(c, xs[m]);
    if PrefixSum(c, xs[m], ys[m], t) == 0 {
      forall l | 0 <= l < t
        ensures Eval(rs, ys[l]) == 0
      {
        if l != m {
          InverseCancels(xs[l]);
          MulCommutes(xs[l], ys[l]);
          OtherLocator(xs[m], xs[l], ys[l]);
          PrefixVanishes(c, xs[m], ys[l], t);
        }
        PrefixSumIsEval(c, xs[m], ys[l], t, t);
        EvalToAndFrom(rs, ys[l], t);
        XorUnits(EvalTo(rs, ys[l], t));
      }
      RootBound(rs, ys);
      assert false;
    }
  }
}
