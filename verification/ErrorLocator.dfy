/** Berlekamp-Massey on the syndromes of few errors finds exactly their locators. */
module ErrorLocator {
  import opened Bytes
  import opened GaloisField
  import opened Polynomials
  import opened BerlekampMassey

  /** The ten syndromes of errors with values es at locators xs. */
  ghost function Syndromes(xs: seq<byte>, es: seq<byte>): (s: seq<byte>)
    requires |xs| == |es|
    ensures |s| == NROOTS && forall n :: 0 <= n < NROOTS ==> s[n] == PowerSum(xs, es, n)
  {
    seq(NROOTS, n requires 0 <= n < NROOTS => PowerSum(xs, es, n))
  }

  /** The sum of c[i] * x^(n-i) over i < k. */
  ghost function ReverseTo(c: seq<byte>, x: byte, n: nat, k: nat): byte
    requires k <= n + 1 && k <= |c|
  {
    if k == 0 then 0 else Xor(ReverseTo(c, x, n, k - 1), Mul(c[k - 1], Pow(x, n - (k - 1))))
  }

  /** x^n * c(1/x), cut off at the n-th coefficient. */
  ghost function Reverse(c: seq<byte>, x: byte, n: nat): byte
    requires n < |c|
  {
    ReverseTo(c, x, n, n + 1)
  }

  lemma {:induction false} ReverseRaise(c: seq<byte>, x: byte, n: nat, k: nat)
    requires k <= n + 1 && k <= |c|
    ensures ReverseTo(c, x, n + 1, k) == Mul(x, ReverseTo(c, x, n, k))
  {
    hide Mul, Xor;
    if k == 0 {
      MulUnit(x);
    } else {
      ReverseRaise(c, x, n, k - 1);
      var p := Pow(x, n - (k - 1));
      MulSwap(x, c[k - 1], p);
      MulDistributes(x, ReverseTo(c, x, n, k - 1), Mul(c[k - 1], p));
    }
  }

  lemma {:induction false} ReverseBeyondDegree(c: seq<byte>, x: byte, d: nat, k: nat)
    requires d + k < |c| && DegreeAtMost(c, d)
    ensures Reverse(c, x, d + k) == Mul(Reverse(c, x, d), Pow(x, k))
  {
    hide Mul, Xor;
    if k == 0 {
      MulUnit(Reverse(c, x, d));
    } else {
      ReverseBeyondDegree(c, x, d, k - 1);
      ReverseRaise(c, x, d + k - 1, d + k);
      MulUnit(Pow(x, 0));
      XorUnits(ReverseTo(c, x, d + k, d + k));
      MulSwap(x, Reverse(c, x, d), Pow(x, k - 1));
    }
  }

  lemma {:induction false} ConvSplit(c: seq<byte>, xs: seq<byte>, es: seq<byte>, n: nat, k: nat)
    requires |xs| == |es| > 0 && n < NROOTS && k <= n + 1 && k <= |c|
    ensures ConvTo(c, Syndromes(xs, es), n, k)
         == Xor(Mul(es[0], ReverseTo(c, xs[0], n, k)), ConvTo(c, Syndromes(xs[1..], es[1..]), n, k))
  {
    hide Mul, Xor;
    var s, s' := Syndromes(xs, es), Syndromes(xs[1..], es[1..]);
    if k == 0 {
      MulUnit(es[0]);
      XorUnits(0);
    } else {
      ConvSplit(c, xs, es, n, k - 1);
      var m := n - (k - 1);
      var p := Pow(xs[0], m);
      MulDistributes(c[k - 1], Mul(es[0], p), s'[m]);
      MulSwap(c[k - 1], es[0], p);
      MulDistributes(es[0], ReverseTo(c, xs[0], n, k - 1), Mul(c[k - 1], p));
      XorInterchange(Mul(es[0], ReverseTo(c, xs[0], n, k - 1)), ConvTo(c, s', n, k - 1),
                     Mul(es[0], Mul(c[k - 1], p)), Mul(c[k - 1], s'[m]));
    }
  }

  lemma {:induction false} ConvOfNothing(c: seq<byte>, s: seq<byte>, n: nat, k: nat)
    requires n < |s| && k <= n + 1 && k <= |c| && AllZero(s)
    ensures ConvTo(c, s, n, k) == 0
  {
    hide Mul, Xor;
    if k > 0 {
      ConvOfNothing(c, s, n, k - 1);
      MulUnit(c[k - 1]);
      XorUnits(0);
    }
  }

  /** What is left of each error after c has been applied to the syndromes. */
  ghost function Residues(c: seq<byte>, xs: seq<byte>, es: seq<byte>, d: nat): (vs: seq<byte>)
    requires |xs| == |es| && d < |c|
    ensures |vs| == |xs| && forall l :: 0 <= l < |xs| ==> vs[l] == Mul(es[l], Reverse(c, xs[l], d))
  {
    if xs == [] then []
    else [Mul(es[0], Reverse(c, xs[0], d))] + Residues(c, xs[1..], es[1..], d)
  }

  /** Past its degree, applying c to the syndromes leaves a power sum over the same locators. */
  lemma {:induction false} ConvIsPowerSum(c: seq<byte>, xs: seq<byte>, es: seq<byte>, d: nat, k: nat)
    requires |xs| == |es| && d + k < NROOTS && d + k < |c| && DegreeAtMost(c, d)
    ensures Conv(c, Syndromes(xs, es), d + k) == PowerSum(xs, Residues(c, xs, es, d), k)
    decreases |xs|
  {
    hide Mul, Xor;
    var n := d + k;
    if xs == [] {
      assert AllZero(Syndromes(xs, es));
      ConvOfNothing(c, Syndromes(xs, es), n, n + 1);
    } else {
      ConvSplit(c, xs, es, n, n + 1);
      ConvIsPowerSum(c, xs[1..], es[1..], d, k);
      ReverseBeyondDegree(c, xs[0], d, k);
      MulAssociates(es[0], Reverse(c, xs[0], d), Pow(xs[0], k));
      assert Residues(c, xs, es, d)[1..] == Residues(c, xs[1..], es[1..], d);
    }
  }

  ghost predicate Errors(xs: seq<byte>, es: seq<byte>) {
    && |xs| == |es| && Distinct(xs)
    && (forall l :: 0 <= l < |xs| ==> xs[l] != 0 && es[l] != 0)
  }

  /** A register that annihilates as many syndromes as there are errors vanishes at every error. */
  lemma AnnihilatorHasRoots(c: seq<byte>, xs: seq<byte>, es: seq<byte>, d: nat, m: nat)
    requires Errors(xs, es) && |c| == NROOTS + 1 && DegreeAtMost(c, d)
    requires d + |xs| <= m <= NROOTS
    requires forall n :: d <= n < m ==> Conv(c, Syndromes(xs, es), n) == 0
    ensures forall l :: 0 <= l < |xs| ==> Reverse(c, xs[l], d) == 0
    ensures forall n :: d <= n < NROOTS ==> Conv(c, Syndromes(xs, es), n) == 0
  {
    hide Mul, Xor, ConvTo;
    var vs := Residues(c, xs, es, d);
    forall k: nat | k < |xs|
      ensures PowerSum(xs, vs, k) == 0
    {
      ConvIsPowerSum(c, xs, es, d, k);
    }
    Vandermonde(xs, vs);
    forall l | 0 <= l < |xs|
      ensures Reverse(c, xs[l], d) == 0
    {
      assert vs[l] == 0;
      MulNonzero(es[l], Reverse(c, xs[l], d));
    }
    forall n | d <= n < NROOTS
      ensures Conv(c, Syndromes(xs, es), n) == 0
    {
      ConvIsPowerSum(c, xs, es, d, n - d);
      PowerSumOfZeros(xs, vs, n - d);
    }
  }

  /** A nonzero discrepancy forces the register to be shorter than the errors allow. */
  lemma GrowthBound(g: Register, xs: seq<byte>, es: seq<byte>, r: nat)
    requires Errors(xs, es) && 1 <= r <= NROOTS
    requires Invariant(g, Syndromes(xs, es), r - 1) && Conv(g.lambda, Syndromes(xs, es), r - 1) != 0
    ensures r - g.el <= |xs|
  {
    hide Mul, Xor, Conv;
    if r - g.el > |xs| {
      AnnihilatorHasRoots(g.lambda, xs, es, g.el, r - 1);
    }
  }

  /** The register never grows longer than the number of errors. */
  lemma {:induction false} LengthAtMostErrors(xs: seq<byte>, es: seq<byte>, r: nat)
    requires Errors(xs, es) && r <= NROOTS
    ensures Run(Syndromes(xs, es), r).el <= |xs|
  {
    hide Mul, Xor, Conv, PowerSum, Syndromes;
    if r > 0 {
      var s := Syndromes(xs, es);
      var g := Run(s, r - 1);
      LengthAtMostErrors(xs, es, r - 1);
      RunInvariant(s, r - 1);
      if Conv(g.lambda, s, r - 1) != 0 {
        GrowthBound(g, xs, es, r);
      }
    }
  }

  // ---------- from reversed values to roots ----------

  /** The sum of c[i] * y^i over i < k. */
  ghost function EvalTo(c: seq<byte>, y: byte, k: nat): byte
    requires k <= |c|
  {
    if k == 0 then 0 else Xor(EvalTo(c, y, k - 1), Mul(c[k - 1], Pow(y, k - 1)))
  }

  /** The sum of c[i] * y^i over i >= k. */
  ghost function EvalFrom(c: seq<byte>, y: byte, k: nat): byte
    requires k <= |c|
    decreases |c| - k
  {
    if k == |c| then 0 else Xor(Mul(c[k], Pow(y, k)), EvalFrom(c, y, k + 1))
  }

  lemma {:induction false} EvalFromIsEval(c: seq<byte>, y: byte, k: nat)
    requires k <= |c|
    ensures EvalFrom(c, y, k) == Mul(Pow(y, k), Eval(c[k..], y))
    decreases |c| - k
  {
    hide Mul, Xor;
    if k == |c| {
      MulUnit(Pow(y, k));
    } else {
      EvalFromIsEval(c, y, k + 1);
      assert c[k..][1..] == c[k + 1..];
      var v := Eval(c[k + 1..], y);
      MulDistributes(Pow(y, k), c[k], Mul(y, v));
      MulCommutes(c[k], Pow(y, k));
      MulAssociates(Pow(y, k), y, v);
      MulCommutes(Pow(y, k), y);
    }
  }

  lemma {:induction false} EvalToAndFrom(c: seq<byte>, y: byte, k: nat)
    requires k <= |c|
    ensures Xor(EvalTo(c, y, k), EvalFrom(c, y, k)) == Eval(c, y)
  {
    hide Mul, Xor;
    if k == 0 {
      EvalFromIsEval(c, y, 0);
      assert c[0..] == c;
      MulUnit(Eval(c, y));
      XorUnits(Eval(c, y));
    } else {
      EvalToAndFrom(c, y, k - 1);
      XorAssociates(EvalTo(c, y, k - 1), Mul(c[k - 1], Pow(y, k - 1)), EvalFrom(c, y, k));
    }
  }

  lemma {:induction false} EvalFromZeros(c: seq<byte>, y: byte, k: nat)
    requires k <= |c| && DegreeAtMost(c, k - 1)
    ensures EvalFrom(c, y, k) == 0
    decreases |c| - k
  {
    hide Mul, Xor;
    if k < |c| {
      EvalFromZeros(c, y, k + 1);
      MulUnit(Pow(y, k));
      XorUnits(0);
    }
  }

  lemma PowInverse(x: byte, y: byte, n: nat, i: nat)
    requires Mul(x, y) == 1 && i <= n
    ensures Mul(Pow(x, n), Pow(y, i)) == Pow(x, n - i)
    decreases i
  {
    hide Mul;
    if i == 0 {
      MulUnit(Pow(x, n));
    } else {
      PowInverse(x, y, n - 1, i - 1);
      var p, q := Pow(x, n - 1), Pow(y, i - 1);
      MulAssociates(x, p, Mul(y, q));
      MulSwap(p, y, q);
      MulAssociates(x, y, Mul(p, q));
      MulUnit(Mul(p, q));
    }
  }

  lemma {:induction false} ReverseIsEvalTo(c: seq<byte>, x: byte, y: byte, n: nat, k: nat)
    requires Mul(x, y) == 1 && k <= n + 1 && k <= |c|
    ensures ReverseTo(c, x, n, k) == Mul(Pow(x, n), EvalTo(c, y, k))
  {
    hide Mul, Xor;
    if k == 0 {
      MulUnit(Pow(x, n));
    } else {
      ReverseIsEvalTo(c, x, y, n, k - 1);
      PowInverse(x, y, n, k - 1);
      MulSwap(Pow(x, n), c[k - 1], Pow(y, k - 1));
      MulDistributes(Pow(x, n), EvalTo(c, y, k - 1), Mul(c[k - 1], Pow(y, k - 1)));
    }
  }

  /** c vanishes at y exactly when its reverse vanishes at x = 1/y. */
  lemma ReverseRoot(c: seq<byte>, x: byte, y: byte, d: nat)
    requires Mul(x, y) == 1 && d < |c| && DegreeAtMost(c, d)
    ensures Reverse(c, x, d) == 0 <==> Eval(c, y) == 0
  {
    hide Mul, Xor;
    ReverseIsEvalTo(c, x, y, d, d + 1);
    EvalToAndFrom(c, y, d + 1);
    EvalFromZeros(c, y, d + 1);
    XorUnits(EvalTo(c, y, d + 1));
    MulUnit(y);
    if x == 0 {
      assert false;
    }
    PowNonzero(x, d);
    MulNonzero(Pow(x, d), EvalTo(c, y, d + 1));
  }

  // ---------- Chien search ----------

  /** The exponents i in 1..n for which the i-th power of x is a root of c, in search order. */
  ghost function RootsTo(c: seq<byte>, n: nat): (roots: seq<nat>)
    ensures forall j :: 0 <= j < |roots| ==> 1 <= roots[j] <= n
    ensures forall j, l :: 0 <= j < l < |roots| ==> roots[j] < roots[l]
    ensures forall i :: i in roots <==> 1 <= i <= n && Eval(c, Exp(i)) == 0
  {
    if n == 0 then [] else RootsTo(c, n - 1) + (if Eval(c, Exp(n)) == 0 then [n] else [])
  }

  ghost function Powers(roots: seq<nat>): (ys: seq<byte>)
    ensures |ys| == |roots| && forall j :: 0 <= j < |roots| ==> ys[j] == Exp(roots[j])
  {
    seq(|roots|, j requires 0 <= j < |roots| => Exp(roots[j]))
  }

  lemma ExpDistinct(i: nat, j: nat)
    requires 1 <= i < j <= 255
    ensures Exp(i) != Exp(j)
  {
    hide Exp;
    ExpMod(i);
    ExpMod(j);
    if Exp(i) == Exp(j) {
      ExpInjective(i % 255, j % 255);
    }
  }

  lemma PowersDistinct(roots: seq<nat>)
    requires forall j, l :: 0 <= j < l < |roots| ==> 1 <= roots[j] < roots[l] <= 255
    ensures Distinct(Powers(roots))
  {
    hide Exp;
    forall j, l | 0 <= j < l < |roots|
      ensures Exp(roots[j]) != Exp(roots[l])
    {
      ExpDistinct(roots[j], roots[l]);
    }
  }

  /** A locator polynomial has no more roots than its degree, so the search may stop there. */
  lemma RootsAtMostDegree(c: seq<byte>, n: nat, d: nat)
    requires n <= 255 && c != [] && c[0] != 0 && DegreeAtMost(c, d)
    ensures |RootsTo(c, n)| <= d
  {
    hide Exp, Eval;
    var roots := RootsTo(c, n);
    if |roots| > d {
      PowersDistinct(roots);
      var ys := Powers(roots);
      forall j | 0 <= j < |ys|
        ensures Eval(c, ys[j]) == 0
      {
        assert roots[j] in roots;
      }
      RootBound(c, ys);
      assert false;
    }
  }

  /** The inverse of each locator. */
  ghost function Inverses(xs: seq<byte>): (ys: seq<byte>)
    requires forall l :: 0 <= l < |xs| ==> xs[l] != 0
    ensures |ys| == |xs| && forall l :: 0 <= l < |xs| ==> ys[l] == Inverse(xs[l])
  {
    seq(|xs|, l requires 0 <= l < |xs| => Inverse(xs[l]))
  }

  lemma InversesDistinct(xs: seq<byte>)
    requires Distinct(xs) && forall l :: 0 <= l < |xs| ==> xs[l] != 0
    ensures Distinct(Inverses(xs))
  {
    hide Mul, Inverse;
    var ys := Inverses(xs);
    forall i, j | 0 <= i < j < |xs|
      ensures ys[i] != ys[j]
    {
      InverseCancels(xs[i]);
      InverseCancels(xs[j]);
      if ys[i] == ys[j] {
        MulCancels(ys[i], xs[i], xs[j]);
      }
    }
  }

  /** What Berlekamp-Massey and the search find: exactly as many roots as errors, one for each error. */
  ghost predicate Locates(c: seq<byte>, xs: seq<byte>) {
    && |c| == NROOTS + 1 && c[0] == 1 && |xs| <= NROOTS
    && DegreeAtMost(c, |xs|) && c[|xs|] != 0
    && (forall y :: y != 0 ==> (Eval(c, y) == 0 <==> Inverse(y) in xs))
  }

  lemma LambdaVanishesAtErrors(xs: seq<byte>, es: seq<byte>, c: seq<byte>)
    requires Errors(xs, es) && 2 * |xs| <= NROOTS
    requires c == Run(Syndromes(xs, es), NROOTS).lambda
    ensures |c| == NROOTS + 1 && c[0] == 1 && DegreeAtMost(c, |xs|)
    ensures forall l :: 0 <= l < |xs| ==> Eval(c, Inverse(xs[l])) == 0
    ensures forall l :: 0 <= l < |xs| ==> Reverse(c, xs[l], |xs|) == 0
    ensures forall n :: |xs| <= n < NROOTS ==> Conv(c, Syndromes(xs, es), n) == 0
  {
    hide Mul, Xor, Conv, PowerSum, Syndromes, Inverse, Eval, ReverseTo;
    var s := Syndromes(xs, es);
    var el := Run(s, NROOTS).el;
    RunInvariant(s, NROOTS);
    LengthAtMostErrors(xs, es, NROOTS);
    AnnihilatorHasRoots(c, xs, es, el, NROOTS);
    forall l | 0 <= l < |xs|
      ensures Eval(c, Inverse(xs[l])) == 0 && Reverse(c, xs[l], |xs|) == 0
    {
      InverseCancels(xs[l]);
      MulCommutes(Inverse(xs[l]), xs[l]);
      ReverseRoot(c, xs[l], Inverse(xs[l]), el);
      ReverseRoot(c, xs[l], Inverse(xs[l]), |xs|);
    }
  }

  lemma InverseTwice(y: byte)
    requires y != 0
    ensures Inverse(y) != 0 && Inverse(Inverse(y)) == y
  {
    hide Mul, Inverse;
    InverseCancels(y);
    InverseCancels(Inverse(y));
    MulCommutes(Inverse(Inverse(y)), Inverse(y));
    MulCancels(Inverse(y), y, Inverse(Inverse(y)));
  }

  /** For at most five errors the final locator polynomial locates them all and nothing else. */
  lemma LambdaLocates(xs: seq<byte>, es: seq<byte>)
    requires Errors(xs, es) && 2 * |xs| <= NROOTS
    ensures Locates(Run(Syndromes(xs, es), NROOTS).lambda, xs)
  {
    hide Mul, Xor, Conv, PowerSum, Syndromes, Inverse, Eval, Run, ReverseTo;
    var c := Run(Syndromes(xs, es), NROOTS).lambda;
    LambdaVanishesAtErrors(xs, es, c);
    InversesDistinct(xs);
    var ys := Inverses(xs);
    if c[|xs|] == 0 {
      RootBound(c, ys);
      assert false;
    }
    forall y | y != 0
      ensures Eval(c, y) == 0 <==> Inverse(y) in xs
    {
      InverseTwice(y);
      if Inverse(y) in xs {
        var l :| 0 <= l < |xs| && xs[l] == Inverse(y);
      } else if Eval(c, y) == 0 {
        forall l | 0 <= l < |xs|
          ensures ys[l] != y
        {
          InverseTwice(xs[l]);
        }
        RootBound(c, ys + [y]);
        assert false;
      }
    }
  }

  /** Two lists of distinct values with the same members have the same length. */
  lemma {:induction false} SubsetLength(xs: seq<byte>, ys: seq<byte>)
    requires Distinct(xs) && forall l :: 0 <= l < |xs| ==> xs[l] in ys
    ensures |xs| <= |ys|
  {
    if xs != [] {
      var k :| 0 <= k < |ys| && ys[k] == xs[0];
      var ys' := ys[..k] + ys[k + 1..];
      forall l | 0 <= l < |xs[1..]|
        ensures xs[1..][l] in ys'
      {
        assert xs[l + 1] in ys && xs[l + 1] != xs[0];
        var j :| 0 <= j < |ys| && ys[j] == xs[l + 1];
        assert ys'[if j < k then j else j - 1] == ys[j];
      }
      SubsetLength(xs[1..], ys');
    }
  }

  /** The search finds one root exponent per error. */
  lemma RootCount(c: seq<byte>, xs: seq<byte>)
    requires Locates(c, xs) && Distinct(xs) && forall l :: 0 <= l < |xs| ==> xs[l] != 0
    ensures |RootsTo(c, 255)| == |xs|
    ensures forall i :: 1 <= i <= 255 ==> (i in RootsTo(c, 255) <==> Exp(255 - i) in xs)
  {
    hide Mul, Xor, Inverse, Eval, Exp;
    var roots := RootsTo(c, 255);
    RootsAtMostDegree(c, 255, |xs|);
    forall i | 1 <= i <= 255
      ensures Exp(i) != 0 && Inverse(Exp(i)) == Exp(255 - i)
    {
      ExpInverse(i);
    }
    var ys := Powers(roots);
    InversesDistinct(xs);
    forall l | 0 <= l < |xs|
      ensures Inverses(xs)[l] in ys
    {
      RootFound(c, xs, l);
    }
    SubsetLength(Inverses(xs), ys);
  }

  lemma RootFound(c: seq<byte>, xs: seq<byte>, l: nat)
    requires Locates(c, xs) && l < |xs| && xs[l] != 0
    ensures Inverse(xs[l]) in Powers(RootsTo(c, 255))
  {
    hide Mul, Xor, Inverse, Eval, Exp, RootsTo;
    var y := Inverse(xs[l]);
    InverseTwice(xs[l]);
    assert Inverse(y) in xs;
    assert Eval(c, y) == 0;
    var i := if Log(y) == 0 then 255 else Log(y);
    ExpMod(255);
    var roots := RootsTo(c, 255);
    assert Exp(i) == y && i in roots;
    var j :| 0 <= j < |roots| && roots[j] == i;
    assert Powers(roots)[j] == y;
  }

  lemma ExpInverse(i: nat)
    requires 1 <= i <= 255
    ensures Exp(i) != 0 && Inverse(Exp(i)) == Exp(255 - i)
  {
    hide Exp, Mul, Inverse;
    ExpNonzero(i);
    ExpNonzero(255 - i);
    InverseCancels(Exp(i));
    MulExp(255 - i, i);
    ExpMod(255);
    ExpStep(0);
    MulCommutes(Inverse(Exp(i)), Exp(i));
    MulCommutes(Exp(255 - i), Exp(i));
    MulCancels(Exp(i), Inverse(Exp(i)), Exp(255 - i));
  }
}
