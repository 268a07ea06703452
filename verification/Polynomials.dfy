/** Power sums and polynomials over GF(2^8). */
module Polynomials {
  import opened Bytes
  import opened GaloisField

  ghost function Pow(x: byte, n: nat): byte {
    if n == 0 then 1 else Mul(x, Pow(x, n - 1))
  }

  lemma {:induction false} PowAdd(x: byte, m: nat, n: nat)
    ensures Pow(x, m + n) == Mul(Pow(x, m), Pow(x, n))
  {
    hide Mul;
    if m == 0 {
      MulUnit(Pow(x, n));
    } else {
      PowAdd(x, m - 1, n);
      MulAssociates(x, Pow(x, m - 1), Pow(x, n));
    }
  }

  lemma {:induction false} PowExp(i: nat, n: nat)
    ensures Pow(Exp(i), n) == Exp(i * n)
  {
    hide Mul, Exp;
    if n == 0 {
      ExpStep(0);
    } else {
      PowExp(i, n - 1);
      MulExp(i, i * (n - 1));
      assert i + i * (n - 1) == i * n;
    }
  }

  lemma {:induction false} PowNonzero(x: byte, n: nat)
    requires x != 0
    ensures Pow(x, n) != 0
  {
    hide Mul;
    if n > 0 {
      PowNonzero(x, n - 1);
      MulNonzero(x, Pow(x, n - 1));
    }
  }

  lemma MulSwap(a: byte, b: byte, c: byte)
    ensures Mul(a, Mul(b, c)) == Mul(b, Mul(a, c))
  {
    hide Mul;
    MulAssociates(a, b, c);
    MulAssociates(b, a, c);
    MulCommutes(a, b);
  }

  predicate Distinct(xs: seq<byte>) {
    forall i, j :: 0 <= i < j < |xs| ==> xs[i] != xs[j]
  }

  predicate AllZero(vs: seq<byte>) {
    forall i :: 0 <= i < |vs| ==> vs[i] == 0
  }

  /** The sum of vs[j] * xs[j]^n. */
  ghost function PowerSum(xs: seq<byte>, vs: seq<byte>, n: nat): byte
    requires |xs| == |vs|
  {
    if xs == [] then 0 else Xor(Mul(vs[0], Pow(xs[0], n)), PowerSum(xs[1..], vs[1..], n))
  }

  ghost function Differences(xs: seq<byte>, vs: seq<byte>, z: byte): (ws: seq<byte>)
    requires |xs| == |vs|
    ensures |ws| == |vs| && forall j :: 0 <= j < |vs| ==> ws[j] == Mul(vs[j], Xor(xs[j], z))
  {
    if xs == [] then [] else [Mul(vs[0], Xor(xs[0], z))] + Differences(xs[1..], vs[1..], z)
  }

  lemma TermDifference(v: byte, x: byte, z: byte, n: nat)
    ensures Mul(Mul(v, Xor(x, z)), Pow(x, n)) == Xor(Mul(v, Pow(x, n + 1)), Mul(z, Mul(v, Pow(x, n))))
  {
    hide Mul, Xor;
    var p := Pow(x, n);
    MulAssociates(v, Xor(x, z), p);
    MulDistributes(p, x, z);
    MulDistributes(v, Mul(x, p), Mul(z, p));
    MulSwap(v, z, p);
  }

  lemma {:induction false} PowerSumDifferences(xs: seq<byte>, vs: seq<byte>, z: byte, n: nat)
    requires |xs| == |vs|
    ensures PowerSum(xs, Differences(xs, vs, z), n) == Xor(PowerSum(xs, vs, n + 1), Mul(z, PowerSum(xs, vs, n)))
  {
    hide Mul, Xor;
    if xs == [] {
      MulUnit(z);
      XorUnits(0);
    } else {
      var ws := Differences(xs, vs, z);
      var xs', vs' := xs[1..], vs[1..];
      assert ws[1..] == Differences(xs', vs', z);
      PowerSumDifferences(xs', vs', z, n);
      TermDifference(vs[0], xs[0], z, n);
      MulDistributes(z, Mul(vs[0], Pow(xs[0], n)), PowerSum(xs', vs', n));
      XorInterchange(Mul(vs[0], Pow(xs[0], n + 1)), Mul(z, Mul(vs[0], Pow(xs[0], n))),
                     PowerSum(xs', vs', n + 1), Mul(z, PowerSum(xs', vs', n)));
    }
  }

  lemma {:induction false} PowerSumOfZeros(xs: seq<byte>, vs: seq<byte>, n: nat)
    requires |xs| == |vs| && AllZero(vs)
    ensures PowerSum(xs, vs, n) == 0
  {
    hide Mul, Xor;
    if xs != [] {
      PowerSumOfZeros(xs[1..], vs[1..], n);
      MulUnit(Pow(xs[0], n));
      XorUnits(0);
    }
  }

  /** A Vandermonde system with distinct nodes and zero right-hand side has only the zero solution. */
  lemma {:induction false} Vandermonde(xs: seq<byte>, vs: seq<byte>)
    requires |xs| == |vs| && Distinct(xs)
    requires forall n: nat :: n < |xs| ==> PowerSum(xs, vs, n) == 0
    ensures AllZero(vs)
  {
    hide Mul, Xor;
    if xs != [] {
      var z, xs', vs' := xs[0], xs[1..], vs[1..];
      var ws := Differences(xs', vs', z);
      forall n: nat | n < |xs'|
        ensures PowerSum(xs', ws, n) == 0
      {
        PowerSumDifferences(xs', vs', z, n);
        assert PowerSum(xs, vs, n) == 0 && PowerSum(xs, vs, n + 1) == 0;
        XorCancels(Mul(vs[0], Pow(z, n)), PowerSum(xs', vs', n));
        XorCancels(Mul(vs[0], Pow(z, n + 1)), PowerSum(xs', vs', n + 1));
        MulSwap(vs[0], z, Pow(z, n));
        XorUnits(Mul(vs[0], Pow(z, n + 1)));
      }
      Vandermonde(xs', ws);
      forall j | 0 <= j < |vs'|
        ensures vs'[j] == 0
      {
        assert ws[j] == 0 && xs'[j] != z;
        XorCancels(xs'[j], z);
        MulNonzero(vs'[j], Xor(xs'[j], z));
      }
      PowerSumOfZeros(xs', vs', 0);
      assert PowerSum(xs, vs, 0) == 0;
      MulUnit(vs[0]);
      XorUnits(vs[0]);
    }
  }

  // ---------- words read as polynomials, leading coefficient first ----------

  ghost function WordValue(w: seq<byte>, x: byte): byte {
    if w == [] then 0 else Xor(Mul(w[0], Pow(x, |w| - 1)), WordValue(w[1..], x))
  }

  lemma {:induction false} WordValueConcat(u: seq<byte>, v: seq<byte>, x: byte)
    ensures WordValue(u + v, x) == Xor(Mul(WordValue(u, x), Pow(x, |v|)), WordValue(v, x))
  {
    hide Mul, Xor;
    if u == [] {
      assert u + v == v;
      MulUnit(Pow(x, |v|));
      XorUnits(WordValue(v, x));
    } else {
      var u' := u[1..];
      assert (u + v)[1..] == u' + v;
      WordValueConcat(u', v, x);
      PowAdd(x, |u| - 1, |v|);
      MulAssociates(u[0], Pow(x, |u| - 1), Pow(x, |v|));
      MulDistributes(Pow(x, |v|), Mul(u[0], Pow(x, |u| - 1)), WordValue(u', x));
      XorAssociates(Mul(u[0], Pow(x, |u + v| - 1)), Mul(WordValue(u', x), Pow(x, |v|)), WordValue(v, x));
    }
  }

  /** Horner's rule: one more byte multiplies by x and adds. */
  lemma WordValueSnoc(w: seq<byte>, c: byte, x: byte)
    ensures WordValue(w + [c], x) == Xor(Mul(WordValue(w, x), x), c)
  {
    hide Mul, Xor;
    WordValueConcat(w, [c], x);
    assert Pow(x, 1) == Mul(x, Pow(x, 0));
    MulUnit(x);
    MulUnit(c);
    XorUnits(c);
    assert WordValue([c], x) == Xor(Mul(c, Pow(x, 0)), WordValue([], x)) by {
      assert [c][1..] == [];
    }
  }

  ghost function XorWords(a: seq<byte>, b: seq<byte>): (c: seq<byte>)
    requires |a| == |b|
    ensures |c| == |a| && forall i :: 0 <= i < |a| ==> c[i] == Xor(a[i], b[i])
  {
    if a == [] then [] else [Xor(a[0], b[0])] + XorWords(a[1..], b[1..])
  }

  lemma {:induction false} WordValueXor(a: seq<byte>, b: seq<byte>, x: byte)
    requires |a| == |b|
    ensures WordValue(XorWords(a, b), x) == Xor(WordValue(a, x), WordValue(b, x))
  {
    hide Mul, Xor;
    if a == [] {
      XorUnits(0);
    } else {
      var c := XorWords(a, b);
      assert c[1..] == XorWords(a[1..], b[1..]);
      WordValueXor(a[1..], b[1..], x);
      var p := Pow(x, |a| - 1);
      MulDistributes(p, a[0], b[0]);
      XorInterchange(Mul(a[0], p), Mul(b[0], p), WordValue(a[1..], x), WordValue(b[1..], x));
    }
  }

  /** The locator of each byte of an n-byte word: byte p multiplies x^(n-1-p). */
  ghost function Locators(n: nat): (xs: seq<byte>)
    ensures |xs| == n && forall p :: 0 <= p < n ==> xs[p] == Exp(n - 1 - p)
  {
    if n == 0 then [] else [Exp(n - 1)] + Locators(n - 1)
  }

  lemma {:induction false} WordIsPowerSum(w: seq<byte>, i: nat)
    ensures WordValue(w, Exp(i)) == PowerSum(Locators(|w|), w, i)
  {
    hide Mul, Xor, Exp;
    if w != [] {
      assert Locators(|w|)[1..] == Locators(|w| - 1);
      WordIsPowerSum(w[1..], i);
      PowExp(i, |w| - 1);
      PowExp(|w| - 1, i);
      assert i * (|w| - 1) == (|w| - 1) * i;
    }
  }

  lemma LocatorsDistinct(n: nat)
    requires n <= 255
    ensures Distinct(Locators(n))
  {
    hide Exp;
    var xs := Locators(n);
    forall i, j | 0 <= i < j < n
      ensures xs[i] != xs[j]
    {
      if xs[i] == xs[j] {
        ExpInjective(n - 1 - i, n - 1 - j);
      }
    }
  }

  // ---------- the nonzero part of a vector ----------

  ghost function SupportNodes(xs: seq<byte>, vs: seq<byte>): seq<byte>
    requires |xs| == |vs|
  {
    if xs == [] then []
    else (if vs[0] == 0 then [] else [xs[0]]) + SupportNodes(xs[1..], vs[1..])
  }

  ghost function SupportValues(vs: seq<byte>): (r: seq<byte>)
    ensures forall l :: 0 <= l < |r| ==> r[l] != 0
  {
    if vs == [] then []
    else (if vs[0] == 0 then [] else [vs[0]]) + SupportValues(vs[1..])
  }

  /** How many entries are not zero. */
  ghost function Weight(vs: seq<byte>): nat {
    if vs == [] then 0 else (if vs[0] == 0 then 0 else 1) + Weight(vs[1..])
  }

  lemma {:induction false} SupportShape(xs: seq<byte>, vs: seq<byte>)
    requires |xs| == |vs|
    ensures |SupportNodes(xs, vs)| == |SupportValues(vs)| == Weight(vs)
    ensures Distinct(xs) ==> Distinct(SupportNodes(xs, vs))
    ensures forall x :: x in SupportNodes(xs, vs) ==> x in xs
  {
    if xs != [] {
      var xs', vs' := xs[1..], vs[1..];
      SupportShape(xs', vs');
      var ns' := SupportNodes(xs', vs');
      assert forall x :: x in ns' ==> x in xs;
      if Distinct(xs) {
        assert Distinct(xs');
        forall l | 0 <= l < |ns'|
          ensures ns'[l] != xs[0]
        {
          assert ns'[l] in xs';
        }
      }
    }
  }

  lemma {:induction false} SupportMembers(xs: seq<byte>, vs: seq<byte>, p: nat)
    requires |xs| == |vs| && Distinct(xs) && p < |xs|
    ensures xs[p] in SupportNodes(xs, vs) <==> vs[p] != 0
  {
    var xs', vs' := xs[1..], vs[1..];
    SupportShape(xs', vs');
    if p > 0 {
      assert Distinct(xs');
      SupportMembers(xs', vs', p - 1);
      assert xs'[p - 1] == xs[p] != xs[0];
    } else {
      assert xs[0] !in xs';
    }
  }

  /** Where the support of vs has entry l, and that vs holds the matching value there. */
  lemma {:induction false} SupportIndex(xs: seq<byte>, vs: seq<byte>, l: nat) returns (p: nat)
    requires |xs| == |vs| && |SupportNodes(xs, vs)| == |SupportValues(vs)| && l < |SupportNodes(xs, vs)|
    ensures p < |xs| && xs[p] == SupportNodes(xs, vs)[l] && vs[p] == SupportValues(vs)[l]
  {
    var xs', vs' := xs[1..], vs[1..];
    SupportShape(xs', vs');
    if vs[0] == 0 {
      p := SupportIndex(xs', vs', l);
      p := p + 1;
    } else if l == 0 {
      p := 0;
    } else {
      p := SupportIndex(xs', vs', l - 1);
      p := p + 1;
    }
  }

  lemma {:induction false} SupportPowerSum(xs: seq<byte>, vs: seq<byte>, n: nat)
    requires |xs| == |vs| && |SupportNodes(xs, vs)| == |SupportValues(vs)|
    ensures PowerSum(SupportNodes(xs, vs), SupportValues(vs), n) == PowerSum(xs, vs, n)
  {
    hide Mul, Xor;
    if xs != [] {
      var xs', vs' := xs[1..], vs[1..];
      SupportShape(xs', vs');
      SupportPowerSum(xs', vs', n);
      if vs[0] == 0 {
        assert SupportNodes(xs, vs) == SupportNodes(xs', vs') && SupportValues(vs) == SupportValues(vs');
        MulUnit(Pow(xs[0], n));
        XorUnits(PowerSum(xs', vs', n));
      } else {
        var ns, us := SupportNodes(xs, vs), SupportValues(vs);
        assert ns[1..] == SupportNodes(xs', vs') && us[1..] == SupportValues(vs');
      }
    }
  }

  // ---------- polynomials, constant term first ----------

  ghost function Eval(c: seq<byte>, y: byte): byte {
    if c == [] then 0 else Xor(c[0], Mul(y, Eval(c[1..], y)))
  }

  /** The coefficients of (c(x) - c(r)) / (x - r). */
  ghost function Quotient(c: seq<byte>, r: byte): (q: seq<byte>)
    requires c != []
    ensures |q| == |c| - 1 && forall k :: 0 <= k < |q| ==> q[k] == Eval(c[k + 1..], r)
  {
    if |c| == 1 then [] else
      var q := [Eval(c[1..], r)] + Quotient(c[1..], r);
      assert forall k :: 0 < k < |q| ==> q[k] == Eval(c[k + 1..], r) by {
        forall k | 0 < k < |q|
          ensures q[k] == Eval(c[k + 1..], r)
        {
          assert c[1..][k..] == c[k + 1..];
        }
      }
      q
  }

  lemma QuotientStep(x: byte, r: byte, e: byte, er: byte, qv: byte)
    requires Xor(e, er) == Mul(Xor(x, r), qv)
    ensures Xor(Mul(x, e), Mul(r, er)) == Mul(Xor(x, r), Xor(er, Mul(x, qv)))
  {
    hide Mul, Xor;
    var d := Xor(x, r);
    MulDistributes(d, er, Mul(x, qv));
    MulSwap(d, x, qv);
    MulDistributes(x, e, er);
    MulDistributes(er, x, r);
    XorCommutes(Mul(x, e), Mul(x, er));
    XorCommutes(Mul(x, er), Mul(r, er));
    XorAssociates(Mul(r, er), Mul(x, er), Xor(Mul(x, er), Mul(x, e)));
    XorCancels(Mul(x, er), Mul(x, e));
    XorCommutes(Mul(x, e), Mul(r, er));
  }

  lemma {:induction false} QuotientEval(c: seq<byte>, r: byte, x: byte)
    requires c != []
    ensures Xor(Eval(c, x), Eval(c, r)) == Mul(Xor(x, r), Eval(Quotient(c, r), x))
  {
    hide Mul, Xor;
    var e, er := Eval(c[1..], x), Eval(c[1..], r);
    XorInterchange(c[0], Mul(x, e), c[0], Mul(r, er));
    XorUnits(c[0]);
    XorUnits(Xor(Mul(x, e), Mul(r, er)));
    if |c| == 1 {
      MulUnit(x);
      MulUnit(r);
      XorUnits(0);
      MulUnit(Xor(x, r));
    } else {
      var q := Quotient(c, r);
      QuotientEval(c[1..], r, x);
      assert q[0] == er && q[1..] == Quotient(c[1..], r);
      QuotientStep(x, r, e, er, Eval(q[1..], x));
    }
  }

  lemma {:induction false} EvalOfZeros(c: seq<byte>, y: byte)
    requires AllZero(c)
    ensures Eval(c, y) == 0
  {
    hide Mul, Xor;
    if c != [] {
      EvalOfZeros(c[1..], y);
      MulUnit(y);
      XorUnits(0);
    }
  }

  /** A polynomial whose degree is below the number of its distinct roots is zero. */
  lemma {:induction false} RootBound(c: seq<byte>, ys: seq<byte>)
    requires Distinct(ys) && forall j :: 0 <= j < |ys| ==> Eval(c, ys[j]) == 0
    requires forall i :: |ys| <= i < |c| ==> c[i] == 0
    ensures AllZero(c)
    decreases |ys|
  {
    hide Mul, Xor;
    if ys != [] && c != [] {
      var r, ys' := ys[0], ys[1..];
      var q := Quotient(c, r);
      assert Eval(c, r) == 0;
      forall j | 0 <= j < |ys'|
        ensures Eval(q, ys'[j]) == 0
      {
        var y := ys'[j];
        assert y == ys[j + 1];
        QuotientEval(c, r, y);
        XorUnits(0);
        XorCancels(y, r);
        MulNonzero(Xor(y, r), Eval(q, y));
      }
      forall i | |ys'| <= i < |q|
        ensures q[i] == 0
      {
        EvalOfZeros(c[i + 1..], r);
      }
      RootBound(q, ys');
      forall i | 0 < i < |c|
        ensures c[i] == 0
      {
        EvalHeadFromQuotient(c, r, i);
      }
      assert AllZero(c[1..]);
      EvalOfZeros(c[1..], r);
      MulUnit(r);
      XorUnits(c[0]);
    }
  }

  lemma EvalHeadFromQuotient(c: seq<byte>, r: byte, i: nat)
    requires 0 < i < |c| && AllZero(Quotient(c, r))
    ensures c[i] == 0
  {
    hide Mul, Xor;
    var q := Quotient(c, r);
    var tail := c[i..];
    assert q[i - 1] == Eval(tail, r);
    assert tail[0] == c[i] && tail[1..] == c[i + 1..];
    if i + 1 < |c| {
      assert q[i] == Eval(c[i + 1..], r);
    } else {
      assert c[i + 1..] == [];
    }
    MulUnit(r);
    XorUnits(c[i]);
  }
}
