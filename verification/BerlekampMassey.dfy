/** The Berlekamp-Massey recursion on ten syndromes, as a function of the step number. */
module BerlekampMassey {
  import opened Bytes
  import opened GaloisField
  import opened Polynomials

  const NROOTS: nat := 10

  /** The first k terms of the n-th coefficient of c(x) * s(x). */
  ghost function ConvTo(c: seq<byte>, s: seq<byte>, n: nat, k: nat): byte
    requires n < |s| && k <= n + 1 && k <= |c|
  {
    if k == 0 then 0 else Xor(ConvTo(c, s, n, k - 1), Mul(c[k - 1], s[n - (k - 1)]))
  }

  ghost function Conv(c: seq<byte>, s: seq<byte>, n: nat): byte
    requires n < |s| && n < |c|
  {
    ConvTo(c, s, n, n + 1)
  }

  ghost function Shifted(b: seq<byte>): (r: seq<byte>)
    requires |b| > 0
    ensures |r| == |b| && r[0] == 0 && forall i :: 0 < i < |b| ==> r[i] == b[i - 1]
  {
    [0] + b[..|b| - 1]
  }

  ghost function Scaled(d: byte, c: seq<byte>): (r: seq<byte>)
    ensures |r| == |c| && forall i :: 0 <= i < |c| ==> r[i] == Mul(d, c[i])
  {
    seq(|c|, i requires 0 <= i < |c| => Mul(d, c[i]))
  }

  ghost function Inverse(d: byte): byte
    requires d != 0
  {
    Exp(255 - Log(d))
  }

  lemma InverseCancels(d: byte)
    requires d != 0
    ensures Inverse(d) != 0 && Mul(Inverse(d), d) == 1
  {
    hide Shift;
    ExpNonzero(255 - Log(d));
    MulExp(255 - Log(d), Log(d));
    PeriodOnce(0);
    ExpStep(0);
  }

  /** The register under construction: locator, shifted previous locator, length. */
  datatype Register = Register(lambda: seq<byte>, b: seq<byte>, el: nat)

  ghost function Initial(): Register {
    var one := [1] + seq(NROOTS, i => 0);
    Register(one, one, 0)
  }

  /** Step r of the algorithm, r counted from 1 as in rs.c. */
  ghost function Step(g: Register, s: seq<byte>, r: nat): Register
    requires |s| == NROOTS && |g.lambda| == |g.b| == NROOTS + 1 && 1 <= r <= NROOTS
  {
    var d := Conv(g.lambda, s, r - 1);
    if d == 0 then
      Register(g.lambda, Shifted(g.b), g.el)
    else
      var t := XorWords(g.lambda, Scaled(d, Shifted(g.b)));
      if 2 * g.el <= r - 1 then
        Register(t, Scaled(Inverse(d), g.lambda), r - g.el)
      else
        Register(t, Shifted(g.b), g.el)
  }

  ghost function Run(s: seq<byte>, r: nat): (g: Register)
    requires |s| == NROOTS && r <= NROOTS
    ensures |g.lambda| == |g.b| == NROOTS + 1
  {
    if r == 0 then Initial() else Step(Run(s, r - 1), s, r)
  }

  // ---------- convolution laws ----------

  lemma {:induction false} ConvShifted(b: seq<byte>, s: seq<byte>, n: nat, k: nat)
    requires 0 < n < |s| && 0 < k <= n + 1 && k <= |b|
    ensures ConvTo(Shifted(b), s, n, k) == ConvTo(b, s, n - 1, k - 1)
  {
    hide Mul, Xor;
    MulUnit(s[n - (k - 1)]);
    if k > 1 {
      ConvShifted(b, s, n, k - 1);
    } else {
      XorUnits(0);
    }
  }

  lemma {:induction false} ConvScaled(d: byte, c: seq<byte>, s: seq<byte>, n: nat, k: nat)
    requires n < |s| && k <= n + 1 && k <= |c|
    ensures ConvTo(Scaled(d, c), s, n, k) == Mul(d, ConvTo(c, s, n, k))
  {
    hide Mul, Xor;
    if k == 0 {
      MulUnit(d);
    } else {
      ConvScaled(d, c, s, n, k - 1);
      MulAssociates(d, c[k - 1], s[n - (k - 1)]);
      MulDistributes(d, ConvTo(c, s, n, k - 1), Mul(c[k - 1], s[n - (k - 1)]));
    }
  }

  lemma {:induction false} ConvXor(a: seq<byte>, b: seq<byte>, s: seq<byte>, n: nat, k: nat)
    requires |a| == |b| && n < |s| && k <= n + 1 && k <= |a|
    ensures ConvTo(XorWords(a, b), s, n, k) == Xor(ConvTo(a, s, n, k), ConvTo(b, s, n, k))
  {
    hide Mul, Xor;
    if k == 0 {
      XorUnits(0);
    } else {
      ConvXor(a, b, s, n, k - 1);
      var v := s[n - (k - 1)];
      MulDistributes(v, a[k - 1], b[k - 1]);
      XorInterchange(ConvTo(a, s, n, k - 1), ConvTo(b, s, n, k - 1), Mul(a[k - 1], v), Mul(b[k - 1], v));
    }
  }

  lemma ConvUpdated(lambda: seq<byte>, b: seq<byte>, d: byte, s: seq<byte>, n: nat)
    requires |lambda| == |b| && 0 < n < |s| && n < |b|
    ensures Conv(XorWords(lambda, Scaled(d, Shifted(b))), s, n) == Xor(Conv(lambda, s, n), Mul(d, Conv(b, s, n - 1)))
  {
    hide Mul, Xor;
    ConvXor(lambda, Scaled(d, Shifted(b)), s, n, n + 1);
    ConvScaled(d, Shifted(b), s, n, n + 1);
    ConvShifted(b, s, n, n + 1);
  }

  // ---------- the invariant ----------

  /** The coefficients of c above position d vanish. */
  predicate DegreeAtMost(c: seq<byte>, d: int) {
    forall i :: 0 <= i < |c| && i > d ==> c[i] == 0
  }

  /** lambda annihilates the syndromes from el on; b did so one step short of its failure, normalised to one. */
  ghost predicate Invariant(g: Register, s: seq<byte>, r: nat)
    requires |s| == NROOTS && r <= NROOTS
  {
    && |g.lambda| == |g.b| == NROOTS + 1
    && g.lambda[0] == 1 && g.el <= r
    && DegreeAtMost(g.lambda, g.el)
    && DegreeAtMost(g.b, r - g.el)
    && (forall n :: g.el <= n < r ==> Conv(g.lambda, s, n) == 0)
    && (forall n :: r - g.el <= n < r - 1 ==> Conv(g.b, s, n) == 0)
    && (g.el > 0 ==> Conv(g.b, s, r - 1) == 1)
  }

  lemma ZeroDiscrepancyKeeps(g: Register, s: seq<byte>, r: nat)
    requires |s| == NROOTS && 1 <= r <= NROOTS && Invariant(g, s, r - 1)
    requires Conv(g.lambda, s, r - 1) == 0
    ensures Invariant(Step(g, s, r), s, r)
  {
    hide Mul, Xor, ConvTo;
    var b' := Shifted(g.b);
    forall n | r - g.el <= n < r
      ensures Conv(b', s, n) == Conv(g.b, s, n - 1)
    {
      ConvShifted(g.b, s, n, n + 1);
    }
  }

  lemma UpdateAnnihilates(g: Register, s: seq<byte>, r: nat, d: byte, t: seq<byte>, from: nat)
    requires |s| == NROOTS && 1 <= r <= NROOTS && Invariant(g, s, r - 1)
    requires d == Conv(g.lambda, s, r - 1) && t == XorWords(g.lambda, Scaled(d, Shifted(g.b)))
    requires from >= g.el && from >= r - g.el && g.el > 0
    ensures forall n :: from <= n < r ==> Conv(t, s, n) == 0
  {
    hide Mul, Xor, ConvTo;
    forall n | from <= n < r
      ensures Conv(t, s, n) == 0
    {
      ConvUpdated(g.lambda, g.b, d, s, n);
      MulUnit(d);
      XorUnits(d);
      XorUnits(0);
      if n < r - 1 {
        assert Conv(g.b, s, n - 1) == 0;
      }
    }
  }

  lemma UpdateDegree(g: Register, s: seq<byte>, r: nat, d: byte, top: nat)
    requires |s| == NROOTS && 1 <= r <= NROOTS && Invariant(g, s, r - 1)
    requires top >= g.el && top >= r - g.el
    ensures DegreeAtMost(XorWords(g.lambda, Scaled(d, Shifted(g.b))), top)
    ensures XorWords(g.lambda, Scaled(d, Shifted(g.b)))[0] == 1
  {
    hide Mul, Xor;
    MulUnit(d);
    XorUnits(0);
    XorUnits(1);
  }

  lemma LengthChangeKeeps(g: Register, s: seq<byte>, r: nat, d: byte)
    requires |s| == NROOTS && 1 <= r <= NROOTS && Invariant(g, s, r - 1)
    requires d == Conv(g.lambda, s, r - 1) != 0 && 2 * g.el <= r - 1
    ensures Invariant(Step(g, s, r), s, r)
  {
    hide Mul, Xor, ConvTo;
    var g' := Step(g, s, r);
    var e := Inverse(d);
    UpdateDegree(g, s, r, d, r - g.el);
    if g.el > 0 {
      UpdateAnnihilates(g, s, r, d, g'.lambda, r - g.el);
    }
    MulUnit(e);
    InverseCancels(d);
    forall n | g.el <= n < r
      ensures Conv(g'.b, s, n) == Mul(e, Conv(g.lambda, s, n))
    {
      ConvScaled(e, g.lambda, s, n, n + 1);
    }
  }

  lemma NoLengthChangeKeeps(g: Register, s: seq<byte>, r: nat, d: byte)
    requires |s| == NROOTS && 1 <= r <= NROOTS && Invariant(g, s, r - 1)
    requires d == Conv(g.lambda, s, r - 1) != 0 && 2 * g.el > r - 1
    ensures Invariant(Step(g, s, r), s, r)
  {
    hide Mul, Xor, ConvTo;
    var g' := Step(g, s, r);
    UpdateDegree(g, s, r, d, g.el);
    UpdateAnnihilates(g, s, r, d, g'.lambda, g.el);
    forall n | r - g.el <= n < r
      ensures Conv(g'.b, s, n) == Conv(g.b, s, n - 1)
    {
      ConvShifted(g.b, s, n, n + 1);
    }
  }

  /** For every syndrome vector, every step keeps the invariant. */
  lemma {:induction false} RunInvariant(s: seq<byte>, r: nat)
    requires |s| == NROOTS && r <= NROOTS
    ensures Invariant(Run(s, r), s, r)
  {
    hide Mul, Xor, ConvTo;
    if r > 0 {
      RunInvariant(s, r - 1);
      var g := Run(s, r - 1);
      var d := Conv(g.lambda, s, r - 1);
      if d == 0 {
        ZeroDiscrepancyKeeps(g, s, r);
      } else if 2 * g.el <= r - 1 {
        LengthChangeKeeps(g, s, r, d);
      } else {
        NoLengthChangeKeeps(g, s, r, d);
      }
    }
  }
}
