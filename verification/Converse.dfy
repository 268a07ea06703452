/** The converse of location: when what the decoder finds is damage that a codeword has suffered. */
module Converse {
  import opened Bytes
  import opened GaloisField
  import opened Polynomials
  import opened BerlekampMassey
  import opened ErrorLocator
  import opened LinearCode
  import opened DecoderSpec

  // ---------- interpolation: any first syndromes are those of some values at given locators ----------

  /** The syndromes once the part of locator z has been cancelled. */
  ghost function Cancelled(s: seq<byte>, z: byte): (u: seq<byte>)
    requires s != []
    ensures |u| == |s| - 1 && forall n :: 0 <= n < |u| ==> u[n] == Xor(s[n + 1], Mul(z, s[n]))
  {
    seq(|s| - 1, n requires 0 <= n < |s| - 1 => Xor(s[n + 1], Mul(z, s[n])))
  }

  ghost function Scales(us: seq<byte>, xs: seq<byte>, z: byte): (vs: seq<byte>)
    requires |us| == |xs| && forall j :: 0 <= j < |xs| ==> Xor(xs[j], z) != 0
    ensures |vs| == |us| && forall j :: 0 <= j < |vs| ==> vs[j] == Mul(us[j], Inverse(Xor(xs[j], z)))
  {
    seq(|us|, j requires 0 <= j < |us| => Mul(us[j], Inverse(Xor(xs[j], z))))
  }

  lemma ScalesBack(us: seq<byte>, xs: seq<byte>, z: byte)
    requires |us| == |xs| && forall j :: 0 <= j < |xs| ==> Xor(xs[j], z) != 0
    ensures Differences(xs, Scales(us, xs, z), z) == us
  {
    hide Mul, Xor, Inverse;
    forall j | 0 <= j < |us|
      ensures Differences(xs, Scales(us, xs, z), z)[j] == us[j]
    {
      var d := Xor(xs[j], z);
      InverseCancels(d);
      MulAssociates(us[j], Inverse(d), d);
      MulUnit(us[j]);
    }
  }

  /** A Vandermonde system with distinct nodes can be solved for every right-hand side. */
  lemma {:induction false} Interpolate(xs: seq<byte>, s: seq<byte>) returns (vs: seq<byte>)
    requires Distinct(xs) && |xs| <= |s|
    ensures |vs| == |xs| && forall n: nat :: n < |xs| ==> PowerSum(xs, vs, n) == s[n]
    decreases |xs|
  {
    hide Mul, Xor, PowerSum, Differences;
    if xs == [] {
      vs := [];
    } else {
      var z, xs' := xs[0], xs[1..];
      forall j | 0 <= j < |xs'|
        ensures Xor(xs'[j], z) != 0
      {
        XorCancels(xs'[j], z);
      }
      var us := Interpolate(xs', Cancelled(s, z));
      var vs' := Scales(us, xs', z);
      ScalesBack(us, xs', z);
      vs := [Xor(s[0], PowerSum(xs', vs', 0))] + vs';
      assert vs[1..] == vs';
      forall n: nat | n < |xs|
        ensures PowerSum(xs, vs, n) == s[n]
      {
        InterpolatedAt(xs, s, us, vs, n);
      }
    }
  }

  lemma {:induction false} InterpolatedAt(xs: seq<byte>, s: seq<byte>, us: seq<byte>, vs: seq<byte>, n: nat)
    requires xs != [] && |vs| == |xs| <= |s| && n < |xs|
    requires us == Differences(xs[1..], vs[1..], xs[0]) && vs[0] == Xor(s[0], PowerSum(xs[1..], vs[1..], 0))
    requires forall k: nat :: k < |xs| - 1 ==> PowerSum(xs[1..], us, k) == Cancelled(s, xs[0])[k]
    ensures PowerSum(xs, vs, n) == s[n]
  {
    hide Mul, Xor;
    var z, xs', vs' := xs[0], xs[1..], vs[1..];
    if n == 0 {
      MulUnit(vs[0]);
      XorCancels(PowerSum(xs', vs', 0), s[0]);
    } else {
      InterpolatedAt(xs, s, us, vs, n - 1);
      PowerSumDifferences(xs', vs', z, n - 1);
      var a, b := Mul(vs[0], Pow(z, n - 1)), PowerSum(xs', vs', n - 1);
      MulSwap(z, vs[0], Pow(z, n - 1));
      MulDistributes(z, a, b);
      var p, q := PowerSum(xs', vs', n), Mul(z, b);
      assert Xor(p, q) == Xor(s[n], Mul(z, s[n - 1]));
      SameAddend(Mul(z, a), p, q, s[n]);
    }
  }

  /** If p + q = v + (w + q) then w + p = v. */
  lemma SameAddend(w: byte, p: byte, q: byte, v: byte)
    requires Xor(p, q) == Xor(v, Xor(w, q))
    ensures Xor(w, p) == v
  {
    hide Xor;
    XorAssociates(v, w, q);
    XorCancels(q, p);
    XorCancels(q, Xor(v, w));
    XorCancels(w, v);
    XorCommutes(w, p);
  }

  // ---------- what a locator polynomial annihilates is fixed by the first syndromes ----------

  lemma {:induction false} ConvAgree(c: seq<byte>, s: seq<byte>, t: seq<byte>, n: nat, k: nat)
    requires n < |s| == |t| && 1 <= k <= n + 1 && k <= |c| && forall m :: 0 <= m < n ==> s[m] == t[m]
    ensures Xor(ConvTo(c, s, n, k), ConvTo(c, t, n, k)) == Xor(Mul(c[0], s[n]), Mul(c[0], t[n]))
  {
    hide Mul, Xor;
    if k == 1 {
      XorUnits(Mul(c[0], s[n]));
      XorUnits(Mul(c[0], t[n]));
      assert ConvTo(c, s, n, 0) == 0 == ConvTo(c, t, n, 0);
    } else {
      ConvAgree(c, s, t, n, k - 1);
      var m := Mul(c[k - 1], s[n - (k - 1)]);
      XorInterchange(ConvTo(c, s, n, k - 1), m, ConvTo(c, t, n, k - 1), m);
      XorUnits(m);
      XorUnits(Xor(ConvTo(c, s, n, k - 1), ConvTo(c, t, n, k - 1)));
    }
  }

  lemma {:induction false} SameRecurrence(c: seq<byte>, s: seq<byte>, t: seq<byte>, d: nat, n: nat)
    requires |s| == |t| == NROOTS && |c| == NROOTS + 1 && c[0] == 1 && n <= NROOTS
    requires forall m :: 0 <= m < d && m < NROOTS ==> s[m] == t[m]
    requires forall m :: d <= m < NROOTS ==> Conv(c, s, m) == 0 == Conv(c, t, m)
    ensures s[..n] == t[..n]
  {
    hide Mul, Xor, ConvTo;
    if n > 0 {
      SameRecurrence(c, s, t, d, n - 1);
      forall m | 0 <= m < n - 1
        ensures s[m] == t[m]
      {
        assert s[..n - 1][m] == t[..n - 1][m];
      }
      if d <= n - 1 {
        ConvAgree(c, s, t, n - 1, n);
        assert Conv(c, s, n - 1) == 0 == Conv(c, t, n - 1);
        MulUnit(s[n - 1]);
        MulUnit(t[n - 1]);
        XorUnits(0);
        XorCancels(s[n - 1], t[n - 1]);
      }
      assert s[..n] == s[..n - 1] + [s[n - 1]] && t[..n] == t[..n - 1] + [t[n - 1]];
    }
  }

  // ---------- from roots to errors ----------

  /** The locators that root exponents stand for. */
  ghost function Nodes(roots: seq<nat>): (xs: seq<byte>)
    requires forall l :: 0 <= l < |roots| ==> 1 <= roots[l] <= NN
    ensures |xs| == |roots| && forall l :: 0 <= l < |roots| ==> xs[l] == Exp(NN - roots[l])
  {
    seq(|roots|, l requires 0 <= l < |roots| => Exp(NN - roots[l]))
  }

  lemma NodesDistinct(roots: seq<nat>)
    requires forall l :: 0 <= l < |roots| ==> 1 <= roots[l] <= NN
    requires forall j, l :: 0 <= j < l < |roots| ==> roots[j] < roots[l]
    ensures Distinct(Nodes(roots)) && forall l :: 0 <= l < |roots| ==> Nodes(roots)[l] != 0
  {
    hide Exp;
    forall j, l | 0 <= j < l < |roots|
      ensures Nodes(roots)[j] != Nodes(roots)[l]
    {
      if Exp(NN - roots[j]) == Exp(NN - roots[l]) {
        ExpInjective(NN - roots[j], NN - roots[l]);
      }
    }
    forall l | 0 <= l < |roots|
      ensures Nodes(roots)[l] != 0
    {
      ExpNonzero(NN - roots[l]);
    }
  }

  /** Errors at the locators of all roots have syndromes that the polynomial annihilates past its degree. */
  lemma RootsAnnihilate(c: seq<byte>, roots: seq<nat>, vs: seq<byte>, d: nat)
    requires |c| == NROOTS + 1 && DegreeAtMost(c, d) && d <= NROOTS && |vs| == |roots|
    requires forall l :: 0 <= l < |roots| ==> 1 <= roots[l] <= NN && Eval(c, Exp(roots[l])) == 0
    ensures forall n :: d <= n < NROOTS ==> Conv(c, Syndromes(Nodes(roots), vs), n) == 0
  {
    hide Mul, Xor, ConvTo, Exp, Eval, ReverseTo, Inverse;
    var xs := Nodes(roots);
    forall l | 0 <= l < |xs|
      ensures Residues(c, xs, vs, d)[l] == 0
    {
      ExpInverse(roots[l]);
      InverseCancels(Exp(roots[l]));
      ReverseRoot(c, xs[l], Exp(roots[l]), d);
      MulUnit(vs[l]);
    }
    forall n | d <= n < NROOTS
      ensures Conv(c, Syndromes(xs, vs), n) == 0
    {
      ConvIsPowerSum(c, xs, vs, d, n - d);
      PowerSumOfZeros(xs, Residues(c, xs, vs, d), n - d);
    }
  }

  /** If the register is as long as the polynomial has roots, the syndromes are those of as many errors at the roots. */
  lemma SyndromesAreErrors(s: seq<byte>, roots: seq<nat>) returns (vs: seq<byte>)
    requires |s| == NROOTS && roots == RootsTo(Run(s, NROOTS).lambda, NN) && Run(s, NROOTS).el == |roots|
    ensures |vs| == |roots| && Errors(Nodes(roots), vs) && s == Syndromes(Nodes(roots), vs)
  {
    hide Mul, Xor, Conv, Exp, Eval, Run, RootsTo, PowerSum, Syndromes;
    var g := Run(s, NROOTS);
    var c, t := g.lambda, |roots|;
    RunInvariant(s, NROOTS);
    forall l | 0 <= l < t
      ensures 1 <= roots[l] <= NN && Eval(c, Exp(roots[l])) == 0
    {
      assert roots[l] in roots;
    }
    NodesDistinct(roots);
    var xs := Nodes(roots);
    vs := Interpolate(xs, s);
    RootsAnnihilate(c, roots, vs, t);
    SameRecurrence(c, s, Syndromes(xs, vs), t, NROOTS);
    assert s[..NROOTS] == s && Syndromes(xs, vs)[..NROOTS] == Syndromes(xs, vs);
    NoneZero(xs, vs, s);
  }

  /** No value is zero, for then fewer errors would do, and the register be shorter. */
  lemma NoneZero(xs: seq<byte>, vs: seq<byte>, s: seq<byte>)
    requires |xs| == |vs| && Distinct(xs) && forall l :: 0 <= l < |xs| ==> xs[l] != 0
    requires s == Syndromes(xs, vs) && Run(s, NROOTS).el == |xs|
    ensures forall l :: 0 <= l < |vs| ==> vs[l] != 0
  {
    hide PowerSum, Run;
    SupportShape(xs, vs);
    var ns, us := SupportNodes(xs, vs), SupportValues(vs);
    forall l | 0 <= l < |ns|
      ensures ns[l] != 0
    {
      assert ns[l] in xs;
    }
    forall n | 0 <= n < NROOTS
      ensures Syndromes(ns, us)[n] == s[n]
    {
      SupportPowerSum(xs, vs, n);
    }
    assert Syndromes(ns, us) == s;
    LengthAtMostErrors(ns, us, NROOTS);
    forall l | 0 <= l < |vs|
      ensures vs[l] != 0
    {
      FullWeight(vs, l);
    }
  }

  // ---------- the damaged word ----------

  /** The word that is vs[l] at the byte of root l and zero elsewhere. */
  ghost function Spread(roots: seq<nat>, vs: seq<byte>): (e: seq<byte>)
    requires |roots| == |vs| && forall l :: 0 <= l < |roots| ==> PAD < roots[l] <= NN
    ensures |e| == CODE_LENGTH
  {
    if roots == [] then Zeros(CODE_LENGTH) else Spread(roots[1..], vs[1..])[roots[0] - PAD - 1 := vs[0]]
  }

  lemma {:induction false} SpreadSupport(roots: seq<nat>, vs: seq<byte>)
    requires |roots| == |vs| && forall l :: 0 <= l < |roots| ==> PAD < roots[l] <= NN && vs[l] != 0
    requires forall j, l :: 0 <= j < l < |roots| ==> roots[j] < roots[l]
    ensures forall i :: i in roots <==> StandsForDamage(Spread(roots, vs), i)
    ensures Weight(Spread(roots, vs)) == |roots|
    decreases |roots|, 1
  {
    hide Weight;
    if roots == [] {
      WeightOfZeros(Zeros(CODE_LENGTH));
    } else {
      var e', p := Spread(roots[1..], vs[1..]), roots[0] - PAD - 1;
      SpreadSupport(roots[1..], vs[1..]);
      FirstFree(roots, vs);
      WeightRaised(e', p, vs[0]);
      assert roots == [roots[0]] + roots[1..];
    }
  }

  /** The byte of the first root is not yet set. */
  lemma FirstFree(roots: seq<nat>, vs: seq<byte>)
    requires roots != [] && |roots| == |vs| && forall l :: 0 <= l < |roots| ==> PAD < roots[l] <= NN && vs[l] != 0
    requires forall j, l :: 0 <= j < l < |roots| ==> roots[j] < roots[l]
    ensures Spread(roots[1..], vs[1..])[roots[0] - PAD - 1] == 0
    decreases |roots|, 0
  {
    hide Weight;
    var e' := Spread(roots[1..], vs[1..]);
    SpreadSupport(roots[1..], vs[1..]);
    assert roots[0] !in roots[1..];
    assert StandsForDamage(e', roots[0]) <==> e'[roots[0] - PAD - 1] != 0;
  }

  lemma {:induction false} WeightRaised(w: seq<byte>, p: nat, v: byte)
    requires p < |w| && w[p] == 0 && v != 0
    ensures Weight(w[p := v]) == Weight(w) + 1
  {
    if p == 0 {
      assert w[p := v][1..] == w[1..];
    } else {
      assert w[p := v][1..] == w[1..][p - 1 := v];
      WeightRaised(w[1..], p - 1, v);
    }
  }

  lemma {:induction false} ValueRaised(w: seq<byte>, p: nat, v: byte, x: byte)
    requires p < |w| && w[p] == 0
    ensures WordValue(w[p := v], x) == Xor(Mul(v, Pow(x, |w| - 1 - p)), WordValue(w, x))
  {
    hide Mul, Xor;
    if p == 0 {
      assert w[p := v][1..] == w[1..];
      MulUnit(Pow(x, |w| - 1));
      XorUnits(WordValue(w[1..], x));
    } else {
      assert w[p := v][1..] == w[1..][p - 1 := v];
      ValueRaised(w[1..], p - 1, v, x);
      var a, b, c := Mul(w[0], Pow(x, |w| - 1)), Mul(v, Pow(x, |w| - 1 - p)), WordValue(w[1..], x);
      XorAssociates(a, b, c);
      XorAssociates(b, a, c);
      XorCommutes(a, b);
    }
  }

  lemma {:induction false} SpreadValue(roots: seq<nat>, vs: seq<byte>, n: nat)
    requires |roots| == |vs| && forall l :: 0 <= l < |roots| ==> PAD < roots[l] <= NN && vs[l] != 0
    requires forall j, l :: 0 <= j < l < |roots| ==> roots[j] < roots[l]
    ensures WordValue(Spread(roots, vs), Exp(n)) == PowerSum(Nodes(roots), vs, n)
  {
    hide Mul, Xor, Exp, WordValue;
    if roots == [] {
      WordValueZeros(Zeros(CODE_LENGTH), Exp(n));
    } else {
      var e', p := Spread(roots[1..], vs[1..]), roots[0] - PAD - 1;
      SpreadValue(roots[1..], vs[1..], n);
      FirstFree(roots, vs);
      ValueRaised(e', p, vs[0], Exp(n));
      assert CODE_LENGTH - 1 - p == NN - roots[0];
      PowSwap(n, NN - roots[0]);
      assert Nodes(roots)[1..] == Nodes(roots[1..]);
    }
  }

  lemma PowSwap(i: nat, j: nat)
    ensures Pow(Exp(i), j) == Pow(Exp(j), i)
  {
    hide Exp;
    PowExp(i, j);
    PowExp(j, i);
    assert i * j == j * i;
  }

  // ---------- the converse ----------

  /** What the decoder found is a plausible repair: a register as long as the count, and all locations in the word. */
  ghost predicate Consistent(w: seq<byte>)
    requires |w| == CODE_LENGTH
  {
    && Decoded(w).count == Run(WordSyndromes(w), NROOTS).el
    && forall i :: i in Decoded(w).roots ==> PAD < i
  }

  /** Such a word is a codeword damaged in exactly the bytes found. */
  lemma ConsistentIsDamage(w: seq<byte>) returns (c: seq<byte>, e: seq<byte>)
    requires |w| == CODE_LENGTH && Consistent(w) && Decoded(w).count >= 1
    ensures IsCodeword(c) && |e| == CODE_LENGTH && w == XorWords(c, e) && Weight(e) == Decoded(w).count
    ensures forall i :: i in Decoded(w).roots <==> StandsForDamage(e, i)
  {
    hide WordValue, Exp, Run, Xor, RootsTo, Patched, PowerSum, Weight, StandsForDamage, Spread;
    var s, roots := WordSyndromes(w), Decoded(w).roots;
    assert roots == RootsTo(Run(s, NROOTS).lambda, NN) && Decoded(w).count == |roots|;
    var vs := SyndromesAreErrors(s, roots);
    forall l | 0 <= l < |roots|
      ensures PAD < roots[l] <= NN && vs[l] != 0
    {
      assert roots[l] in roots;
    }
    e := Spread(roots, vs);
    SpreadSupport(roots, vs);
    c := XorWords(w, e);
    forall n | 0 <= n < NROOTS
      ensures WordValue(c, Exp(n)) == 0
    {
      SpreadValue(roots, vs, n);
      WordValueXor(w, e, Exp(n));
      assert s[n] == WordValue(w, Exp(n)) == PowerSum(Nodes(roots), vs, n);
      XorUnits(s[n]);
    }
    forall p | 0 <= p < CODE_LENGTH
      ensures XorWords(c, e)[p] == w[p]
    {
      XorCancels(e[p], w[p]);
    }
    assert XorWords(c, e) == w;
  }

  /** The word is a codeword with exactly t damaged bytes. */
  ghost predicate Damages(w: seq<byte>, t: nat) {
    exists c, e :: IsCodeword(c) && |e| == CODE_LENGTH && Weight(e) == t && w == XorWords(c, e)
  }

  /** Within its reach the decoder tells exactly which words are damaged codewords, and by how much. */
  lemma DamagedIff(w: seq<byte>, t: nat)
    requires |w| == CODE_LENGTH && 1 <= t <= 5
    ensures Damages(w, t) <==> Consistent(w) && Decoded(w).count == t
  {
    hide VanishesAtRoots, Decoded, Run, Xor, Weight, StandsForDamage;
    if Damages(w, t) {
      var c, e :| IsCodeword(c) && |e| == CODE_LENGTH && Weight(e) == t && w == XorWords(c, e);
      DamageIsConsistent(c, e);
    }
    if Consistent(w) && Decoded(w).count == t {
      var c, e := ConsistentIsDamage(w);
    }
  }

  lemma DamageIsConsistent(c: seq<byte>, e: seq<byte>)
    requires IsCodeword(c) && |e| == CODE_LENGTH && 1 <= Weight(e) <= 5
    ensures Consistent(XorWords(c, e)) && Decoded(XorWords(c, e)).count == Weight(e)
  {
    hide WordValue, Exp, Run, Xor, Decoded, Weight, VanishesAtRoots, ErrorNodes, SupportValues, Patched;
    var s, lambda := LocationFacts(c, e);
    LocatesUpToFive(c, e);
    RunInvariant(s, NROOTS);
    LengthAtMostErrors(ErrorNodes(e), SupportValues(e), NROOTS);
  }
}
