/** The codec itself: table building, encoder and decoder, working in place on the arrays of rs.c. */
module ReedSolomon {
  import opened Bytes
  import opened GaloisField
  import opened Polynomials
  import opened BerlekampMassey
  import opened ErrorLocator
  import opened LinearCode
  import opened Forney
  import opened DecoderSpec

  const MM: nat := 8
  const A0: byte := 255
  /** Coefficients of 1 + x^2 + x^3 + x^4 + x^8. */
  const PP: seq<byte> := [1, 0, 1, 1, 1, 0, 0, 0, 1]

  // ---------- what the lookups mean ----------

  lemma LookupPower(a: byte, i: nat)
    requires a != 0 && Log(a) + i <= 510
    ensures Exp(ModNn(IndexOf(a) + i)) == Mul(a, Exp(i))
  {
    hide Exp, Mul;
    TablePowerExact(Log(a) + i);
    MulExp(Log(a), i);
  }

  lemma LookupProduct(a: byte, b: byte)
    requires a != 0 && b != 0
    ensures Exp(ModNn(IndexOf(a) + IndexOf(b))) == Mul(a, b)
  {
    hide Exp, Mul;
    LookupPower(a, Log(b));
  }

  lemma LookupQuotient(a: byte, d: byte)
    requires a != 0 && d != 0
    ensures ModNn(IndexOf(a) - IndexOf(d) + NN) == IndexOf(Mul(Inverse(d), a))
  {
    hide Exp, Mul;
    var k := Log(a) + (NN - Log(d));
    MulExp(NN - Log(d), Log(a));
    LogExp(k);
    ModNnExact(k);
  }

  lemma TopBit(a: byte)
    requires a >= 128
    ensures Xor(a, 128) == a - 128 && Times2(a) == Xor(0x1d, 2 * (a - 128))
  {
    hide XorNat;
    assert Two(7) == 128;
    XorNatTop(a - 128, 0, 7);
    XorNatUnits(a - 128);
    XorCommutes(2 * a - 256, 0x1d);
  }

  lemma PartialReduction()
    ensures Xor(0, 1) == 1 && Xor(1, 4) == 5 && Xor(5, 8) == 13 && Xor(13, 16) == 29
  {
    assert Two(2) == 4 && Two(3) == 8 && Two(4) == 16;
    XorUnits(1);
    XorDisjoint(1, 2);
    XorDisjoint(5, 3);
    XorDisjoint(13, 4);
  }

  lemma {:induction false} XorDisjoint(a: nat, k: nat)
    requires a < Two(k)
    ensures XorNat(a, Two(k)) == a + Two(k)
  {
    hide XorNat;
    if k == 0 {
      XorNatUnits(1);
    } else {
      XorDisjoint(a / 2, k - 1);
      XorNatPush(a / 2, Two(k - 1), a % 2, 0);
    }
  }

  lemma FirstPowers()
    ensures Exp(0) == 1 && Exp(8) == 0x1d
    ensures forall i :: 0 <= i < 7 ==> Exp(i + 1) == 2 * Exp(i) && Exp(i) < 128
    ensures Exp(1) == 2 && Exp(2) == 4 && Exp(3) == 8 && Exp(4) == 16 && Exp(5) == 32 && Exp(6) == 64 && Exp(7) == 128
  {
    hide Exp;
    SomePowers();
    ExpStep(0);
    ExpStep(1);
    ExpStep(2);
    ExpStep(3);
    ExpStep(4);
    ExpStep(5);
    ExpStep(6);
  }

  lemma {:induction false} GeneratorConstantNonzero(n: nat)
    ensures Generator(n)[0] != 0
  {
    hide Mul, Xor, Exp;
    if n > 0 {
      GeneratorConstantNonzero(n - 1);
      ExpNonzero(n - 1);
      MulNonzero(Exp(n - 1), Generator(n - 1)[0]);
      XorUnits(Mul(Exp(n - 1), Generator(n - 1)[0]));
    }
  }

  /** modnn: the loop of rs.c, with its shift by 255 read as zero. */
  method Modnn(x0: int) returns (x: int)
    ensures x == ModNn(x0)
    ensures x0 < 0 ==> x == x0
    ensures 0 <= x0 <= 510 ==> x == x0 % 255
    ensures x0 >= 0 ==> (x == x0 % 255 <==> x0 <= 510 || (x0 - 255) / 256 % 255 == 0)
    ensures 510 < x0 <= 765 ==> x == x0 - 511
  {
    if x0 >= 0 {
      ModNnIff(x0);
    }
    if 510 < x0 <= 765 {
      ModNnWrong(x0);
    }
    x := x0;
    while x >= 0xff
      invariant ModNn(x) == ModNn(x0)
      decreases x
    {
      x := x - 0xff;
      x := 0 + x % 256;
    }
  }

  class Codec {
    const alphaTo: array<byte>
    const indexOf: array<byte>
    const gg: array<byte>

    constructor ()
      ensures fresh(alphaTo) && fresh(indexOf) && fresh(gg) && Allocated()
    {
      alphaTo := new byte[256](i => 0);
      indexOf := new byte[256](i => 0);
      gg := new byte[NROOTS + 1](i => 0);
    }

    ghost predicate Allocated() {
      && alphaTo.Length == 256 && indexOf.Length == 256 && gg.Length == NROOTS + 1
      && alphaTo != indexOf && alphaTo != gg && indexOf != gg
    }

    /** The tables hold the powers of x and their logarithms. */
    ghost predicate TablesReady()
      reads alphaTo, indexOf
    {
      && Allocated()
      && (forall i :: 0 <= i < NN ==> alphaTo[i] == Exp(i))
      && (forall b: byte :: indexOf[b] == IndexOf(b))
    }

    /** gg holds the logarithms of the generator's coefficients, none of which is zero. */
    ghost predicate GeneratorReady()
      reads gg
    {
      && gg.Length == NROOTS + 1
      && (forall j :: 0 <= j <= NROOTS ==> Generator(NROOTS)[j] != 0 && gg[j] == Log(Generator(NROOTS)[j]))
    }

    /** generate_gf: fills alpha_to and index_of. */
    method GenerateGf()
      requires Allocated()
      modifies alphaTo, indexOf
      ensures TablesReady()
    {
      hide Exp, Xor;
      FirstPowers();
      PartialReduction();
      forall a: byte { XorUnits(a); }
      var mask: int := 1;
      alphaTo[MM] := 0;
      for i := 0 to MM
        invariant mask == [1, 2, 4, 8, 16, 32, 64, 128, 256][i]
        invariant forall k :: 0 <= k < i ==> alphaTo[k] == Exp(k) && indexOf[Exp(k)] == k
        invariant alphaTo[MM] == [0, 1, 1, 5, 13, 29, 29, 29, 29][i]
      {
        forall k | 0 <= k < i
          ensures Exp(k) != Exp(i)
        {
          PowersDiffer(k, i);
        }
        alphaTo[i] := mask;
        indexOf[alphaTo[i]] := i;
        if PP[i] != 0 {
          alphaTo[MM] := Xor(alphaTo[MM], mask);
        }
        mask := mask * 2;
      }
      forall k | 0 <= k < MM
        ensures Exp(k) != Exp(MM)
      {
        PowersDiffer(k, MM);
      }
      indexOf[alphaTo[MM]] := MM;
      mask := mask / 2;
      FillRest(mask);
      forall k | 0 <= k < 255
        ensures Exp(k) != 0
      {
        ExpNonzero(k);
      }
      indexOf[0] := A0;
      forall b: byte
        ensures indexOf[b] == IndexOf(b)
      {
        if b != 0 {
          assert Exp(Log(b)) == b;
        }
      }
    }

    /** The second loop of generate_gf: every further power from its predecessor. */
    method FillRest(mask: int)
      requires Allocated() && mask == 128
      requires forall k :: 0 <= k <= MM ==> alphaTo[k] == Exp(k) && indexOf[Exp(k)] == k
      modifies alphaTo, indexOf
      ensures forall k :: 0 <= k < 255 ==> alphaTo[k] == Exp(k) && indexOf[Exp(k)] == k
    {
      hide Exp, Xor;
      FirstPowers();
      for i := MM + 1 to 255
        invariant forall k :: 0 <= k < i ==> alphaTo[k] == Exp(k)
        invariant forall k :: 0 <= k < i ==> indexOf[Exp(k)] == k
      {
        ExpStep(i - 1);
        if alphaTo[i - 1] >= mask {
          TopBit(alphaTo[i - 1]);
          alphaTo[i] := Xor(alphaTo[MM], Xor(alphaTo[i - 1], mask) * 2);
        } else {
          alphaTo[i] := alphaTo[i - 1] * 2;
        }
        forall k | 0 <= k < i
          ensures Exp(k) != Exp(i)
        {
          PowersDiffer(k, i);
        }
        indexOf[alphaTo[i]] := i;
      }
    }

    lemma PowersDiffer(k: nat, i: nat)
      requires k < i < 255
      ensures Exp(k) != Exp(i)
    {
      if Exp(k) == Exp(i) {
        ExpInjective(k, i);
      }
    }

    /** gen_poly: multiplies the factors together in place, then takes logarithms. */
    method GenPoly()
      requires TablesReady()
      modifies gg
      ensures TablesReady() && GeneratorReady()
    {
      hide Exp, Xor, Mul, Generator;
      gg[0] := 1;
      GeneratorBase();
      var root: int := 0;
      for i := 0 to NROOTS
        invariant TablesReady() && root == i
        invariant gg[..i + 1] == Generator(i)
      {
        ghost var g := Generator(i);
        forall k | 0 <= k <= i
          ensures gg[k] == g[k]
        {
          assert gg[..i + 1][k] == gg[k];
        }
        GeneratorMonic(i);
        GeneratorConstantNonzero(i);
        GeneratorUnfold(i);
        MultiplyByRoot(i, root, g);
        root := root + 1;
      }

      ghost var g := Generator(NROOTS);
      forall k | 0 <= k <= NROOTS
        ensures gg[k] == g[k] && g[k] != 0
      {
        assert gg[..NROOTS + 1][k] == gg[k];
        GeneratorNonzero(k);
      }
      for i := 0 to NROOTS + 1
        invariant TablesReady()
        invariant forall k :: 0 <= k < i ==> gg[k] == Log(g[k])
        invariant forall k :: i <= k <= NROOTS ==> gg[k] == g[k]
      {
        gg[i] := indexOf[gg[i]];
      }
    }

    /** One pass of gen_poly's outer loop: multiplies the first i + 1 coefficients by x plus a root. */
    method MultiplyByRoot(i: nat, root: nat, ghost g: seq<byte>)
      requires TablesReady() && i < NROOTS && root == i
      requires |g| == i + 1 && g[i] == 1 && g[0] != 0
      requires forall k :: 0 <= k <= i ==> gg[k] == g[k]
      modifies gg
      ensures gg[..i + 2] == TimesRoot(g, Exp(i))
    {
      hide Exp, Xor, Mul, IndexOf, TimesRoot, ModNn;
      ghost var g' := TimesRoot(g, Exp(i));
      MulUnit(Exp(i));
      XorUnits(1);
      gg[i + 1] := 1;
      var j := i;
      while j > 0
        invariant 0 <= j <= i && TablesReady()
        invariant forall k :: 0 <= k <= j ==> gg[k] == g[k]
        invariant forall k :: j < k <= i + 1 ==> gg[k] == g'[k]
      {
        if gg[j] != 0 {
          var m := Modnn(indexOf[gg[j]] + root);
          LookupPower(gg[j], root);
          MulCommutes(g[j], Exp(i));
          gg[j] := Xor(gg[j - 1], alphaTo[m]);
        } else {
          XorUnits(gg[j - 1]);
          gg[j] := gg[j - 1];
        }
        j := j - 1;
      }
      var m := Modnn(indexOf[gg[0]] + root);
      LookupPower(gg[0], root);
      MulCommutes(g[0], Exp(i));
      XorUnits(Mul(Exp(i), g[0]));
      gg[0] := alphaTo[m];
      assert gg[..i + 2] == g';
    }

    lemma GeneratorBase()
      ensures Generator(0) == [1]
    {
    }

    lemma GeneratorUnfold(i: nat)
      ensures Generator(i + 1) == TimesRoot(Generator(i), Exp(i))
    {
    }

    /** rs_encode: the shift register over the ten parity bytes. */
    method RsEncode(data: array<byte>, bb: array<byte>)
      requires TablesReady() && GeneratorReady()
      requires data.Length >= MESSAGE_LENGTH && bb.Length >= NROOTS
      requires bb != data && bb != alphaTo && bb != indexOf && bb != gg
      modifies bb
      ensures bb[..NROOTS] == Parity(data[..MESSAGE_LENGTH])
      ensures bb[NROOTS..] == old(bb[NROOTS..])
    {
      hide Exp, Xor, Mul, Generator, Parity;
      for i := 0 to NROOTS
        invariant forall j :: 0 <= j < i ==> bb[j] == 0
        invariant forall j :: NROOTS <= j < bb.Length ==> bb[j] == old(bb[j])
      {
        bb[i] := 0;
      }
      ParityBase();
      assert bb[..NROOTS] == Zeros(NROOTS);
      assert data[..0] == [];
      for i := 0 to MESSAGE_LENGTH
        invariant bb[..NROOTS] == Parity(data[..i])
        invariant forall j :: NROOTS <= j < bb.Length ==> bb[j] == old(bb[j])
      {
        ghost var p := Parity(data[..i]);
        forall k | 0 <= k < NROOTS
          ensures bb[k] == p[k]
        {
          assert bb[..NROOTS][k] == bb[k];
        }
        EncodeOne(data[i], bb, p);
        ParityStep(data[..i + 1]);
        assert data[..i + 1][..i] == data[..i];
      }
    }

    /** Adds the generator times the feedback to the register, but for its first byte. */
    method AddMultiple(feedback: int, bb: array<byte>, ghost p: seq<byte>, ghost f: byte)
      requires TablesReady() && GeneratorReady()
      requires bb.Length >= NROOTS && bb != alphaTo && bb != indexOf && bb != gg
      requires |p| == NROOTS && forall k :: 0 <= k < NROOTS ==> bb[k] == p[k]
      requires f != 0 && feedback == IndexOf(f)
      modifies bb
      ensures bb[0] == p[0]
      ensures forall k :: 1 <= k < NROOTS ==> bb[k] == Xor(p[k], Mul(f, Generator(NROOTS)[NROOTS - k]))
      ensures forall k :: NROOTS <= k < bb.Length ==> bb[k] == old(bb[k])
    {
      hide Exp, Xor, Mul, Generator;
      ghost var g := Generator(NROOTS);
      for j := 1 to NROOTS
        invariant TablesReady() && GeneratorReady()
        invariant bb[0] == p[0]
        invariant forall k :: 1 <= k < j ==> bb[k] == Xor(p[k], Mul(f, g[NROOTS - k]))
        invariant forall k :: j <= k < NROOTS ==> bb[k] == p[k]
        invariant forall k :: NROOTS <= k < bb.Length ==> bb[k] == old(bb[k])
      {
        LookupProduct(f, g[NROOTS - j]);
        var m := Modnn(feedback + gg[NROOTS - j]);
        bb[j] := Xor(bb[j], alphaTo[m]);
      }
    }

    /** One pass of the encoder's loop body. */
    method EncodeOne(d: byte, bb: array<byte>, ghost p: seq<byte>)
      requires TablesReady() && GeneratorReady()
      requires bb.Length >= NROOTS && bb != alphaTo && bb != indexOf && bb != gg
      requires |p| == NROOTS && forall k :: 0 <= k < NROOTS ==> bb[k] == p[k]
      modifies bb
      ensures bb[..NROOTS] == EncodeStep(p, d)
      ensures forall j :: NROOTS <= j < bb.Length ==> bb[j] == old(bb[j])
    {
      hide Exp, Xor, Mul, Generator, EncodeStep;
      ghost var f := Xor(d, p[0]);
      ghost var g := Generator(NROOTS);
      var feedback: int := indexOf[Xor(d, bb[0])];
      if feedback != A0 {
        AddMultiple(feedback, bb, p, f);
      } else {
        forall k | 1 <= k < NROOTS
          ensures Mul(f, g[NROOTS - k]) == 0 && Xor(p[k], 0) == p[k]
        {
          MulUnit(g[NROOTS - k]);
          XorUnits(p[k]);
        }
      }
      forall j | 0 <= j < NROOTS - 1 {
        bb[j] := bb[j + 1];
      }
      XorUnits(Mul(f, g[0]));
      MulUnit(g[0]);
      if feedback != A0 {
        LookupProduct(f, g[0]);
        var m := Modnn(feedback + gg[0]);
        bb[NROOTS - 1] := alphaTo[m];
      } else {
        bb[NROOTS - 1] := 0;
      }
      forall j | 0 <= j < NROOTS
        ensures bb[j] == EncodeStep(p, d)[j]
      {
        EncodeStepAt(p, d, j);
      }
    }

    lemma ParityBase()
      ensures Parity([]) == Zeros(NROOTS)
    {
    }

    lemma ParityStep(m: seq<byte>)
      requires m != []
      ensures Parity(m) == EncodeStep(Parity(m[..|m| - 1]), m[|m| - 1])
    {
    }

    // ---------- rs_decode, phase by phase ----------

    /** Horner evaluation of the received word at the ten roots. */
    method FormSyndromes(data: array<byte>, at: nat) returns (s: array<byte>)
      requires TablesReady() && at + CODE_LENGTH <= data.Length
      ensures fresh(s) && s.Length == NROOTS
      ensures s[..] == WordSyndromes(data[at..at + CODE_LENGTH])
    {
      hide Exp, Xor, Mul, WordValue, IndexOf;
      s := new byte[NROOTS];
      for i := 0 to NROOTS
        invariant forall k :: 0 <= k < i ==> s[k] == data[at]
      {
        s[i] := data[at];
      }
      assert data[at..at + 1] == [data[at]];
      forall x: byte
        ensures WordValue([data[at]], x) == data[at]
      {
        SingleByteValue(data[at], x);
      }
      for j := 1 to NN - PAD
        invariant TablesReady()
        invariant forall k :: 0 <= k < NROOTS ==> s[k] == WordValue(data[at..at + j], Exp(k))
      {
        ghost var w := data[at..at + j];
        assert data[at..at + j + 1] == w + [data[at + j]];
        for i := 0 to NROOTS
          invariant TablesReady()
          invariant forall k :: 0 <= k < i ==> s[k] == WordValue(w + [data[at + j]], Exp(k))
          invariant forall k :: i <= k < NROOTS ==> s[k] == WordValue(w, Exp(k))
        {
          WordValueSnoc(w, data[at + j], Exp(i));
          MulUnit(Exp(i));
          XorUnits(data[at + j]);
          if s[i] == 0 {
            s[i] := data[at + j];
          } else {
            var m := Modnn(indexOf[s[i]] + i);
            LookupPower(s[i], i);
            XorCommutes(data[at + j], Mul(s[i], Exp(i)));
            s[i] := Xor(data[at + j], alphaTo[m]);
          }
        }
      }
    }

    lemma SingleByteValue(b: byte, x: byte)
      ensures WordValue([b], x) == b
    {
      hide Xor, Mul;
      assert [b][1..] == [] && WordValue([], x) == 0;
      MulUnit(b);
      XorUnits(b);
    }

    /** Converts the syndromes to index form in place and reports whether one is nonzero. */
    method ToIndexForm(s: array<byte>) returns (synError: bool)
      requires TablesReady() && s.Length == NROOTS && s != alphaTo && s != indexOf
      modifies s
      ensures synError <==> !AllZero(old(s[..]))
      ensures forall k :: 0 <= k < NROOTS ==> s[k] == IndexOf(old(s[k]))
    {
      hide IndexOf;
      synError := false;
      for i := 0 to NROOTS
        invariant TablesReady()
        invariant synError <==> exists k :: 0 <= k < i && old(s[..])[k] != 0
        invariant forall k :: 0 <= k < i ==> s[k] == IndexOf(old(s[k]))
        invariant forall k :: i <= k < NROOTS ==> s[k] == old(s[k])
      {
        synError := synError || s[i] != 0;
        s[i] := indexOf[s[i]];
      }
    }

    /** The discrepancy at step r, in polynomial form. */
    method Discrepancy(lambda: array<byte>, s: array<byte>, r: nat, ghost c: seq<byte>, ghost syn: seq<byte>)
      returns (d: byte)
      requires TablesReady() && lambda.Length == NROOTS + 1 && s.Length == NROOTS && 1 <= r <= NROOTS
      requires c == lambda[..] && |syn| == NROOTS && forall k :: 0 <= k < NROOTS ==> s[k] == IndexOf(syn[k])
      ensures d == Conv(c, syn, r - 1)
    {
      hide Exp, Xor, Mul, IndexOf;
      d := 0;
      for i := 0 to r
        invariant d == ConvTo(c, syn, r - 1, i)
      {
        var v := syn[r - i - 1];
        if lambda[i] != 0 && s[r - i - 1] != A0 {
          LookupProduct(c[i], v);
          var m := Modnn(indexOf[lambda[i]] as int + s[r - i - 1]);
          d := Xor(d, alphaTo[m]);
        } else {
          MulUnit(c[i]);
          MulUnit(v);
          XorUnits(d);
        }
      }
    }

    /** T(x) := lambda(x) - discr * x * B(x). */
    method UpdateLocator(lambda: array<byte>, b: array<byte>, t: array<byte>, discr: int, ghost c: seq<byte>,
            ghost bp: seq<byte>, ghost d: byte)
      requires TablesReady() && lambda.Length == b.Length == t.Length == NROOTS + 1
      requires t != lambda && t != b && t != alphaTo && t != indexOf
      requires c == lambda[..] && |bp| == NROOTS + 1 && forall k :: 0 <= k <= NROOTS ==> b[k] == IndexOf(bp[k])
      requires d != 0 && discr == IndexOf(d)
      modifies t
      ensures t[..] == XorWords(c, Scaled(d, Shifted(bp)))
    {
      hide Exp, Xor, Mul, IndexOf;
      ghost var goal := XorWords(c, Scaled(d, Shifted(bp)));
      MulUnit(d);
      XorUnits(c[0]);
      t[0] := lambda[0];
      for i := 0 to NROOTS
        invariant TablesReady()
        invariant forall k :: 0 <= k <= i ==> t[k] == goal[k]
      {
        if b[i] != A0 {
          LookupProduct(d, bp[i]);
          var m := Modnn(discr + b[i]);
          t[i + 1] := Xor(lambda[i + 1], alphaTo[m]);
        } else {
          XorUnits(c[i + 1]);
          t[i + 1] := lambda[i + 1];
        }
      }
    }

    /** B(x) := lambda(x) / discr. */
    method NormaliseLocator(lambda: array<byte>, b: array<byte>, discr: int, ghost c: seq<byte>, ghost d: byte)
      requires TablesReady() && lambda.Length == b.Length == NROOTS + 1
      requires b != lambda && b != alphaTo && b != indexOf
      requires c == lambda[..] && d != 0 && discr == IndexOf(d)
      modifies b
      ensures forall k :: 0 <= k <= NROOTS ==> b[k] == IndexOf(Scaled(Inverse(d), c)[k])
    {
      hide Exp, Xor, Mul, IndexOf, Inverse;
      InverseCancels(d);
      for i := 0 to NROOTS + 1
        invariant TablesReady()
        invariant forall k :: 0 <= k < i ==> b[k] == IndexOf(Scaled(Inverse(d), c)[k])
      {
        if lambda[i] == 0 {
          MulUnit(Inverse(d));
          b[i] := A0;
        } else {
          LookupQuotient(c[i], d);
          var m := Modnn(indexOf[lambda[i]] - discr + NN);
          b[i] := m;
        }
      }
    }

    /** B(x) := x * B(x). */
    method ShiftB(b: array<byte>, ghost bp: seq<byte>)
      requires b.Length == NROOTS + 1 && |bp| == NROOTS + 1 && forall k :: 0 <= k <= NROOTS ==> b[k] == IndexOf(bp[k])
      modifies b
      ensures forall k :: 0 <= k <= NROOTS ==> b[k] == IndexOf(Shifted(bp)[k])
    {
      hide IndexOf;
      forall i | 1 <= i <= NROOTS {
        b[i] := b[i - 1];
      }
      b[0] := A0;
    }

    /** Reads index_of. */
    function Index(b: byte): (i: byte)
      requires TablesReady()
      reads alphaTo, indexOf
      ensures i == IndexOf(b)
    {
      indexOf[b]
    }

    /** lambda(x) := 1 and B(x) := lambda(x). */
    method StartRegister(lambda: array<byte>, b: array<byte>, ghost syn: seq<byte>)
      requires TablesReady() && lambda.Length == b.Length == NROOTS + 1 && |syn| == NROOTS
      requires lambda != b && lambda != alphaTo && lambda != indexOf && b != alphaTo && b != indexOf
      modifies lambda, b
      ensures lambda[..] == Run(syn, 0).lambda && Run(syn, 0).el == 0
      ensures forall k :: 0 <= k <= NROOTS ==> b[k] == IndexOf(Run(syn, 0).b[k])
    {
      hide IndexOf, Run;
      for i := 1 to NROOTS + 1
        invariant TablesReady()
        invariant forall k :: 1 <= k < i ==> lambda[k] == 0
      {
        lambda[i] := 0;
      }
      lambda[0] := 1;
      for i := 0 to NROOTS + 1
        invariant TablesReady() && lambda[0] == 1 && forall k :: 1 <= k <= NROOTS ==> lambda[k] == 0
        invariant forall k :: 0 <= k < i ==> b[k] == IndexOf(lambda[k])
      {
        b[i] := indexOf[lambda[i]];
      }
      RunStart(syn);
    }

    /** Berlekamp-Massey: lambda becomes the locator polynomial in polynomial form. */
    method BerlekampMassey(s: array<byte>, lambda: array<byte>, ghost syn: seq<byte>)
      requires TablesReady() && lambda.Length == NROOTS + 1 && s.Length == NROOTS
      requires lambda != s && lambda != alphaTo && lambda != indexOf
      requires |syn| == NROOTS && forall k :: 0 <= k < NROOTS ==> s[k] == IndexOf(syn[k])
      modifies lambda
      ensures lambda[..] == Run(syn, NROOTS).lambda
    {
      hide Exp, Xor, Mul, IndexOf, Run, Conv, Step, TablesReady;
      var b := new byte[NROOTS + 1];
      var t := new byte[NROOTS + 1];
      StartRegister(lambda, b, syn);
      var el: nat := 0;
      var r: nat := 0;
      while r < NROOTS
        invariant r <= NROOTS && TablesReady()
        invariant forall k :: 0 <= k < NROOTS ==> s[k] == IndexOf(syn[k])
        invariant lambda[..] == Run(syn, r).lambda && el == Run(syn, r).el
        invariant forall k :: 0 <= k <= NROOTS ==> b[k] == IndexOf(Run(syn, r).b[k])
      {
        ghost var g := Run(syn, r);
        r := r + 1;
        RunStep(syn, r);
        LengthBound(syn, r - 1);
        var d := Discrepancy(lambda, s, r, g.lambda, syn);
        var discr: int := Index(d);
        if discr == A0 {
          ShiftB(b, g.b);
        } else {
          el := Revise(lambda, b, t, discr, el, r, g, d);
        }
      }
    }

    /** The step on a nonzero discrepancy. */
    method Revise(lambda: array<byte>, b: array<byte>, t: array<byte>, discr: int, el: nat, r: nat, ghost g: Register,
            ghost d: byte)
      returns (el': nat)
      requires TablesReady() && lambda.Length == b.Length == t.Length == NROOTS + 1 && el <= r
      requires lambda != b && t != lambda && t != b && {lambda, b, t} !! {alphaTo, indexOf}
      requires lambda[..] == g.lambda && |g.b| == NROOTS + 1 && forall k :: 0 <= k <= NROOTS ==> b[k] == IndexOf(g.b[k])
      requires d != 0 && discr == IndexOf(d)
      modifies lambda, b, t
      ensures lambda[..] == XorWords(g.lambda, Scaled(d, Shifted(g.b)))
      ensures el' == if 2 * el <= r - 1 then r - el else el
      ensures forall k :: 0 <= k <= NROOTS ==>
                b[k] == IndexOf((if 2 * el <= r - 1 then Scaled(Inverse(d), g.lambda) else Shifted(g.b))[k])
    {
      hide Exp, Xor, Mul, IndexOf, Inverse, TablesReady;
      el' := el;
      UpdateLocator(lambda, b, t, discr, g.lambda, g.b, d);
      if 2 * el <= r - 1 {
        el' := r - el;
        NormaliseLocator(lambda, b, discr, g.lambda, d);
      } else {
        ShiftB(b, g.b);
      }
      forall i | 0 <= i <= NROOTS {
        lambda[i] := t[i];
      }
      assert lambda[..] == t[..];
    }

    lemma LengthBound(syn: seq<byte>, r: nat)
      requires |syn| == NROOTS && r <= NROOTS
      ensures Run(syn, r).el <= r
    {
      hide Run, Conv;
      RunInvariant(syn, r);
    }

    lemma RunStart(syn: seq<byte>)
      requires |syn| == NROOTS
      ensures Run(syn, 0).el == 0 && Run(syn, 0).lambda == Run(syn, 0).b
      ensures Run(syn, 0).lambda[0] == 1 && forall k :: 1 <= k <= NROOTS ==> Run(syn, 0).lambda[k] == 0
    {
    }

    lemma RunStep(syn: seq<byte>, r: nat)
      requires |syn| == NROOTS && 1 <= r <= NROOTS
      ensures var g := Run(syn, r - 1);
              var d := Conv(g.lambda, syn, r - 1);
              var t := XorWords(g.lambda, Scaled(d, Shifted(g.b)));
              Run(syn, r) == if d == 0 then Register(g.lambda, Shifted(g.b), g.el)
                             else if 2 * g.el <= r - 1 then Register(t, Scaled(Inverse(d), g.lambda), r - g.el)
                             else Register(t, Shifted(g.b), g.el)
    {
      hide Conv, Scaled;
    }

    /** Converts the locator to index form in place and computes its degree. */
    method LocatorToIndexForm(lambda: array<byte>) returns (degLambda: nat)
      requires TablesReady() && lambda.Length == NROOTS + 1 && lambda != alphaTo && lambda != indexOf
      modifies lambda
      ensures forall k :: 0 <= k <= NROOTS ==> lambda[k] == IndexOf(old(lambda[k]))
      ensures degLambda == Degree(old(lambda[..]), NROOTS)
    {
      hide IndexOf;
      ghost var c := lambda[..];
      degLambda := 0;
      for i := 0 to NROOTS + 1
        invariant TablesReady()
        invariant forall k :: 0 <= k < i ==> lambda[k] == IndexOf(c[k])
        invariant forall k :: i <= k <= NROOTS ==> lambda[k] == c[k]
        invariant degLambda == if i == 0 then 0 else Degree(c, i - 1)
      {
        lambda[i] := indexOf[lambda[i]];
        if lambda[i] != A0 {
          degLambda := i;
        }
      }
    }

    /** One evaluation of the Chien search: steps every register and sums, deg down to 1. */
    method ChienStep(reg: array<byte>, degLambda: nat, ghost c: seq<byte>, i: nat) returns (q: byte)
      requires TablesReady() && reg.Length == NROOTS + 1 && reg != alphaTo && reg != indexOf && 1 <= i <= NN
      requires |c| == NROOTS + 1 && c[0] == 1 && degLambda <= NROOTS && DegreeAtMost(c, degLambda)
      requires forall j :: 1 <= j <= degLambda ==> reg[j] == IndexOf(Mul(c[j], Pow(Exp(i - 1), j)))
      modifies reg
      ensures forall j :: 1 <= j <= degLambda ==> reg[j] == IndexOf(Mul(c[j], Pow(Exp(i), j)))
      ensures q == Eval(c, Exp(i))
    {
      hide Exp, Xor, Mul, IndexOf, Pow, Eval, EvalFrom;
      ghost var y := Exp(i);
      q := 1;
      EvalFromZeros(c, y, degLambda + 1);
      XorUnits(1);
      var j := degLambda;
      while j > 0
        invariant 0 <= j <= degLambda && TablesReady()
        invariant q == Xor(1, EvalFrom(c, y, j + 1))
        invariant forall k :: 1 <= k <= j ==> reg[k] == IndexOf(Mul(c[k], Pow(Exp(i - 1), k)))
        invariant forall k :: j < k <= degLambda ==> reg[k] == IndexOf(Mul(c[k], Pow(y, k)))
      {
        EvalFromUnfold(c, y, j);
        ChienTerm(c[j], i, j);
        ghost var term := Mul(c[j], Pow(y, j));
        XorAssociates(1, EvalFrom(c, y, j + 1), term);
        XorCommutes(EvalFrom(c, y, j + 1), term);
        XorUnits(EvalFrom(c, y, j + 1));
        if reg[j] != A0 {
          reg[j] := StepRegister(reg[j], j);
          q := Xor(q, alphaTo[reg[j]]);
        }
        j := j - 1;
      }
      EvalFromUnfold(c, y, 0);
      EvalFromIsEval(c, y, 0);
      assert c[0..] == c;
      PowZero(y);
      MulUnit(1);
      MulUnit(Eval(c, y));
    }

    method StepRegister(v: byte, j: nat) returns (m: byte)
      requires v < A0 && j <= NROOTS
      ensures m == ModNn(v as int + j) && m < NN
    {
      m := Modnn(v as int + j);
    }

    lemma PowZero(y: byte)
      ensures Pow(y, 0) == 1
    {
    }

    lemma EvalFromUnfold(c: seq<byte>, y: byte, k: nat)
      requires k < |c|
      ensures EvalFrom(c, y, k) == Xor(Mul(c[k], Pow(y, k)), EvalFrom(c, y, k + 1))
    {
      hide Mul, Xor, Pow;
    }

    /** Stepping a register by j multiplies its content by the j-th power of x. */
    lemma ChienTerm(v: byte, i: nat, j: nat)
      requires 1 <= i <= NN && j <= NROOTS
      ensures v == 0 ==> Mul(v, Pow(Exp(i - 1), j)) == 0 == Mul(v, Pow(Exp(i), j))
      ensures v != 0 ==> Mul(v, Pow(Exp(i - 1), j)) != 0
      ensures v != 0 ==> ModNn(IndexOf(Mul(v, Pow(Exp(i - 1), j))) + j) == IndexOf(Mul(v, Pow(Exp(i), j)))
      ensures v != 0 ==> Exp(ModNn(IndexOf(Mul(v, Pow(Exp(i - 1), j))) + j)) == Mul(v, Pow(Exp(i), j))
    {
      hide Exp, Mul, Pow, IndexOf, ModNn;
      PowExp(i - 1, j);
      PowExp(i, j);
      ProductStep(i, j);
      StepTerm(v, (i - 1) * j, j);
    }

    lemma ProductStep(i: nat, j: nat)
      requires i >= 1
      ensures (i - 1) * j >= 0 && (i - 1) * j + j == i * j
    {
    }

    lemma StepTerm(v: byte, e: nat, j: nat)
      requires j <= NROOTS
      ensures v == 0 ==> Mul(v, Exp(e)) == 0 == Mul(v, Exp(e + j))
      ensures v != 0 ==> Mul(v, Exp(e)) != 0
      ensures v != 0 ==> ModNn(IndexOf(Mul(v, Exp(e))) + j) == IndexOf(Mul(v, Exp(e + j)))
      ensures v != 0 ==> Exp(ModNn(IndexOf(Mul(v, Exp(e))) + j)) == Mul(v, Exp(e + j))
    {
      hide Exp, Mul;
      ExpNonzero(e);
      MulNonzero(v, Exp(e));
      MulUnit(Exp(e));
      MulUnit(Exp(e + j));
      if v != 0 {
        var u := Mul(v, Exp(e));
        LookupPower(u, j);
        MulAssociates(v, Exp(e), Exp(j));
        MulExp(e, j);
        LogExp(ModNn(Log(u) + j));
      }
    }

    /** The terms of the locator polynomial at the first point, in index form. */
    method LoadRegister(lambda: array<byte>, degLambda: nat, ghost c: seq<byte>) returns (reg: array<byte>)
      requires lambda.Length == NROOTS + 1 && |c| == NROOTS + 1 && degLambda <= NROOTS
      requires forall k :: 0 <= k <= NROOTS ==> lambda[k] == IndexOf(c[k])
      ensures fresh(reg) && reg.Length == NROOTS + 1
      ensures forall j :: 1 <= j <= degLambda ==> reg[j] == IndexOf(Mul(c[j], Pow(Exp(0), j)))
    {
      hide Exp, Mul, IndexOf, Pow;
      reg := new byte[NROOTS + 1];
      forall i | 1 <= i <= NROOTS {
        reg[i] := lambda[i];
      }
      ExpStep(0);
      forall j | 1 <= j <= degLambda
        ensures reg[j] == IndexOf(Mul(c[j], Pow(Exp(0), j)))
      {
        PowExp(0, j);
        MulUnit(c[j]);
      }
    }

    /** Once there are as many roots as the degree allows, there are no others. */
    lemma AllFound(c: seq<byte>, i: nat, deg: nat)
      requires |c| == NROOTS + 1 && c[0] == 1 && deg <= NROOTS && DegreeAtMost(c, deg) && i <= NN
      requires |RootsTo(c, i)| == deg
      ensures RootsTo(c, NN) == RootsTo(c, i)
    {
      hide Exp, Eval, RootsTo, DegreeAtMost;
      RootsPrefix(c, i, NN);
      RootsAtMostDegree(c, NN, deg);
    }

    /** Chien search: root exponents and locations, in the order found, stopping at the degree. */
    method ChienSearch(lambda: array<byte>, degLambda: nat, root: array<nat>, loc: array<int>, ghost c: seq<byte>)
      returns (count: nat)
      requires TablesReady() && lambda.Length == NROOTS + 1 && root.Length == NROOTS && loc.Length == NROOTS
      requires |c| == NROOTS + 1 && c[0] == 1 && degLambda <= NROOTS && DegreeAtMost(c, degLambda)
      requires forall k :: 0 <= k <= NROOTS ==> lambda[k] == IndexOf(c[k])
      requires lambda != alphaTo && lambda != indexOf
      requires root as object != lambda && loc as object != lambda && root as object != loc
      requires root as object != alphaTo && root as object != indexOf && loc as object != alphaTo
      requires loc as object != indexOf
      modifies root, loc
      ensures count == |RootsTo(c, NN)| <= degLambda
      ensures forall k :: 0 <= k < count ==> root[k] == RootsTo(c, NN)[k] && loc[k] == root[k] - 1
    {
      hide Exp, Xor, Mul, IndexOf, Pow, Eval, RootsTo, TablesReady, DegreeAtMost;
      var reg := LoadRegister(lambda, degLambda, c);
      count := 0;
      var k: int := 0;
      var i := 1;
      RootsStart(c);
      while i <= NN
        invariant 1 <= i <= NN + 1 && TablesReady()
        invariant i <= NN ==> k == i - 1
        invariant forall j :: 1 <= j <= degLambda ==> reg[j] == IndexOf(Mul(c[j], Pow(Exp(i - 1), j)))
        invariant count == |RootsTo(c, i - 1)| <= degLambda
        invariant forall l :: 0 <= l < count ==> root[l] == RootsTo(c, i - 1)[l] && loc[l] == root[l] - 1
      {
        var q := ChienStep(reg, degLambda, c, i);
        RootsNext(c, i);
        RootsAtMostDegree(c, i, degLambda);
        if q == 0 {
          root[count] := i;
          loc[count] := k;
          count := count + 1;
          if count == degLambda {
            AllFound(c, i, degLambda);
            break;
          }
        }
        i := i + 1;
        k := Modnn(k + 1);
      }
    }

    lemma RootsStart(c: seq<byte>)
      ensures RootsTo(c, 0) == []
    {
    }

    lemma RootsNext(c: seq<byte>, n: nat)
      requires n > 0
      ensures RootsTo(c, n) == RootsTo(c, n - 1) + (if Eval(c, Exp(n)) == 0 then [n] else [])
    {
    }

    lemma {:induction false} RootsPrefix(c: seq<byte>, m: nat, n: nat)
      requires m <= n
      ensures RootsTo(c, m) <= RootsTo(c, n)
      decreases n - m
    {
      hide Eval, Exp;
      if m < n {
        RootsPrefix(c, m, n - 1);
        RootsNext(c, n);
      }
    }

    /** The evaluator polynomial, in index form. */
    method FormOmega(s: array<byte>, lambda: array<byte>, omega: array<byte>, degLambda: nat, ghost c: seq<byte>,
            ghost syn: seq<byte>)
      requires TablesReady() && lambda.Length == omega.Length == NROOTS + 1 && s.Length == NROOTS && degLambda <= NROOTS
      requires omega != s && omega != lambda && omega != alphaTo && omega != indexOf
      requires |c| == NROOTS + 1 && |syn| == NROOTS
      requires forall k :: 0 <= k <= NROOTS ==> lambda[k] == IndexOf(c[k])
      requires forall k :: 0 <= k < NROOTS ==> s[k] == IndexOf(syn[k])
      modifies omega
      ensures forall i :: 0 <= i < degLambda ==> omega[i] == IndexOf(Conv(c, syn, i))
    {
      hide Exp, Xor, Mul, IndexOf, ConvTo;
      for i := 0 to degLambda
        invariant TablesReady()
        invariant forall k :: 0 <= k < i ==> omega[k] == IndexOf(Conv(c, syn, k))
      {
        var tmp: byte := 0;
        XorUnits(Conv(c, syn, i));
        var j: int := i;
        while j >= 0
          invariant -1 <= j <= i && TablesReady()
          invariant forall k :: 0 <= k < i ==> omega[k] == IndexOf(Conv(c, syn, k))
          invariant Xor(tmp, ConvTo(c, syn, i, j + 1)) == Conv(c, syn, i)
        {
          ConvUnfold(c, syn, i, j + 1);
          ghost var term := Mul(c[j], syn[i - j]);
          ghost var low := ConvTo(c, syn, i, j);
          XorCommutes(low, term);
          XorAssociates(tmp, term, low);
          if s[i - j] != A0 && lambda[j] != A0 {
            LookupProduct(syn[i - j], c[j]);
            MulCommutes(syn[i - j], c[j]);
            var m := Modnn(s[i - j] as int + lambda[j]);
            tmp := Xor(tmp, alphaTo[m]);
          } else {
            MulUnit(c[j]);
            MulUnit(syn[i - j]);
            XorUnits(low);
          }
          j := j - 1;
        }
        ConvEmpty(c, syn, i);
        XorUnits(tmp);
        omega[i] := indexOf[tmp];
      }
    }

    lemma ConvUnfold(c: seq<byte>, s: seq<byte>, n: nat, k: nat)
      requires n < |s| && 0 < k <= n + 1 && k <= |c|
      ensures ConvTo(c, s, n, k) == Xor(ConvTo(c, s, n, k - 1), Mul(c[k - 1], s[n - (k - 1)]))
    {
      hide Mul, Xor;
    }

    lemma ConvEmpty(c: seq<byte>, s: seq<byte>, n: nat)
      requires n < |s|
      ensures ConvTo(c, s, n, 0) == 0
    {
    }

    lemma NumeratorUnfold(c: seq<byte>, s: seq<byte>, deg: nat, root: nat, i: nat, shift: nat)
      requires |c| == NROOTS + 1 && |s| == NROOTS && i < deg <= NROOTS && shift == i * root
      ensures NumeratorCode(c, s, deg, root, deg) == 0
      ensures NumeratorCode(c, s, deg, root, i) ==
              if IndexOf(Conv(c, s, i)) == A0 then NumeratorCode(c, s, deg, root, i + 1)
              else Xor(NumeratorCode(c, s, deg, root, i + 1), Exp(ModNn(IndexOf(Conv(c, s, i)) + shift)))
    {
      hide Exp, Xor, Conv;
    }

    lemma DenominatorUnfold(c: seq<byte>, deg: nat, root: nat, i: nat, shift: nat)
      requires |c| == NROOTS + 1 && deg <= NROOTS && i % 2 == 0 && i <= DenominatorTop(deg) && shift == i * root
      ensures DenominatorCode(c, deg, root, DenominatorTop(deg) + 2) == 0
      ensures DenominatorCode(c, deg, root, i) ==
              if IndexOf(c[i + 1]) == A0 then DenominatorCode(c, deg, root, i + 2)
              else Xor(DenominatorCode(c, deg, root, i + 2), Exp(ModNn(IndexOf(c[i + 1]) + shift)))
    {
      hide Exp, Xor;
    }

    /** num1: the evaluator polynomial at the root, from its highest coefficient down. */
    method Numerator(omega: array<byte>, degLambda: nat, root: nat, ghost c: seq<byte>, ghost syn: seq<byte>)
      returns (num1: byte)
      requires TablesReady() && omega.Length == NROOTS + 1 && degLambda <= NROOTS && 1 <= root <= NN
      requires |c| == NROOTS + 1 && |syn| == NROOTS
      requires forall k :: 0 <= k < degLambda ==> omega[k] == IndexOf(Conv(c, syn, k))
      ensures num1 == NumeratorCode(c, syn, degLambda, root, 0)
    {
      hide Exp, Xor, Conv, NumeratorCode, IndexOf, ModNn;
      num1 := 0;
      if degLambda > 0 {
        NumeratorUnfold(c, syn, degLambda, root, 0, 0);
      } else {
        NoNumerator(c, syn, root);
      }
      var i: int := degLambda as int - 1;
      while i >= 0
        invariant -1 <= i < degLambda
        invariant num1 == NumeratorCode(c, syn, degLambda, root, i + 1)
      {
        NumeratorUnfold(c, syn, degLambda, root, i, i * root);
        if omega[i] != A0 {
          var m := Modnn(omega[i] as int + i * root);
          TermNonnegative(omega[i], i, root);
          num1 := Xor(num1, alphaTo[m]);
        }
        i := i - 1;
      }
    }

    lemma NoNumerator(c: seq<byte>, s: seq<byte>, root: nat)
      requires |c| == NROOTS + 1 && |s| == NROOTS
      ensures NumeratorCode(c, s, 0, root, 0) == 0
    {
    }

    lemma TermNonnegative(b: byte, i: nat, root: nat)
      ensures 0 <= ModNn(b as int + i * root) < NN
    {
      assert i * root >= 0;
    }

    /** den: the formal derivative of the locator at the root, over its odd coefficients. */
    method Denominator(lambda: array<byte>, degLambda: nat, root: nat, ghost c: seq<byte>) returns (den: byte)
      requires TablesReady() && lambda.Length == NROOTS + 1 && degLambda <= NROOTS && 1 <= root <= NN
      requires |c| == NROOTS + 1 && forall k :: 0 <= k <= NROOTS ==> lambda[k] == IndexOf(c[k])
      ensures den == DenominatorCode(c, degLambda, root, 0)
    {
      hide Exp, Xor, DenominatorCode, IndexOf, ModNn;
      den := 0;
      DenominatorUnfold(c, degLambda, root, 0, 0);
      var m0 := if degLambda < NROOTS - 1 then degLambda else NROOTS - 1;
      var i: int := m0 - m0 % 2;
      while i >= 0
        invariant i % 2 == 0 && -2 <= i <= DenominatorTop(degLambda)
        invariant den == DenominatorCode(c, degLambda, root, i + 2)
        decreases i + 2
      {
        DenominatorUnfold(c, degLambda, root, i, i * root);
        if lambda[i + 1] != A0 {
          var m := Modnn(lambda[i + 1] as int + i * root);
          TermNonnegative(lambda[i + 1], i, root);
          den := Xor(den, alphaTo[m]);
        }
        i := i - 2;
      }
    }

    /** The correction at one root: numerator, root power and denominator combined by one last lookup. */
    method ErrorValue(omega: array<byte>, lambda: array<byte>, degLambda: nat, root: nat, ghost c: seq<byte>,
            ghost syn: seq<byte>) returns (num1: byte, v: byte)
      requires TablesReady() && lambda.Length == omega.Length == NROOTS + 1 && degLambda <= NROOTS && 1 <= root <= NN
      requires |c| == NROOTS + 1 && |syn| == NROOTS
      requires forall k :: 0 <= k <= NROOTS ==> lambda[k] == IndexOf(c[k])
      requires forall k :: 0 <= k < degLambda ==> omega[k] == IndexOf(Conv(c, syn, k))
      ensures Correction(c, syn, degLambda, root) == if num1 == 0 then 0 else v
    {
      hide Exp, Xor, Conv, NumeratorCode, DenominatorCode, IndexOf, ModNn;
      num1 := Numerator(omega, degLambda, root, c, syn);
      var m2 := Modnn(root as int * (0 - 1) + NN);
      var num2 := alphaTo[m2];
      var den := Denominator(lambda, degLambda, root, c);
      var m3 := Modnn(indexOf[num1] as int + indexOf[num2] as int + NN - indexOf[den] as int);
      v := alphaTo[m3];
    }

    /** Everything after the syndromes have been found not to be all zero. */
    method Repair(data: array<byte>, at: nat, s: array<byte>, erasPos: array?<int>, ghost syn: seq<byte>,
            ghost w: seq<byte>) returns (count: int)
      requires TablesReady() && at + CODE_LENGTH <= data.Length && s.Length == NROOTS == |syn|
      requires data != alphaTo && data != indexOf && s != data && s != alphaTo && s != indexOf
      requires erasPos != null ==> erasPos.Length >= NROOTS
      requires || erasPos == null
               || (erasPos as object != data && erasPos as object != alphaTo && erasPos as object != indexOf)
      requires w == data[at..at + CODE_LENGTH] && syn == WordSyndromes(w) && !AllZero(syn)
      requires forall k :: 0 <= k < NROOTS ==> s[k] == IndexOf(syn[k])
      modifies data, if erasPos == null then {} else {erasPos as object}
      ensures TablesReady() && data[at..at + CODE_LENGTH] == Decoded(w).word
      ensures forall p :: 0 <= p < at || at + CODE_LENGTH <= p < data.Length ==> data[p] == old(data[p])
      ensures count == Decoded(w).count <= |Decoded(w).roots|
      ensures erasPos != null ==> forall k :: 0 <= k < count ==> erasPos[k] == Decoded(w).roots[k] - 1
    {
      hide Exp, Xor, Mul, IndexOf, Run, RootsTo, WordSyndromes, Correction, Patched, Decoded, Conv, Degree;
      hide TablesReady, DegreeAtMost;
      ghost var c := Run(syn, NROOTS).lambda;
      ghost var deg := Degree(c, NROOTS);
      DecodedCases(w, syn, c, deg);
      LocatorShape(syn, c);
      var lambda := new byte[NROOTS + 1];
      BerlekampMassey(s, lambda, syn);
      var degLambda := LocatorToIndexForm(lambda);
      var root := new nat[NROOTS];
      var loc := new int[NROOTS];
      count := ChienSearch(lambda, degLambda, root, loc, c);
      if degLambda != count {
        return -1;
      }
      var omega := new byte[NROOTS + 1];
      FormOmega(s, lambda, omega, degLambda, c, syn);
      PatchAll(data, at, omega, lambda, degLambda, root, loc, c, syn, w);
      if erasPos != null {
        ReportPositions(loc, count, erasPos);
      }
    }

    /** rs_decode with no erasures. The received word starts at data[at]. */
    method RsDecode(data: array<byte>, at: nat, erasPos: array?<int>) returns (count: int)
      requires TablesReady() && at + CODE_LENGTH <= data.Length
      requires data != alphaTo && data != indexOf
      requires erasPos != null ==> erasPos.Length >= NROOTS
      requires || erasPos == null
               || (erasPos as object != data && erasPos as object != alphaTo && erasPos as object != indexOf)
      modifies data, if erasPos == null then {} else {erasPos as object}
      ensures TablesReady()
      ensures data[at..at + CODE_LENGTH] == Decoded(old(data[at..at + CODE_LENGTH])).word
      ensures forall p :: 0 <= p < at || at + CODE_LENGTH <= p < data.Length ==> data[p] == old(data[p])
      ensures count == Decoded(old(data[at..at + CODE_LENGTH])).count
      ensures count <= |Decoded(old(data[at..at + CODE_LENGTH])).roots|
      ensures erasPos != null ==> forall k :: 0 <= k < count ==>
                erasPos[k] == Decoded(old(data[at..at + CODE_LENGTH])).roots[k] - 1
    {
      hide Exp, Xor, Mul, IndexOf, Run, RootsTo, WordSyndromes, Correction, Patched, Decoded, Conv, Degree;
      hide TablesReady, DegreeAtMost;
      ghost var w := data[at..at + CODE_LENGTH];
      var s := FormSyndromes(data, at);
      ghost var syn := s[..];
      DecodedCases(w, syn, Run(syn, NROOTS).lambda, Degree(Run(syn, NROOTS).lambda, NROOTS));
      var synError := ToIndexForm(s);
      if !synError {
        return 0;
      }
      count := Repair(data, at, s, erasPos, syn, w);
    }

    method ReportPositions(loc: array<int>, count: nat, erasPos: array<int>)
      requires count <= loc.Length && count <= erasPos.Length && loc != erasPos
      modifies erasPos
      ensures forall k :: 0 <= k < count ==> erasPos[k] == loc[k]
    {
      for i := 0 to count
        invariant forall k :: 0 <= k < i ==> erasPos[k] == loc[k]
      {
        erasPos[i] := loc[i];
      }
    }

    lemma LocatorShape(syn: seq<byte>, c: seq<byte>)
      requires |syn| == NROOTS && c == Run(syn, NROOTS).lambda
      ensures |c| == NROOTS + 1 && c[0] == 1 && DegreeAtMost(c, Degree(c, NROOTS))
    {
      hide Run, Conv;
      RunInvariant(syn, NROOTS);
    }

    lemma DecodedCases(w: seq<byte>, s: seq<byte>, c: seq<byte>, deg: nat)
      requires |w| == CODE_LENGTH && s == WordSyndromes(w) && c == Run(s, NROOTS).lambda && deg == Degree(c, NROOTS)
      ensures Decoded(w) == if AllZero(s) then Outcome(0, [], w)
                            else if |RootsTo(c, NN)| != deg then Outcome(-1, RootsTo(c, NN), w)
                            else Outcome(deg, RootsTo(c, NN), Patched(w, c, s, deg, RootsTo(c, NN)))
    {
      hide Exp, Run, RootsTo, WordSyndromes, Correction, Patched, Degree;
    }

    /** The patch at one root. */
    method PatchOne(data: array<byte>, at: nat, num1: byte, v: byte, loc: int, ghost fix: byte)
      requires at + CODE_LENGTH <= data.Length && 0 <= loc < NN && fix == if num1 == 0 then 0 else v
      modifies data
      ensures data[at..at + CODE_LENGTH] == FixedAt(old(data[at..at + CODE_LENGTH]), loc, fix)
      ensures forall p :: 0 <= p < at || at + CODE_LENGTH <= p < data.Length ==> data[p] == old(data[p])
    {
      hide Xor;
      if loc >= PAD {
        XorUnits(data[at + (loc - PAD)]);
      }
      if num1 != 0 && loc >= PAD {
        data[at + (loc - PAD)] := Xor(data[at + (loc - PAD)], v);
      }
    }

    ghost function FixedAt(w: seq<byte>, loc: int, fix: byte): seq<byte>
      requires |w| == CODE_LENGTH && 0 <= loc < NN
    {
      if loc >= PAD then w[loc - PAD := Xor(w[loc - PAD], fix)] else w
    }

    lemma PatchedOneMore(w: seq<byte>, c: seq<byte>, s: seq<byte>, deg: nat, roots: seq<nat>, r: nat)
      requires |w| == CODE_LENGTH && |c| == NROOTS + 1 && |s| == NROOTS && deg <= NROOTS
      requires r !in roots && 1 <= r <= NN
      ensures Patched(w, c, s, deg, [r] + roots)
           == FixedAt(Patched(w, c, s, deg, roots), r - 1, Correction(c, s, deg, r))
    {
      hide Xor, Correction;
      var p1 := Patched(w, c, s, deg, [r] + roots);
      var p2 := FixedAt(Patched(w, c, s, deg, roots), r - 1, Correction(c, s, deg, r));
      forall p | 0 <= p < CODE_LENGTH
        ensures p1[p] == p2[p]
      {
        assert RootOf(p) in [r] + roots <==> RootOf(p) == r || RootOf(p) in roots;
      }
    }

    lemma PatchedNone(w: seq<byte>, c: seq<byte>, s: seq<byte>, deg: nat)
      requires |w| == CODE_LENGTH && |c| == NROOTS + 1 && |s| == NROOTS && deg <= NROOTS
      ensures Patched(w, c, s, deg, []) == w
    {
      hide Xor, Correction;
    }

    /** Applies every correction, last root first. */
    method PatchAll(data: array<byte>, at: nat, omega: array<byte>, lambda: array<byte>, count: nat,
            root: array<nat>, loc: array<int>,
                    ghost c: seq<byte>, ghost syn: seq<byte>, ghost w: seq<byte>)
      requires TablesReady() && at + CODE_LENGTH <= data.Length && w == data[at..at + CODE_LENGTH]
      requires data != alphaTo && data != indexOf && data != omega && data != lambda
      requires data as object != root && data as object != loc
      requires lambda.Length == omega.Length == NROOTS + 1 && root.Length == loc.Length == NROOTS
      requires |c| == NROOTS + 1 && |syn| == NROOTS && count == |RootsTo(c, NN)| <= NROOTS
      requires forall k :: 0 <= k <= NROOTS ==> lambda[k] == IndexOf(c[k])
      requires forall k :: 0 <= k < count ==> omega[k] == IndexOf(Conv(c, syn, k))
      requires forall k :: 0 <= k < count ==> root[k] == RootsTo(c, NN)[k] && loc[k] == root[k] - 1
      modifies data
      ensures data[at..at + CODE_LENGTH] == Patched(w, c, syn, count, RootsTo(c, NN))
      ensures forall p :: 0 <= p < at || at + CODE_LENGTH <= p < data.Length ==> data[p] == old(data[p])
    {
      hide Exp, Xor, Mul, IndexOf, Conv, Correction, RootsTo, Patched, FixedAt, TablesReady;
      ghost var roots := RootsTo(c, NN);
      var j: int := count as int - 1;
      assert roots[count..] == [];
      PatchedNone(w, c, syn, count);
      while j >= 0
        invariant -1 <= j < count && TablesReady()
        invariant data[at..at + CODE_LENGTH] == Patched(w, c, syn, count, roots[j + 1..])
        invariant forall p :: 0 <= p < at || at + CODE_LENGTH <= p < data.Length ==> data[p] == old(data[p])
      {
        assert roots[j..] == [roots[j]] + roots[j + 1..];
        PatchedOneMore(w, c, syn, count, roots[j + 1..], roots[j]);
        var num1, v := ErrorValue(omega, lambda, count, root[j], c, syn);
        PatchOne(data, at, num1, v, loc[j], Correction(c, syn, count, root[j]));
        j := j - 1;
      }
      assert roots[0..] == roots;
    }
  }
}
