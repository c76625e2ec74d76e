/**
 CRC-8 of the serial link: the bit loop, and the same check as arithmetic on polynomials over
 GF(2), where the generator is x^8 + x^2 + x + 1 and the initial value is zero.
 */
module Crc8 {
  import opened Octets

  // ----- the program -----

  /** One turn of the inner loop. */
  function Shift(crc: Octet): Octet {
    if crc.b7 then crc.ShiftLeft().Xor(X07) else crc.ShiftLeft()
  }

  function ShiftN(crc: Octet, n: nat): Octet {
    if n == 0 then crc else Shift(ShiftN(crc, n - 1))
  }

  /** The register after all of `data`. */
  function Crc(data: seq<Octet>): Octet {
    if data == [] then ZERO else ShiftN(Crc(data[..|data| - 1]).Xor(data[|data| - 1]), 8)
  }

  method ComputeCrc8(data: seq<Octet>) returns (crc: Octet)
    ensures crc == Crc(data)
  {
    crc := ZERO;
    for i := 0 to |data|
      invariant crc == Crc(data[..i])
    {
      assert data[..i + 1][..i] == data[..i];
      crc := crc.Xor(data[i]);
      ghost var start := crc;
      for j := 0 to 8
        invariant crc == ShiftN(start, j)
      {
        crc := if crc.b7 then crc.ShiftLeft().Xor(X07) else crc.ShiftLeft();
      }
    }
    assert data[..|data|] == data;
  }

  lemma ShiftFour(c: Octet)
    requires !c.b7 && !c.b6 && !c.b5 && !c.b4
    ensures ShiftN(c, 4) == Octet(c.b3, c.b2, c.b1, c.b0, false, false, false, false)
  {
    assert ShiftN(c, 1) == c.ShiftLeft();
    assert ShiftN(c, 2) == c.ShiftLeft().ShiftLeft();
    assert ShiftN(c, 3) == c.ShiftLeft().ShiftLeft().ShiftLeft();
  }

  lemma {:induction false} ShiftMore(c: Octet, m: nat, n: nat)
    ensures ShiftN(c, m + n) == ShiftN(ShiftN(c, m), n)
  {
    if n > 0 {
      ShiftMore(c, m, n - 1);
    }
  }

  lemma ShiftOne()
    ensures ShiftN(OfNat(1), 8) == OfNat(7)
  {
    Constants();
    var one, middle := OfNat(1), OfNat(16);
    assert ShiftN(one, 4) == middle by { ShiftFour(one); }
    assert ShiftN(middle, 3) == OfNat(128) by {
      assert ShiftN(middle, 1) == OfNat(32);
      assert ShiftN(middle, 2) == OfNat(64);
    }
    assert ShiftN(middle, 4) == Shift(OfNat(128)) == X07;
    ShiftMore(one, 4, 4);
  }

  lemma XorFromZero(o: Octet)
    ensures ZERO.Xor(o) == o
  {
  }

  /** The generator by its value: x^8 leaves the remainder x^2 + x + 1, and no bytes leave zero. */
  lemma CrcOfOne()
    ensures Crc([]).Value() == 0 && Crc([OfNat(1)]).Value() == 7
  {
    hide ShiftN, OfNat, Octet.Value, Octet.Xor;
    OfNatValue(0);
    OfNatValue(7);
    Constants();
    ShiftOne();
    var one := OfNat(1);
    XorFromZero(one);
    assert [one][..0] == [];
    assert Crc([one]) == ShiftN(Crc([]).Xor(one), 8);
  }

  // ----- linearity -----

  function XorBytes(a: seq<Octet>, b: seq<Octet>): (r: seq<Octet>)
    requires |a| == |b|
    ensures |r| == |a|
  {
    seq(|a|, i requires 0 <= i < |a| => a[i].Xor(b[i]))
  }

  /** Shift without the branch: the bit shifted out is added at x^2, x and 1. */
  lemma ShiftBits(c: Octet)
    ensures Shift(c) == Octet(c.b6, c.b5, c.b4, c.b3, c.b2, c.b1 != c.b7, c.b0 != c.b7, c.b7)
  {
  }

  lemma ShiftLinear(a: Octet, b: Octet)
    ensures Shift(a.Xor(b)) == Shift(a).Xor(Shift(b))
  {
    hide Shift;
    ShiftBits(a);
    ShiftBits(b);
    ShiftBits(a.Xor(b));
  }

  lemma {:induction false} ShiftNLinear(a: Octet, b: Octet, n: nat)
    ensures ShiftN(a.Xor(b), n) == ShiftN(a, n).Xor(ShiftN(b, n))
  {
    hide Shift, Octet.Xor;
    if n > 0 {
      ShiftNLinear(a, b, n - 1);
      ShiftLinear(ShiftN(a, n - 1), ShiftN(b, n - 1));
    } else {
    }
  }

  lemma XorSwap(p: Octet, q: Octet, r: Octet, s: Octet)
    ensures p.Xor(q).Xor(r.Xor(s)) == p.Xor(r).Xor(q.Xor(s))
  {
  }

  lemma XorZero()
    ensures ZERO.Xor(ZERO) == ZERO
  {
  }

  /** The CRC of a bytewise XOR is the XOR of the CRCs. */
  lemma {:induction false} CrcLinear(a: seq<Octet>, b: seq<Octet>)
    requires |a| == |b|
    ensures Crc(XorBytes(a, b)) == Crc(a).Xor(Crc(b))
  {
    hide ShiftN, Octet.Xor;
    if a == [] {
      XorZero();
    } else {
      var n := |a| - 1;
      assert XorBytes(a, b)[..n] == XorBytes(a[..n], b[..n]);
      CrcLinear(a[..n], b[..n]);
      XorSwap(Crc(a[..n]), Crc(b[..n]), a[n], b[n]);
      ShiftNLinear(Crc(a[..n]).Xor(a[n]), Crc(b[..n]).Xor(b[n]), 8);
    }
  }

  // ----- polynomials over GF(2), highest power first -----

  type Poly = seq<bool>

  const GENERATOR: Poly := [true, false, false, false, false, false, true, true, true]

  function Coefficient(p: Poly, k: int): bool {
    0 <= k < |p| && p[k]
  }

  /** The sum over i < j of g[i] * q[k - i]. */
  function ProductTerms(q: Poly, g: Poly, k: int, j: nat): bool
    requires j <= |g|
  {
    if j == 0 then false
    else ProductTerms(q, g, k, j - 1) != (g[j - 1] && Coefficient(q, k - (j - 1)))
  }

  /** Multiplication: convolution of the coefficients. */
  function Mul(q: Poly, g: Poly): (r: Poly)
    requires g != []
    ensures |r| == |q| + |g| - 1
  {
    seq(|q| + |g| - 1, k requires 0 <= k < |q| + |g| - 1 => ProductTerms(q, g, k, |g|))
  }

  /** `w` is a multiple of the generator. */
  ghost predicate Divisible(w: Poly) {
    exists q: Poly :: Mul(q, GENERATOR) == w
  }

  function Xor(a: Poly, b: Poly): (r: Poly)
    requires |a| == |b|
    ensures |r| == |a|
  {
    seq(|a|, i requires 0 <= i < |a| => a[i] != b[i])
  }

  function Bits(data: seq<Octet>): (r: Poly)
    ensures |r| == 8 * |data|
  {
    if data == [] then [] else Bits(data[..|data| - 1]) + data[|data| - 1].Bits()
  }

  /** M(x) * x^8 + R(x): the covered bytes followed by the check byte. */
  function Word(data: seq<Octet>, crc: Octet): (w: Poly)
    ensures |w| == 8 * |data| + 8
  {
    Bits(data) + crc.Bits()
  }

  /** Coefficient k of q * (x^8 + x^2 + x + 1). */
  function Taps(q: Poly, k: int): bool {
    ((Coefficient(q, k) != Coefficient(q, k - 6)) != Coefficient(q, k - 7)) != Coefficient(q, k - 8)
  }

  lemma GeneratorTerms(q: Poly, k: int)
    ensures ProductTerms(q, GENERATOR, k, 9) == Taps(q, k)
  {
    var g := GENERATOR;
    assert ProductTerms(q, g, k, 1) == Coefficient(q, k);
    assert ProductTerms(q, g, k, 3) == Coefficient(q, k);
    assert ProductTerms(q, g, k, 5) == Coefficient(q, k);
    assert ProductTerms(q, g, k, 7) == (Coefficient(q, k) != Coefficient(q, k - 6));
  }

  lemma MulTaps(q: Poly)
    ensures forall k | 0 <= k < |q| + 8 :: Mul(q, GENERATOR)[k] == Taps(q, k)
  {
    hide ProductTerms, Taps;
    forall k | 0 <= k < |q| + 8
      ensures Mul(q, GENERATOR)[k] == Taps(q, k)
    {
      GeneratorTerms(q, k);
    }
  }

  // ----- the bit loop divides by the generator -----

  /** One message bit through the register. */
  function BitStep(crc: Octet, bit: bool): Octet {
    Shift(crc.(b7 := crc.b7 != bit))
  }

  lemma ShiftPeelsOneBit(r: Octet, u: Octet)
    ensures Shift(r.Xor(u)) == BitStep(r, u.b7).Xor(u.ShiftLeft())
  {
    hide Shift, BitStep;
    ShiftBits(r.Xor(u));
    BitStepForm(r, u.b7);
  }

  /** Feed in the bits of `u` from the top, n of them. */
  function BitSteps(c: Octet, u: Octet, n: nat): Octet
    decreases n
  {
    if n == 0 then c else BitSteps(BitStep(c, u.b7), u.ShiftLeft(), n - 1)
  }

  function ShiftLeftN(u: Octet, n: nat): Octet
    decreases n
  {
    if n == 0 then u else ShiftLeftN(u.ShiftLeft(), n - 1)
  }

  lemma {:induction false} ShiftNFront(c: Octet, n: nat)
    ensures ShiftN(c, n + 1) == ShiftN(Shift(c), n)
  {
    if n > 0 {
      ShiftNFront(c, n - 1);
    }
  }

  lemma {:induction false} BitStepsIsShiftN(c: Octet, u: Octet, n: nat)
    ensures ShiftN(c.Xor(u), n) == BitSteps(c, u, n).Xor(ShiftLeftN(u, n))
    decreases n
  {
    hide Shift, BitStep, Octet.Xor, Octet.ShiftLeft;
    if n > 0 {
      ShiftNFront(c.Xor(u), n - 1);
      ShiftPeelsOneBit(c, u);
      BitStepsIsShiftN(BitStep(c, u.b7), u.ShiftLeft(), n - 1);
    }
  }

  /** m(x) * x^8 + c(x) == q(x) * G(x). */
  ghost predicate Quotient(m: Poly, c: Octet, q: Poly) {
    |q| == |m| && Mul(q, GENERATOR) == m + c.Bits()
  }

  /** The register after one bit: each coefficient moves up, and the one shifted out is subtracted as a multiple of G. */
  lemma BitStepBits(c: Octet, bit: bool, i: int)
    requires 0 <= i < 8
    ensures BitStep(c, bit).Bits()[i] == (Coefficient(c.Bits(), i + 1) != ((c.b7 != bit) && i >= 5))
  {
    var c' := BitStep(c, bit);
    BitStepForm(c, bit);
    BitsAt(c);
    BitsAt(c');
    hide Octet.Bits, BitStep;
  }

  lemma BitStepForm(c: Octet, bit: bool)
    ensures var t := c.b7 != bit;
            BitStep(c, bit) == Octet(c.b6, c.b5, c.b4, c.b3, c.b2, c.b1 != t, c.b0 != t, t)
  {
    hide Shift;
    ShiftBits(c.(b7 := c.b7 != bit));
  }

  lemma BitsAt(o: Octet)
    ensures var b := o.Bits();
            && b[0] == o.b7 && b[1] == o.b6 && b[2] == o.b5 && b[3] == o.b4
            && b[4] == o.b3 && b[5] == o.b2 && b[6] == o.b1 && b[7] == o.b0
  {
  }

  /** Long division, one bit: the new quotient bit is the bit shifted out. */
  lemma DivideBit(m: Poly, c: Octet, q: Poly, bit: bool)
    requires Quotient(m, c, q)
    ensures Quotient(m + [bit], BitStep(c, bit), q + [c.b7 != bit])
  {
    hide BitStep, ProductTerms, Taps, Octet.Bits;
    var t := c.b7 != bit;
    var n := |q|;
    var c' := BitStep(c, bit);
    var before, after := m + c.Bits(), m + [bit] + c'.Bits();
    MulTaps(q);
    MulTaps(q + [t]);
    forall k | 0 <= k < n + 9
      ensures Taps(q + [t], k) == after[k]
    {
      TapsAppend(q, t, k);
      if k < n {
        assert Taps(q, k) == before[k];
      } else {
        DivideBitAt(c, q, bit, k - n);
        assert k < n + 8 ==> Taps(q, k) == before[k];
      }
    }
    hide Mul;
    assert Mul(q + [t], GENERATOR) == after;
  }

  lemma DivideBitAt(c: Octet, q: Poly, bit: bool, i: int)
    requires 0 <= i <= 8
    ensures ([bit] + BitStep(c, bit).Bits())[i] == (Coefficient(c.Bits(), i) != ((c.b7 != bit) && (i == 0 || i >= 6)))
  {
    hide Octet.Bits, BitStep;
    if i > 0 {
      BitStepBits(c, bit, i - 1);
    } else {
      BitsAt(c);
    }
  }

  /** Appending a coefficient t to the quotient adds t * x^j for the generator's four powers. */
  lemma TapsAppend(q: Poly, t: bool, k: int)
    ensures Taps(q + [t], k) == (Taps(q, k) != (t && (k - |q| == 0 || 6 <= k - |q| <= 8)))
    ensures k >= |q| + 8 ==> !Taps(q, k)
  {
    CoefficientAppend(q, t, k);
    CoefficientAppend(q, t, k - 6);
    CoefficientAppend(q, t, k - 7);
    CoefficientAppend(q, t, k - 8);
    hide Coefficient;
  }

  lemma CoefficientAppend(q: Poly, t: bool, k: int)
    ensures Coefficient(q + [t], k) == if k == |q| then t else Coefficient(q, k)
    ensures k >= |q| ==> !Coefficient(q, k)
  {
  }

  /** Long division by the bits of a byte. */
  lemma {:induction false} DivideBits(m: Poly, c: Octet, q: Poly, u: Octet, n: nat) returns (q': Poly)
    requires Quotient(m, c, q) && n <= 8
    ensures Quotient(m + u.Bits()[..n], BitSteps(c, u, n), q')
    decreases n
  {
    hide Quotient, BitStep, Octet.ShiftLeft, Octet.Bits;
    if n == 0 {
      q' := q;
      assert m + u.Bits()[..0] == m;
    } else {
      var v := u.ShiftLeft();
      DivideBit(m, c, q, u.b7);
      q' := DivideBits(m + [u.b7], BitStep(c, u.b7), q + [c.b7 != u.b7], v, n - 1);
      ShiftLeftBits(u, n);
      assert m + [u.b7] + v.Bits()[..n - 1] == m + u.Bits()[..n];
    }
  }

  lemma ShiftLeftBits(u: Octet, n: nat)
    requires 0 < n <= 8
    ensures u.Bits()[..n] == [u.b7] + u.ShiftLeft().Bits()[..n - 1]
  {
    var v := u.ShiftLeft();
    BitsAt(u);
    BitsAt(v);
    hide Octet.Bits;
    assert forall i | 0 <= i < 7 :: v.Bits()[i] == u.Bits()[i + 1];
  }

  lemma EightShiftsClear(u: Octet)
    ensures ShiftLeftN(u, 8) == ZERO
  {
    assert ShiftLeftN(u, 8) == ShiftLeftN(u.ShiftLeft().ShiftLeft(), 6);
    assert ShiftLeftN(u.ShiftLeft().ShiftLeft(), 6)
        == ShiftLeftN(u.ShiftLeft().ShiftLeft().ShiftLeft().ShiftLeft(), 4);
  }

  lemma XorZeroRight(c: Octet)
    ensures c.Xor(ZERO) == c
  {
  }

  lemma EmptyQuotient()
    ensures Quotient([], ZERO, [])
  {
    MulTaps([]);
    BitsAt(ZERO);
    hide Mul, Octet.Bits;
    assert Mul([], GENERATOR) == [] + ZERO.Bits();
  }

  /** The bit loop leaves a remainder: M(x) * x^8 + crc(x) is a multiple of the generator. */
  lemma {:induction false} CrcQuotient(data: seq<Octet>) returns (q: Poly)
    ensures Quotient(Bits(data), Crc(data), q)
    decreases |data|
  {
    hide Quotient, BitStep, ShiftN, BitSteps, ShiftLeftN, Octet.Bits, Octet.Xor;
    if data == [] {
      q := [];
      EmptyQuotient();
    } else {
      var n := |data| - 1;
      var o := data[n];
      var c := Crc(data[..n]);
      q := CrcQuotient(data[..n]);
      q := DivideBits(Bits(data[..n]), c, q, o, 8);
      BitStepsIsShiftN(c, o, 8);
      EightShiftsClear(o);
      XorZeroRight(BitSteps(c, o, 8));
      assert o.Bits()[..8] == o.Bits();
    }
  }

  // ----- the remainder is unique -----

  lemma {:induction false} QuotientUnique(m: Poly, r: Poly, r': Poly, q: Poly, q': Poly, k: nat)
    requires |q| == |q'| == |m| && |r| == |r'| == 8 && k <= |m|
    requires Mul(q, GENERATOR) == m + r && Mul(q', GENERATOR) == m + r'
    ensures q[..k] == q'[..k]
  {
    hide Mul;
    if k > 0 {
      QuotientUnique(m, r, r', q, q', k - 1);
      var i := k - 1;
      MulTaps(q);
      MulTaps(q');
      assert Mul(q, GENERATOR)[i] == m[i] == Mul(q', GENERATOR)[i];
      assert forall j :: 0 <= j < i ==> q[j] == q[..i][j] && q'[j] == q'[..i][j];
      assert q[i] == q'[i];
    }
  }

  lemma BitsInjective(a: Octet, b: Octet)
    requires a.Bits() == b.Bits()
    ensures a == b
  {
    BitsAt(a);
    BitsAt(b);
    hide Octet.Bits;
  }

  /** The comparison of line 88 succeeds exactly on the multiples of the generator. */
  lemma VerdictIsDivisibility(data: seq<Octet>, crc: Octet)
    ensures Crc(data) == crc <==> Divisible(Word(data, crc))
  {
    hide Mul, Octet.Bits, Crc;
    var m := Bits(data);
    var q := CrcQuotient(data);
    assert Mul(q, GENERATOR) == Word(data, Crc(data));
    if Divisible(Word(data, crc)) {
      var q' :| Mul(q', GENERATOR) == Word(data, crc);
      assert |q'| + 8 == |m| + 8;
      QuotientUnique(m, Crc(data).Bits(), crc.Bits(), q, q', |m|);
      assert q[..|m|] == q && q'[..|m|] == q';
      assert m + Crc(data).Bits() == m + crc.Bits();
      assert (m + Crc(data).Bits())[|m|..] == Crc(data).Bits();
      assert (m + crc.Bits())[|m|..] == crc.Bits();
      BitsInjective(Crc(data), crc);
    }
  }
}
