/** Which transmission errors the CRC of the serial link is sure to notice. */
module Crc8Detection {
  import opened Octets
  import opened Crc8

  // ----- bursts -----

  lemma TapsXor(p: Poly, q: Poly, k: int)
    requires |p| == |q|
    ensures Taps(Xor(p, q), k) == (Taps(p, k) != Taps(q, k))
  {
    CoefficientXor(p, q, k);
    CoefficientXor(p, q, k - 6);
    CoefficientXor(p, q, k - 7);
    CoefficientXor(p, q, k - 8);
    hide Coefficient;
  }

  lemma CoefficientXor(p: Poly, q: Poly, k: int)
    requires |p| == |q|
    ensures Coefficient(Xor(p, q), k) == (Coefficient(p, k) != Coefficient(q, k))
  {
  }

  /** The sum of two multiples of the generator is one. */
  lemma DivisibleXor(a: Poly, b: Poly)
    requires |a| == |b| && Divisible(a) && Divisible(b)
    ensures Divisible(Xor(a, b))
  {
    hide Taps;
    var p :| Mul(p, GENERATOR) == a;
    var q :| Mul(q, GENERATOR) == b;
    MulTaps(p);
    MulTaps(q);
    MulTaps(Xor(p, q));
    hide Mul;
    forall k | 0 <= k < |a|
      ensures Mul(Xor(p, q), GENERATOR)[k] == Xor(a, b)[k]
    {
      TapsXor(p, q, k);
    }
    assert Mul(Xor(p, q), GENERATOR) == Xor(a, b);
  }

  lemma {:induction false} FirstTrue(q: Poly, k: nat) returns (i: nat)
    requires k < |q| && q[k]
    ensures i <= k && q[i] && forall j | 0 <= j < i :: !q[j]
    decreases k
  {
    if exists j :: 0 <= j < k && q[j] {
      var j :| 0 <= j < k && q[j];
      i := FirstTrue(q, j);
    } else {
      i := k;
    }
  }

  lemma {:induction false} LastTrue(q: Poly, k: nat) returns (i: nat)
    requires k < |q| && q[k]
    ensures k <= i < |q| && q[i] && forall j | i < j < |q| :: !q[j]
    decreases |q| - k
  {
    if exists j :: k < j < |q| && q[j] {
      var j :| k < j < |q| && q[j];
      i := LastTrue(q, j);
    } else {
      i := k;
    }
  }

  /** A nonzero multiple of the generator has two nonzero coefficients at least eight places apart. */
  lemma MultipleIsWide(q: Poly, k: nat) returns (i: nat, j: nat)
    requires k < |q| && q[k]
    ensures i + 8 <= j < |q| + 8 && Mul(q, GENERATOR)[i] && Mul(q, GENERATOR)[j]
  {
    var first := FirstTrue(q, k);
    var last := LastTrue(q, k);
    i, j := first, last + 8;
    MulTaps(q);
    hide Mul;
    assert Taps(q, i) && Taps(q, j);
  }

  lemma DivisibleIsWide(e: Poly, k: nat) returns (i: nat, j: nat)
    requires Divisible(e) && k < |e| && e[k]
    ensures i + 8 <= j < |e| && e[i] && e[j]
  {
    hide Taps;
    var q :| Mul(q, GENERATOR) == e;
    MulNonzero(q, k);
    hide Mul;
    var l :| 0 <= l < |q| && q[l];
    i, j := MultipleIsWide(q, l);
  }

  lemma MulNonzero(q: Poly, k: nat)
    requires k < |q| + 8 && Mul(q, GENERATOR)[k]
    ensures exists l :: 0 <= l < |q| && q[l]
  {
    MulTaps(q);
    hide Mul;
    assert Taps(q, k);
    assert Coefficient(q, k) || Coefficient(q, k - 6) || Coefficient(q, k - 7) || Coefficient(q, k - 8);
  }

  lemma SomeDifference(a: Poly, b: Poly)
    requires |a| == |b| && a != b
    ensures exists k :: 0 <= k < |a| && a[k] != b[k]
  {
  }

  /** A frame that passed, hit by errors that all lie within eight consecutive bits, no longer passes. */
  lemma BurstDetected(data: seq<Octet>, crc: Octet, data': seq<Octet>, crc': Octet, s: int)
    requires |data| == |data'| && Crc(data) == crc
    requires Word(data, crc) != Word(data', crc')
    requires forall k | 0 <= k < 8 * |data| + 8 && Word(data, crc)[k] != Word(data', crc')[k] :: s <= k < s + 8
    ensures Crc(data') != crc'
  {
    hide Divisible, Crc, Word;
    if Crc(data') == crc' {
      var w, w' := Word(data, crc), Word(data', crc');
      VerdictIsDivisibility(data, crc);
      VerdictIsDivisibility(data', crc');
      DivisibleXor(w, w');
      SomeDifference(w, w');
      var k :| 0 <= k < |w| && w[k] != w'[k];
      var i, j := DivisibleIsWide(Xor(w, w'), k);
    }
  }

  /** The generator moved up to place s, as the multiple of the generator by one power of x. */
  function Power(n: nat, s: nat): (q: Poly)
    ensures |q| == n
  {
    seq(n, k => k == s)
  }

  lemma ShiftedGenerator(n: nat, s: nat, k: nat)
    requires s < n && k < n + 8
    ensures Mul(Power(n, s), GENERATOR)[k] == (s <= k < s + 9 && GENERATOR[k - s])
  {
    MulTaps(Power(n, s));
    hide Mul;
    assert Mul(Power(n, s), GENERATOR)[k] == Taps(Power(n, s), k);
  }

  /** A multiple of the generator within nine places is the generator itself, moved there. */
  lemma NarrowMultiple(q: Poly, s: nat, k: nat)
    requires k < |q| && q[k]
    requires forall j | 0 <= j < |q| + 8 && Mul(q, GENERATOR)[j] :: s <= j < s + 9
    ensures s < |q| && q == Power(|q|, s)
  {
    var first := FirstTrue(q, k);
    var last := LastTrue(q, k);
    MulTaps(q);
    hide Mul;
    assert Taps(q, first) && Taps(q, last + 8);
    assert Mul(q, GENERATOR)[first] && Mul(q, GENERATOR)[last + 8];
  }

  lemma NarrowDivisible(e: Poly, s: nat, k: nat)
    requires Divisible(e) && k < |e| && e[k] && s + 9 <= |e|
    requires forall j | 0 <= j < |e| && e[j] :: s <= j < s + 9
    ensures forall i | 0 <= i < 9 :: e[s + i] == GENERATOR[i]
  {
    var q :| Mul(q, GENERATOR) == e;
    MulNonzero(q, k);
    hide Mul;
    var l :| 0 <= l < |q| && q[l];
    NarrowMultiple(q, s, l);
    forall i | 0 <= i < 9
      ensures e[s + i] == GENERATOR[i]
    {
      ShiftedGenerator(|q|, s, s + i);
    }
  }

  lemma GeneratorDivisible(e: Poly, s: nat)
    requires s + 9 <= |e|
    requires forall j | 0 <= j < |e| && e[j] :: s <= j < s + 9
    requires forall i | 0 <= i < 9 :: e[s + i] == GENERATOR[i]
    ensures Divisible(e)
  {
    hide Mul;
    var q := Power(|e| - 8, s);
    forall j | 0 <= j < |e|
      ensures Mul(q, GENERATOR)[j] == e[j]
    {
      ShiftedGenerator(|e| - 8, s, j);
      if s <= j < s + 9 {
        assert e[s + (j - s)] == GENERATOR[j - s];
      }
    }
    assert Mul(q, GENERATOR) == e;
  }

  lemma XorTwice(a: Poly, b: Poly)
    requires |a| == |b|
    ensures Xor(a, Xor(a, b)) == b
  {
  }

  /** Errors within nine consecutive bits go undetected exactly when they are the generator's own pattern. */
  lemma NineBitBurstExact(data: seq<Octet>, crc: Octet, data': seq<Octet>, crc': Octet, s: nat)
    requires |data| == |data'| && Crc(data) == crc && s + 9 <= 8 * |data| + 8
    requires Word(data, crc) != Word(data', crc')
    requires forall k | 0 <= k < 8 * |data| + 8 && Word(data, crc)[k] != Word(data', crc')[k] :: s <= k < s + 9
    ensures Crc(data') == crc' <==>
            forall i | 0 <= i < 9 :: (Word(data, crc)[s + i] != Word(data', crc')[s + i]) == GENERATOR[i]
  {
    hide Divisible, Crc, Word;
    var w, w' := Word(data, crc), Word(data', crc');
    var e := Xor(w, w');
    VerdictIsDivisibility(data, crc);
    VerdictIsDivisibility(data', crc');
    SomeDifference(w, w');
    var k :| 0 <= k < |w| && w[k] != w'[k];
    if Divisible(w') {
      DivisibleXor(w, w');
      NarrowDivisible(e, s, k);
    }
    if forall i | 0 <= i < 9 :: e[s + i] == GENERATOR[i] {
      GeneratorDivisible(e, s);
      DivisibleXor(w, e);
      XorTwice(w, w');
    }
  }

  // ----- parity -----

  function Parity(o: Octet): bool {
    ((o.b7 != o.b6) != (o.b5 != o.b4)) != ((o.b3 != o.b2) != (o.b1 != o.b0))
  }

  function DataParity(data: seq<Octet>): bool {
    if data == [] then false else DataParity(data[..|data| - 1]) != Parity(data[|data| - 1])
  }

  /** The generator has an even number of terms, so shifting keeps parity. */
  lemma ShiftParity(c: Octet)
    ensures Parity(Shift(c)) == Parity(c)
  {
    ShiftBits(c);
    hide Shift;
  }

  lemma {:induction false} ShiftNParity(c: Octet, n: nat)
    ensures Parity(ShiftN(c, n)) == Parity(c)
  {
    hide Parity, Shift;
    if n > 0 {
      ShiftNParity(c, n - 1);
      ShiftParity(ShiftN(c, n - 1));
    } else {
    }
  }

  lemma XorParity(a: Octet, b: Octet)
    ensures Parity(a.Xor(b)) == (Parity(a) != Parity(b))
  {
  }

  /** The check byte has the parity of the bytes it covers, whatever their number. */
  lemma {:induction false} CrcParity(data: seq<Octet>)
    ensures Parity(Crc(data)) == DataParity(data)
    decreases |data|
  {
    hide ShiftN, Octet.Xor;
    if data != [] {
      hide Parity;
      var n := |data| - 1;
      CrcParity(data[..n]);
      XorParity(Crc(data[..n]), data[n]);
      ShiftNParity(Crc(data[..n]).Xor(data[n]), 8);
    }
  }

  /** How many bits are set. */
  function Weight(o: Octet): nat {
    Weight4(o.b7, o.b6, o.b5, o.b4) + Weight4(o.b3, o.b2, o.b1, o.b0)
  }

  function Weight4(p: bool, q: bool, r: bool, s: bool): nat {
    Digit(p, 1) + Digit(q, 1) + Digit(r, 1) + Digit(s, 1)
  }

  /** How many bits differ. */
  function Flips(a: seq<Octet>, b: seq<Octet>): nat
    requires |a| == |b|
  {
    if a == [] then 0
    else Flips(a[..|a| - 1], b[..|b| - 1]) + Weight(a[|a| - 1].Xor(b[|b| - 1]))
  }

  lemma OddSum(m: nat, n: nat)
    ensures Odd(m + n) == (Odd(m) != Odd(n))
  {
  }

  lemma Weight4Parity(p: bool, q: bool, r: bool, s: bool)
    ensures Odd(Weight4(p, q, r, s)) == ((p != q) != (r != s))
  {
  }

  lemma WeightParity(o: Octet)
    ensures Odd(Weight(o)) == Parity(o)
  {
    Weight4Parity(o.b7, o.b6, o.b5, o.b4);
    Weight4Parity(o.b3, o.b2, o.b1, o.b0);
    OddSum(Weight4(o.b7, o.b6, o.b5, o.b4), Weight4(o.b3, o.b2, o.b1, o.b0));
    hide Odd, Weight4;
  }

  lemma {:induction false} FlipsParity(a: seq<Octet>, b: seq<Octet>)
    requires |a| == |b|
    ensures Odd(Flips(a, b)) == (DataParity(a) != DataParity(b))
    decreases |a|
  {
    hide Parity, Weight, Octet.Xor;
    if a != [] {
      var n := |a| - 1;
      FlipsParity(a[..n], b[..n]);
      WeightParity(a[n].Xor(b[n]));
      XorParity(a[n], b[n]);
      OddSum(Flips(a[..n], b[..n]), Weight(a[n].Xor(b[n])));
    }
  }

  /** A frame that passed no longer passes after any odd number of bit flips. */
  lemma OddFlipsDetected(data: seq<Octet>, crc: Octet, data': seq<Octet>, crc': Octet)
    requires |data| == |data'| && Crc(data) == crc
    requires Odd(Flips(data, data') + Weight(crc.Xor(crc')))
    ensures Crc(data') != crc'
  {
    hide Parity, Weight, Octet.Xor, Odd, Crc, Flips;
    CrcParity(data);
    CrcParity(data');
    FlipsParity(data, data');
    WeightParity(crc.Xor(crc'));
    XorParity(crc, crc');
    OddSum(Flips(data, data'), Weight(crc.Xor(crc')));
  }

  // ----- two flips -----

  const ONE := Octet(false, false, false, false, false, false, false, true)

  /** The remainder of w(x), a bit at a time, without the factor x^8. */
  function Syndrome(w: Poly): Octet {
    if w == [] then ZERO
    else
      var s := Shift(Syndrome(w[..|w| - 1]));
      if w[|w| - 1] then s.Xor(ONE) else s
  }

  function Zeros(n: nat): (w: Poly)
    ensures |w| == n
  {
    seq(n, _ => false)
  }

  lemma {:induction false} SyndromeZeros(w: Poly, n: nat)
    ensures Syndrome(w + Zeros(n)) == ShiftN(Syndrome(w), n)
  {
    hide Shift;
    if n == 0 {
      assert w + Zeros(0) == w;
    } else {
      SyndromeZeros(w, n - 1);
      assert (w + Zeros(n))[..|w| + n - 1] == w + Zeros(n - 1);
    }
  }

  lemma SyndromeAppend(w: Poly, b: bool)
    ensures Syndrome(w + [b]) == if b then Shift(Syndrome(w)).Xor(ONE) else Shift(Syndrome(w))
  {
    hide Shift, Octet.Xor;
    assert (w + [b])[..|w|] == w;
  }

  lemma {:induction false} ShiftNAdd(c: Octet, m: nat, n: nat)
    ensures ShiftN(c, m + n) == ShiftN(ShiftN(c, m), n)
  {
    hide Shift;
    if n > 0 {
      ShiftNAdd(c, m, n - 1);
    } else {
    }
  }

  lemma ShiftInjective(a: Octet, b: Octet)
    requires Shift(a) == Shift(b)
    ensures a == b
  {
    ShiftBits(a);
    ShiftBits(b);
    hide Shift;
  }

  lemma {:induction false} ShiftNInjective(a: Octet, b: Octet, n: nat)
    requires ShiftN(a, n) == ShiftN(b, n)
    ensures a == b
  {
    hide Shift;
    if n > 0 {
      ShiftInjective(ShiftN(a, n - 1), ShiftN(b, n - 1));
      ShiftNInjective(a, b, n - 1);
    }
  }

  /** x^(2k) == x^(2a) + x^(2b) + 1 follows from x^k == x^a + x^b + 1; ByTrinomial(k, a, b) says the latter. */
  ghost predicate ByTrinomial(k: nat, a: nat, b: nat) {
    forall c :: ShiftN(c, k) == ShiftN(c, a).Xor(ShiftN(c, b)).Xor(c)
  }

  lemma GeneratorTrinomial()
    ensures ByTrinomial(8, 2, 1)
  {
    forall c
      ensures ShiftN(c, 8) == ShiftN(c, 2).Xor(ShiftN(c, 1)).Xor(c)
    {
      EightShifts(c);
    }
  }

  lemma TwoShifts(c: Octet)
    ensures ShiftN(c, 2) == Octet(c.b5, c.b4, c.b3, c.b2, c.b1 != c.b7, (c.b0 != c.b7) != c.b6, c.b7 != c.b6, c.b6)
  {
    hide Shift, ShiftN;
    ShiftBits(c);
    ShiftBits(Shift(c));
    OneAndTwo(c);
  }

  lemma OneAndTwo(c: Octet)
    ensures ShiftN(c, 1) == Shift(c) && ShiftN(c, 2) == Shift(Shift(c))
  {
    hide Shift;
    assert ShiftN(c, 0) == c;
  }

  lemma FourShifts(c: Octet)
    ensures ShiftN(c, 4) == Octet(c.b3, c.b2, c.b1 != c.b7, (c.b0 != c.b7) != c.b6,
                                  (c.b7 != c.b6) != c.b5, (c.b6 != c.b5) != c.b4, c.b5 != c.b4, c.b4)
  {
    hide ShiftN;
    TwoShifts(c);
    TwoShifts(ShiftN(c, 2));
    ShiftNAdd(c, 2, 2);
  }

  /** The generator written as x^8 == x^2 + x + 1. */
  lemma EightShifts(c: Octet)
    ensures ShiftN(c, 8) == ShiftN(c, 2).Xor(ShiftN(c, 1)).Xor(c)
  {
    hide ShiftN, Shift;
    FourShifts(c);
    FourShifts(ShiftN(c, 4));
    ShiftNAdd(c, 4, 4);
    ShiftBits(c);
    TwoShifts(c);
    OneAndTwo(c);
  }

  lemma CrossBit(x: bool, y: bool, z: bool, w: bool, v: bool, c: bool)
    ensures ((((x != y) != z) != ((y != w) != v)) != ((z != v) != c)) == ((x != w) != c)
  {
  }

  lemma CrossTermsCancel(x: Octet, y: Octet, z: Octet, w: Octet, v: Octet, c: Octet)
    ensures x.Xor(y).Xor(z).Xor(y.Xor(w).Xor(v)).Xor(z.Xor(v).Xor(c)) == x.Xor(w).Xor(c)
  {
    CrossBit(x.b7, y.b7, z.b7, w.b7, v.b7, c.b7);
    CrossBit(x.b6, y.b6, z.b6, w.b6, v.b6, c.b6);
    CrossBit(x.b5, y.b5, z.b5, w.b5, v.b5, c.b5);
    CrossBit(x.b4, y.b4, z.b4, w.b4, v.b4, c.b4);
    CrossBit(x.b3, y.b3, z.b3, w.b3, v.b3, c.b3);
    CrossBit(x.b2, y.b2, z.b2, w.b2, v.b2, c.b2);
    CrossBit(x.b1, y.b1, z.b1, w.b1, v.b1, c.b1);
    CrossBit(x.b0, y.b0, z.b0, w.b0, v.b0, c.b0);
  }

  lemma Square(k: nat, a: nat, b: nat)
    requires ByTrinomial(k, a, b)
    ensures ByTrinomial(2 * k, 2 * a, 2 * b)
  {
    hide ShiftN, Octet.Xor;
    forall c
      ensures ShiftN(c, 2 * k) == ShiftN(c, 2 * a).Xor(ShiftN(c, 2 * b)).Xor(c)
    {
      var z, v := ShiftN(c, a), ShiftN(c, b);
      var x, y, w := ShiftN(z, a), ShiftN(v, a), ShiftN(v, b);
      ShiftNAdd(c, k, k);
      ShiftNAdd(c, a, a);
      ShiftNAdd(c, b, b);
      ShiftNAdd(c, a, b);
      ShiftNAdd(c, b, a);
      ShiftNLinear(z.Xor(v), c, a);
      ShiftNLinear(z, v, a);
      ShiftNLinear(z.Xor(v), c, b);
      ShiftNLinear(z, v, b);
      CrossTermsCancel(x, y, z, w, v, c);
    }
  }

  lemma XorCancel(a: Octet, b: Octet)
    ensures a.Xor(b).Xor(b) == a && a.Xor(b) == b.Xor(a)
  {
  }

  lemma XorAssoc(a: Octet, b: Octet, c: Octet)
    ensures a.Xor(b).Xor(c) == a.Xor(b.Xor(c))
  {
  }

  lemma LastCancel(t8: Octet, t4: Octet, t2: Octet, t1: Octet, c: Octet)
    requires t8 == t2.Xor(t1).Xor(c)
    ensures t8.Xor(t4).Xor(c).Xor(t4.Xor(t2).Xor(c)).Xor(c) == t1
  {
    hide Octet.Xor;
    var u := t4.Xor(c);
    XorAssoc(t8, t4, c);
    XorAssoc(t4, t2, c);
    XorAssoc(t4, c, t2);
    XorCancel(t2, c);
    XorCancel(t2, u);
    assert t4.Xor(t2).Xor(c) == u.Xor(t2) == t2.Xor(u);
    XorSwap(t8, u, t2, u);
    XorSelf(u);
    XorAssoc(t2, t1, c);
    XorCancel(t2, t1.Xor(c));
    XorCancel(t1.Xor(c), t2);
    XorCancel(t1, c);
    XorZeroRight(t1.Xor(c));
  }

  lemma XorSelf(a: Octet)
    ensures a.Xor(a) == ZERO
  {
  }

  /** x^127 == 1. */
  lemma Period(c: Octet)
    ensures ShiftN(c, 127) == c
  {
    hide ShiftN, Octet.Xor;
    GeneratorTrinomial();
    Square(8, 2, 1);
    Square(16, 4, 2);
    Square(32, 8, 4);
    Square(64, 16, 8);
    LastCancel(ShiftN(c, 8), ShiftN(c, 4), ShiftN(c, 2), ShiftN(c, 1), c);
    ShiftNAdd(c, 127, 1);
    ShiftNInjective(ShiftN(c, 127), c, 1);
  }

  lemma {:induction false} Multiple(c: Octet, d: nat, k: nat)
    requires ShiftN(c, d) == c
    ensures ShiftN(c, k * d) == c
  {
    hide ShiftN;
    if k == 0 {
      ShiftZero(c);
    } else {
      Multiple(c, d, k - 1);
      ShiftNAdd(c, (k - 1) * d, d);
      assert k * d == (k - 1) * d + d;
    }
  }

  lemma ShiftZero(c: Octet)
    ensures ShiftN(c, 0) == c
  {
  }

  lemma Prime127(d: nat)
    requires 1 < d < 127
    ensures 127 % d != 0
  {
  }

  lemma {:induction false} NoSmallerPeriod(d: nat)
    requires 0 < d < 127
    ensures ShiftN(ONE, d) != ONE
    decreases d
  {
    hide ShiftN;
    if d == 1 {
      OneAndTwo(ONE);
    } else if ShiftN(ONE, d) == ONE {
      var k, r := 127 / d, 127 % d;
      Prime127(d);
      Multiple(ONE, d, k);
      Period(ONE);
      assert 127 == k * d + r;
      ShiftNAdd(ONE, k * d, r);
      NoSmallerPeriod(r);
    }
  }

  /** The powers of x modulo the generator repeat after exactly 127 steps. */
  lemma PeriodExact(d: nat)
    ensures ShiftN(ONE, d) == ONE <==> d % 127 == 0
  {
    hide ShiftN;
    var k, r := d / 127, d % 127;
    Period(ONE);
    Multiple(ONE, 127, k);
    ShiftNAdd(ONE, k * 127, r);
    if r == 0 {
      ShiftZero(ONE);
    } else {
      NoSmallerPeriod(r);
    }
  }

  // ----- a word is a multiple of the generator exactly when its syndrome is zero -----

  lemma {:induction false} SyndromeConcat(a: Poly, b: Poly)
    ensures Syndrome(a + b) == ShiftN(Syndrome(a), |b|).Xor(Syndrome(b))
    decreases |b|
  {
    hide Shift, Octet.Xor;
    if b == [] {
      assert a + b == a;
      XorZeroRight(Syndrome(a));
    } else {
      var n := |b| - 1;
      var (p, t) := (b[..n], b[n]);
      assert a + b == (a + p) + [t] && b == p + [t];
      SyndromeConcat(a, p);
      SyndromeAppend(a + p, t);
      SyndromeAppend(p, t);
      ShiftLinear(ShiftN(Syndrome(a), n), Syndrome(p));
      XorAssoc(Shift(ShiftN(Syndrome(a), n)), Shift(Syndrome(p)), ONE);
    }
  }

  function OctetOf(r: Poly): Octet
    requires |r| == 8
  {
    Octet(r[0], r[1], r[2], r[3], r[4], r[5], r[6], r[7])
  }

  lemma OctetOfBits(r: Poly)
    requires |r| == 8
    ensures OctetOf(r).Bits() == r
  {
    BitsAt(OctetOf(r));
    hide Octet.Bits;
  }

  /** Fewer than nine bits are their own remainder. */
  lemma {:induction false} ShortSyndrome(r: Poly, k: nat)
    requires |r| == 8 && k <= 8
    ensures Syndrome(r[..k])
            == Octet(k >= 8 && r[k - 8], k >= 7 && r[k - 7], k >= 6 && r[k - 6], k >= 5 && r[k - 5],
                     k >= 4 && r[k - 4], k >= 3 && r[k - 3], k >= 2 && r[k - 2], k >= 1 && r[k - 1])
  {
    hide Shift;
    if k > 0 {
      ShortSyndrome(r, k - 1);
      assert r[..k] == r[..k - 1] + [r[k - 1]];
      SyndromeAppend(r[..k - 1], r[k - 1]);
      ShiftBits(Syndrome(r[..k - 1]));
    }
  }

  lemma ShiftTop()
    ensures ShiftN(ONE, 8) == X07
  {
    hide ShiftN;
    FourShifts(ONE);
    FourShifts(ShiftN(ONE, 4));
    ShiftNAdd(ONE, 4, 4);
  }

  lemma BitStepByShift(s: Octet, bit: bool)
    ensures BitStep(ShiftN(s, 8), bit) == ShiftN(if bit then Shift(s).Xor(ONE) else Shift(s), 8)
  {
    hide ShiftN, Shift, Octet.Xor;
    OneAndTwo(s);
    OneAndTwo(ShiftN(s, 8));
    ShiftNAdd(s, 1, 8);
    ShiftNAdd(s, 8, 1);
    BitStepXor(ShiftN(s, 8), bit);
    ShiftTop();
    ShiftNLinear(Shift(s), ONE, 8);
  }

  lemma BitStepXor(c: Octet, bit: bool)
    ensures BitStep(c, bit) == if bit then Shift(c).Xor(X07) else Shift(c)
  {
    hide Shift;
    ShiftBits(c);
    BitStepForm(c, bit);
    hide BitStep;
  }

  lemma {:induction false} PolyQuotient(m: Poly) returns (q: Poly)
    ensures Quotient(m, ShiftN(Syndrome(m), 8), q)
    decreases |m|
  {
    hide Quotient, ShiftN, BitStep, Octet.Xor, Octet.Bits, Shift;
    if m == [] {
      q := [];
      ShiftZeroOctet(8);
      EmptyQuotient();
    } else {
      var n := |m| - 1;
      var (p, t) := (m[..n], m[n]);
      q := PolyQuotient(p);
      DivideBit(p, ShiftN(Syndrome(p), 8), q, t);
      BitStepByShift(Syndrome(p), t);
      assert m == p + [t];
      q := q + [ShiftN(Syndrome(p), 8).b7 != t];
    }
  }

  lemma {:induction false} ShiftZeroOctet(n: nat)
    ensures ShiftN(ZERO, n) == ZERO
  {
    if n > 0 {
      ShiftZeroOctet(n - 1);
      ShiftBits(ZERO);
    }
  }

  lemma XorIsZero(a: Octet, b: Octet)
    ensures a.Xor(b) == ZERO <==> a == b
  {
  }

  lemma SyndromeSplit(m: Poly, r: Poly)
    requires |r| == 8
    ensures Syndrome(m + r) == ShiftN(Syndrome(m), 8).Xor(OctetOf(r))
  {
    hide ShiftN, Octet.Xor;
    SyndromeConcat(m, r);
    ShortSyndrome(r, 8);
    assert r[..8] == r;
  }

  lemma DivisibleIffSyndrome(w: Poly)
    requires |w| >= 8
    ensures Divisible(w) <==> Syndrome(w) == ZERO
  {
    hide ShiftN, Syndrome, Octet.Xor, Octet.Bits, Mul;
    var n := |w| - 8;
    var m, r := w[..n], w[n..];
    var o := OctetOf(r);
    var c := ShiftN(Syndrome(m), 8);
    assert w == m + r;
    SyndromeSplit(m, r);
    XorIsZero(c, o);
    OctetOfBits(r);
    hide OctetOf;
    var q := PolyQuotient(m);
    if Divisible(w) {
      var q' :| Mul(q', GENERATOR) == w;
      QuotientUnique(m, c.Bits(), r, q, q', n);
      assert q[..n] == q && q'[..n] == q';
      assert (m + c.Bits())[n..] == c.Bits();
      BitsInjective(c, o);
    }
  }

  /** The error that flips two bits d places apart. */
  function TwoFlips(i: nat, d: nat, r: nat): (e: Poly)
    requires d > 0
    ensures |e| == i + d + 1 + r
  {
    Zeros(i) + [true] + Zeros(d - 1) + [true] + Zeros(r)
  }

  lemma TwoFlipsSyndrome(i: nat, d: nat, r: nat)
    requires d > 0
    ensures Syndrome(TwoFlips(i, d, r)) == ZERO <==> d % 127 == 0
  {
    hide ShiftN, Shift, Octet.Xor;
    var z := Zeros(i);
    SyndromeZeros([], i);
    assert [] + z == z;
    ShiftZeroOctet(i);
    SyndromeAppend(z, true);
    ShiftZeroOctet(1);
    OneAndTwo(ZERO);
    XorCancel(ZERO, ONE);
    XorZeroRight(ONE);
    assert Syndrome(z + [true]) == ONE;
    SyndromeZeros(z + [true], d - 1);
    SyndromeAppend(z + [true] + Zeros(d - 1), true);
    ShiftNAdd(ONE, d - 1, 1);
    OneAndTwo(ShiftN(ONE, d - 1));
    var s := ShiftN(ONE, d).Xor(ONE);
    SyndromeZeros(z + [true] + Zeros(d - 1) + [true], r);
    assert Syndrome(TwoFlips(i, d, r)) == ShiftN(s, r);
    ShiftZeroOctet(r);
    if ShiftN(s, r) == ZERO {
      ShiftNInjective(s, ZERO, r);
    }
    XorIsZero(ShiftN(ONE, d), ONE);
    PeriodExact(d);
  }

  /**
   A frame that passed and then had exactly the bits i < j flipped still passes if and only
   if the two lie a multiple of 127 places apart.
   */
  lemma TwoFlipsExact(data: seq<Octet>, crc: Octet, data': seq<Octet>, crc': Octet, i: nat, j: nat)
    requires |data| == |data'| && Crc(data) == crc && i < j < 8 * |data| + 8
    requires forall k | 0 <= k < 8 * |data| + 8 ::
               (Word(data, crc)[k] != Word(data', crc')[k] <==> k == i || k == j)
    ensures Crc(data') == crc' <==> (j - i) % 127 == 0
  {
    hide Divisible, Crc, Word, Syndrome;
    var w, w' := Word(data, crc), Word(data', crc');
    var e := TwoFlips(i, j - i, |w| - 1 - j);
    assert Xor(w, w') == e;
    assert Xor(w, e) == w';
    VerdictIsDivisibility(data, crc);
    VerdictIsDivisibility(data', crc');
    DivisibleIffSyndrome(e);
    TwoFlipsSyndrome(i, j - i, |w| - 1 - j);
    if Divisible(w') {
      DivisibleXor(w, w');
    } else if Divisible(e) {
      DivisibleXor(w, e);
    }
  }
}
