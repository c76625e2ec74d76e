/** uint8_t as its eight bits, for the serial link, whose check works on single bits. */
module Octets {

  datatype Octet = Octet(b7: bool, b6: bool, b5: bool, b4: bool, b3: bool, b2: bool, b1: bool, b0: bool) {

    /** The ^ operator. */
    function Xor(o: Octet): Octet {
      Octet(b7 != o.b7, b6 != o.b6, b5 != o.b5, b4 != o.b4, b3 != o.b3, b2 != o.b2, b1 != o.b1, b0 != o.b0)
    }

    /** The << 1 operator followed by the cast back to eight bits. */
    function ShiftLeft(): Octet {
      Octet(b6, b5, b4, b3, b2, b1, b0, false)
    }

    /** The coefficients of x^7 down to x^0. */
    function Bits(): (r: seq<bool>)
      ensures |r| == 8
    {
      [b7, b6, b5, b4, b3, b2, b1, b0]
    }

    function Value(): (v: nat)
      ensures v < 256
    {
      16 * Nibble(b7, b6, b5, b4) + Nibble(b3, b2, b1, b0)
    }
  }

  function Digit(b: bool, w: nat): nat {
    if b then w else 0
  }

  function Nibble(p: bool, q: bool, r: bool, s: bool): (v: nat)
    ensures v < 16
  {
    Digit(p, 8) + Digit(q, 4) + Digit(r, 2) + Digit(s, 1)
  }

  predicate Odd(n: nat) {
    n % 2 == 1
  }

  /** The cast of an unsigned value to uint8_t. */
  function OfNat(n: nat): Octet {
    var h := n / 16;
    Octet(Odd(h / 8), Odd(h / 4), Odd(h / 2), Odd(h), Odd(n / 8), Odd(n / 4), Odd(n / 2), Odd(n))
  }

  const ZERO := Octet(false, false, false, false, false, false, false, false)

  lemma NibbleValue(n: nat)
    ensures Nibble(Odd(n / 8), Odd(n / 4), Odd(n / 2), Odd(n)) == n % 16
  {
    assert n / 2 / 2 == n / 4 && n / 4 / 2 == n / 8 && n / 8 / 2 == n / 16;
  }

  /** The cast keeps the value modulo 256. */
  lemma OfNatValue(n: nat)
    ensures OfNat(n).Value() == n % 256
  {
    NibbleValue(n);
    NibbleValue(n / 16);
    hide Odd, Nibble;
    assert n / 16 / 16 == n / 256;
  }

  lemma NibbleInjective(a: bool, b: bool, c: bool, d: bool, p: bool, q: bool, r: bool, s: bool)
    requires Nibble(a, b, c, d) == Nibble(p, q, r, s)
    ensures a == p && b == q && c == r && d == s
  {
  }

  /** Two octets of the same value are the same octet. */
  lemma ValueInjective(o: Octet, u: Octet)
    requires o.Value() == u.Value()
    ensures o == u
  {
    hide Nibble;
    NibbleInjective(o.b7, o.b6, o.b5, o.b4, u.b7, u.b6, u.b5, u.b4);
    NibbleInjective(o.b3, o.b2, o.b1, o.b0, u.b3, u.b2, u.b1, u.b0);
  }

  /** The 0x07 of the program, its start-of-frame bytes, as bits. */
  const X07 := Octet(false, false, false, false, false, true, true, true)
  const XAA := Octet(true, false, true, false, true, false, true, false)
  const X55 := Octet(false, true, false, true, false, true, false, true)

  lemma Constants()
    ensures X07 == OfNat(0x07) && XAA == OfNat(0xAA) && X55 == OfNat(0x55) && ZERO == OfNat(0)
  {
  }
}
