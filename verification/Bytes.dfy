/** Octets and the little-endian integers built from them. */
module Bytes {

  newtype byte = x: int | 0 <= x < 256

  const TWO_16: nat := 0x1_0000
  const TWO_32: nat := 0x1_0000_0000

  /** C's conversion of an unsigned value to uint8_t: the low eight bits. */
  function Low8(n: nat): (b: byte)
    ensures b as nat == n % 256
  {
    (n % 256) as byte
  }

  function Le16(v: nat): (s: seq<byte>)
    ensures |s| == 2
  {
    [Low8(v), Low8(v / 256)]
  }

  function Le32(v: nat): (s: seq<byte>)
    ensures |s| == 4
  {
    [Low8(v), Low8(v / 256), Low8(v / 0x1_0000), Low8(v / 0x100_0000)]
  }

  function FromLe16(s: seq<byte>): (v: nat)
    requires |s| == 2
    ensures v < TWO_16
  {
    s[0] as nat + 256 * s[1] as nat
  }

  function FromLe32(s: seq<byte>): (v: nat)
    requires |s| == 4
    ensures v < TWO_32
  {
    s[0] as nat + 256 * s[1] as nat + 0x1_0000 * s[2] as nat + 0x100_0000 * s[3] as nat
  }

  lemma TwoDigits(v: nat)
    ensures v % 256 + 256 * (v / 256 % 256) == v % 0x1_0000
  {
    var q := v / 256;
    assert v == 0x1_0000 * (q / 256) + (256 * (q % 256) + v % 256);
  }

  lemma FourDigits(v: nat)
    ensures v % 0x1_0000 + 0x1_0000 * (v / 0x1_0000 % 0x1_0000) == v % 0x1_0000_0000
  {
    var q := v / 0x1_0000;
    assert v == 0x1_0000_0000 * (q / 0x1_0000) + (0x1_0000 * (q % 0x1_0000) + v % 0x1_0000);
  }

  /** Writing a 16-bit value and reading it back loses exactly what uint16_t loses. */
  lemma Le16RoundTrip(v: nat)
    ensures FromLe16(Le16(v)) == v % TWO_16
  {
    TwoDigits(v);
  }

  /** Writing a 32-bit value and reading it back loses exactly what uint32_t loses. */
  lemma Le32RoundTrip(v: nat)
    ensures FromLe32(Le32(v)) == v % TWO_32
  {
    var h := v / 0x1_0000;
    TwoDigits(v);
    TwoDigits(h);
    FourDigits(v);
    assert h / 256 == v / 0x100_0000;
  }
}
