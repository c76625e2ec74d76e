/** What printf's %d and %u print, and that atoll reads it back. */
module Decimal {
  import opened Json

  function Digit(d: nat): (c: char)
    requires d < 10
    ensures IsDigit(c) && DigitValue(c) == d
  {
    '0' + d as char
  }

  function FormatNat(n: nat): (s: string)
    ensures s != ""
  {
    if n < 10 then [Digit(n)] else FormatNat(n / 10) + [Digit(n % 10)]
  }

  function FormatInt(i: int): (s: string)
    ensures s != ""
  {
    if i < 0 then "-" + FormatNat(-i) else FormatNat(i)
  }

  /** Digits only, the value printed, and no leading zero except in 0 itself. */
  lemma {:induction false} FormatNatReads(n: nat)
    ensures AllDigits(FormatNat(n)) && DigitsValue(FormatNat(n)) == n
    ensures FormatNat(n)[0] == '0' ==> n == 0 && |FormatNat(n)| == 1
  {
    if n < 10 {
      assert FormatNat(n)[..0] == "";
    } else {
      FormatNatReads(n / 10);
      var s := FormatNat(n);
      assert s[..|s| - 1] == FormatNat(n / 10);
    }
  }

  /** Base ten from the left: each digit multiplies what came before it by ten. */
  function FromLeft(s: string, acc: int): int {
    if s == "" then acc else FromLeft(s[1..], 10 * acc + (s[0] as int - 48))
  }

  lemma {:induction false} FromLeftNext(s: string, c: char, acc: int)
    ensures FromLeft(s + [c], acc) == 10 * FromLeft(s, acc) + (c as int - 48)
    decreases |s|
  {
    if s == "" {
      assert (s + [c])[1..] == "";
    } else {
      assert (s + [c])[1..] == s[1..] + [c];
      FromLeftNext(s[1..], c, 10 * acc + (s[0] as int - 48));
    }
  }

  lemma {:induction false} DigitsValueExact(s: string)
    requires AllDigits(s)
    ensures DigitsValue(s) == FromLeft(s, 0)
  {
    if s != "" {
      var k := |s| - 1;
      assert s == s[..k] + [s[k]];
      DigitsValueExact(s[..k]);
      FromLeftNext(s[..k], s[k], 0);
    }
  }

  /** Whole numbers as they are read: base ten, the sign in front, cut off at the ends of 64 bits. */
  lemma AtollExact(minus: bool, d: string)
    requires AllDigits(d) && (minus || d != "")
    ensures var v := if minus then -FromLeft(d, 0) else FromLeft(d, 0);
            Atoll((if minus then "-" else "") + d)
            == if v < -9223372036854775808 then -9223372036854775808
               else if v > 9223372036854775807 then 9223372036854775807 else v
  {
    hide DigitsValue, FromLeft;
    DigitsValueExact(d);
    var s := (if minus then "-" else "") + d;
    if minus {
      assert s[1..] == d;
    } else {
      assert s == d && IsDigit(d[0]);
    }
  }

  /** The decimal notation of i: digits without a leading zero, a minus sign before them if i is negative. */
  predicate Denotes(s: string, i: int) {
    && (i < 0 ==> s != "" && s[0] == '-')
    && var d := if i < 0 then s[1..] else s;
    && (forall k | 0 <= k < |d| :: '0' <= d[k] <= '9') && FromLeft(d, 0) == (if i < 0 then -i else i)
    && d != "" && (d[0] == '0' ==> |d| == 1)
  }

  lemma FormatIntDenotes(i: int)
    ensures Denotes(FormatInt(i), i)
  {
    var n := if i < 0 then -i else i;
    FormatNatReads(n);
    DigitsValueExact(FormatNat(n));
    if i < 0 {
      assert FormatInt(i)[1..] == FormatNat(n);
    }
  }

  lemma FormatIntReads(i: int)
    requires INT64_MIN <= i <= INT64_MAX
    ensures Atoll(FormatInt(i)) == i
  {
    if i < 0 {
      FormatNatReads(-i);
      assert FormatInt(i)[1..] == FormatNat(-i);
    } else {
      FormatNatReads(i);
      assert IsDigit(FormatNat(i)[0]);
    }
  }

  function Pow10(k: nat): nat {
    if k == 0 then 1 else 10 * Pow10(k - 1)
  }

  lemma {:induction false} FormatNatLength(n: nat, k: nat)
    requires k > 0 && n < Pow10(k)
    ensures |FormatNat(n)| <= k
  {
    if n >= 10 {
      assert k > 1;
      FormatNatLength(n / 10, k - 1);
    }
  }
}
