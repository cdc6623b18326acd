/** Decimal digit strings: what Integer.parseInt(s, 10) reads and what
    StringBuilder.append(int) writes. Values are unbounded naturals: the 32-bit
    overflow of parseInt is not modelled. */
module Decimal {

  predicate IsDigit(c: char) { '0' <= c <= '9' }

  predicate AllDigits(s: string) {
    forall k :: 0 <= k < |s| ==> IsDigit(s[k])
  }

  function DigitValue(c: char): (d: nat)
    requires IsDigit(c)
    ensures d < 10
  {
    c as int - '0' as int
  }

  function DigitChar(d: nat): (c: char)
    requires d < 10
    ensures IsDigit(c) && DigitValue(c) == d
  {
    ('0' as int + d) as char
  }

  /** The value of a run of decimal digits, most significant first; leading
      zeros are allowed ("007" reads as 7). */
  function ParseNat(s: string): nat
    requires AllDigits(s)
  {
    if s == [] then 0 else ParseNat(s[..|s| - 1]) * 10 + DigitValue(s[|s| - 1])
  }

  /** k digits read as less than 10^k, and zeros only as 0. */
  lemma {:induction false} ParseNatBounds(s: string)
    requires AllDigits(s)
    ensures ParseNat(s) < Pow10(|s|)
    ensures (forall k :: 0 <= k < |s| ==> s[k] == '0') ==> ParseNat(s) == 0
  {
    if s != [] {
      ParseNatBounds(s[..|s| - 1]);
    }
  }

  /** 10 to the power e. */
  function Pow10(e: nat): nat {
    if e == 0 then 1 else 10 * Pow10(e - 1)
  }

  /** The shortest decimal spelling of n: no sign, no leading zero. */
  function NatToString(n: nat): (r: string)
    ensures |r| > 0 && AllDigits(r)
    ensures r[0] == '0' ==> n == 0
    decreases n
  {
    if n < 10 then [DigitChar(n)] else NatToString(n / 10) + [DigitChar(n % 10)]
  }

  /** Integer.toString: a minus sign for negative values. */
  function IntToString(x: int): (r: string)
    ensures x >= 0 ==> AllDigits(r) && ParseNat(r) == x
    ensures x < 0 ==> |r| > 1 && r[0] == '-' && AllDigits(r[1..]) && ParseNat(r[1..]) == -x
  {
    if x < 0 then
      ParseNatToString(-x);
      assert ("-" + NatToString(-x))[1..] == NatToString(-x);
      "-" + NatToString(-x)
    else
      ParseNatToString(x);
      NatToString(x)
  }

  /** Reading back what NatToString writes gives the number again. */
  lemma {:induction false} ParseNatToString(n: nat)
    ensures ParseNat(NatToString(n)) == n
  {
    if n >= 10 {
      ParseNatToString(n / 10);
      var r := NatToString(n);
      assert r[..|r| - 1] == NatToString(n / 10);
    }
  }
}
