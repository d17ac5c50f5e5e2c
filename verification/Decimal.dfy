/** Unsigned decimal text: what u32ToDec prints and what the parsers on both ends of the
    serial line read back. */
module Decimal {
  import opened Words

  predicate IsDigit(c: char) {
    '0' <= c <= '9'
  }

  predicate AllDigits(s: string) {
    forall i :: 0 <= i < |s| ==> IsDigit(s[i])
  }

  function DigitValue(c: char): nat
    requires IsDigit(c)
  {
    (c - '0') as nat
  }

  function DigitChar(d: nat): (c: char)
    requires d < 10
    ensures IsDigit(c) && DigitValue(c) == d
  {
    '0' + d as char
  }

  /** The number a string of digits denotes. */
  function ValueOf(s: string): nat
    requires AllDigits(s)
  {
    if |s| == 0 then 0 else 10 * ValueOf(s[..|s| - 1]) + DigitValue(s[|s| - 1])
  }

  /** The shortest decimal text of a number. */
  function Text(v: nat): (s: string)
    ensures AllDigits(s) && |s| > 0
  {
    if v < 10 then [DigitChar(v)] else Text(v / 10) + [DigitChar(v % 10)]
  }

  lemma {:induction false} ValueOfText(v: nat)
    ensures ValueOf(Text(v)) == v
  {
    if v >= 10 {
      ValueOfText(v / 10);
      assert Text(v)[..|Text(v)| - 1] == Text(v / 10);
    } else {
      assert Text(v)[..0] == [];
    }
  }

  function Pow10(n: nat): (p: nat)
    ensures p > 0
  {
    if n == 0 then 1 else 10 * Pow10(n - 1)
  }

  lemma {:induction false} TextLength(v: nat, n: nat)
    requires 0 < n && v < Pow10(n)
    ensures |Text(v)| <= n
  {
    if v >= 10 {
      TextLength(v / 10, n - 1);
    }
  }

  /** Every 32-bit number prints in at most ten digits. */
  lemma TextLength32(v: u32)
    ensures |Text(v)| <= 10
  {
    assert Pow10(10) >= 0x1_0000_0000 by {
      assert Pow10(2) == 100;
      assert Pow10(4) == 1_0000;
      assert Pow10(6) == 100_0000;
      assert Pow10(8) == 1_0000_0000;
    }
    TextLength(v, 10);
  }
}
