/** Decimal rendering of integers, as C's printf "%d" and Python's str()
    write them: an optional minus sign and the digits, most significant
    first, with no leading zeros. */
module Decimal {
  predicate IsDigit(c: char)
  {
    '0' <= c <= '9'
  }

  predicate AllDigits(s: string)
  {
    forall i :: 0 <= i < |s| ==> IsDigit(s[i])
  }

  function DigitChar(d: nat): (c: char)
    requires d < 10
    ensures IsDigit(c)
  {
    (48 + d) as char
  }

  function DigitValue(c: char): nat
    requires IsDigit(c)
  {
    c as int - 48
  }

  /** The digits of n, most significant first. */
  function NatToDecimal(n: nat): (s: string)
    ensures |s| >= 1 && AllDigits(s)
    ensures s[0] == '0' ==> n == 0
    decreases n
  {
    if n < 10 then [DigitChar(n)] else NatToDecimal(n / 10) + [DigitChar(n % 10)]
  }

  /** A minus sign for negative values, then the digits of the magnitude. */
  function IntToDecimal(x: int): (s: string)
    ensures |s| >= 1
  {
    if x < 0 then "-" + NatToDecimal(-x) else NatToDecimal(x)
  }

  /** The value of a string of digits. */
  function ParseNat(s: string): nat
    requires AllDigits(s)
    decreases |s|
  {
    if s == [] then 0 else 10 * ParseNat(s[..|s| - 1]) + DigitValue(s[|s| - 1])
  }

  function ParseInt(s: string): int
    requires |s| >= 1 && (s[0] == '-' ==> AllDigits(s[1..])) && (s[0] != '-' ==> AllDigits(s))
  {
    if s[0] == '-' then -(ParseNat(s[1..]) as int) else ParseNat(s)
  }

  /** Reading the digits back gives the number. */
  lemma {:induction false} NatRoundTrip(n: nat)
    ensures ParseNat(NatToDecimal(n)) == n
    decreases n
  {
    if n >= 10 {
      NatRoundTrip(n / 10);
      var s := NatToDecimal(n);
      assert s[..|s| - 1] == NatToDecimal(n / 10);
    }
  }

  /** Reading the rendering of any integer back gives the integer. */
  lemma IntRoundTrip(x: int)
    ensures var s := IntToDecimal(x);
      (s[0] == '-' ==> AllDigits(s[1..])) && (s[0] != '-' ==> AllDigits(s)) && ParseInt(s) == x
  {
    var s := IntToDecimal(x);
    if x < 0 {
      assert s[1..] == NatToDecimal(-x);
      NatRoundTrip(-x);
    } else {
      NatRoundTrip(x);
    }
  }

  /** A byte value takes one to three digits. */
  lemma ByteDecimalLength(b: nat)
    requires b < 0x100
    ensures 1 <= |NatToDecimal(b)| <= 3
  {
    if b >= 10 {
      assert b / 10 < 10 || b / 10 / 10 < 10;
      if b / 10 >= 10 {
        assert |NatToDecimal(b / 10)| == 2;
      }
    }
  }
}
