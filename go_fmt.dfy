/** Decimal rendering of integers as Go's fmt.Sprintf("%d", n) produces it: an optional
    '-' followed by the digits of |n| without leading zeros ("0" for zero). */
module GoFmt {

  predicate IsDigit(c: char) {
    '0' <= c <= '9'
  }

  function DigitChar(d: nat): (c: char)
    requires d < 10
    ensures IsDigit(c)
  {
    (d + '0' as int) as char
  }

  /** Decimal digits of a natural number, most significant first. */
  function NatToDecimal(n: nat): (s: string)
    decreases n
  {
    if n < 10 then [DigitChar(n)] else NatToDecimal(n / 10) + [DigitChar(n % 10)]
  }

  /** What "%d" prints for a Go int: a '-' exactly for negative values, then digits, with
      no leading zero except in "0" itself. */
  function Decimal(i: int): (s: string)
    ensures |s| > (if i < 0 then 1 else 0)
    ensures s[0] == '-' <==> i < 0
    ensures i >= 0 ==> IsDigit(s[0])
    ensures forall k :: 1 <= k < |s| ==> IsDigit(s[k])
    ensures s == "0" || (s[0] != '0' && (i >= 0 || s[1] != '0'))
  {
    var n: nat := if i < 0 then -i else i;
    NatToDecimalDigits(n);
    NatToDecimalLead(n);
    if i < 0 then "-" + NatToDecimal(n) else NatToDecimal(n)
  }

  /** Reads back a digit string (the inverse of NatToDecimal on digit strings). */
  function DigitsValue(s: string): int
    decreases |s|
  {
    if |s| == 0 then 0 else DigitsValue(s[..|s| - 1]) * 10 + (s[|s| - 1] as int - '0' as int)
  }

  /** Reads back what Decimal printed. */
  function ParseDecimal(s: string): int
  {
    if |s| > 0 && s[0] == '-' then -DigitsValue(s[1..]) else DigitsValue(s)
  }

  lemma {:induction false} NatToDecimalDigits(n: nat)
    ensures |NatToDecimal(n)| > 0
    ensures forall k :: 0 <= k < |NatToDecimal(n)| ==> IsDigit(NatToDecimal(n)[k])
    decreases n
  {
    if n >= 10 {
      NatToDecimalDigits(n / 10);
    }
  }

  /** Only zero renders with a leading '0'. */
  lemma {:induction false} NatToDecimalLead(n: nat)
    ensures |NatToDecimal(n)| > 0
    ensures NatToDecimal(n)[0] == '0' ==> n == 0
    decreases n
  {
    if n >= 10 {
      NatToDecimalLead(n / 10);
    }
  }

  lemma {:induction false} NatToDecimalRoundTrip(n: nat)
    ensures DigitsValue(NatToDecimal(n)) == n
    decreases n
  {
    if n >= 10 {
      var s := NatToDecimal(n);
      NatToDecimalRoundTrip(n / 10);
      assert s[..|s| - 1] == NatToDecimal(n / 10);
    }
  }

  /** Parsing what "%d" printed gives back the integer. */
  lemma DecimalRoundTrip(i: int)
    ensures ParseDecimal(Decimal(i)) == i
  {
    NatToDecimalDigits(if i < 0 then -i else i);
    if i < 0 {
      NatToDecimalRoundTrip(-i);
      assert Decimal(i)[1..] == NatToDecimal(-i);
    } else {
      NatToDecimalRoundTrip(i);
    }
  }

  /** Distinct integers print as distinct strings. */
  lemma DecimalInjective(a: int, b: int)
    requires Decimal(a) == Decimal(b)
    ensures a == b
  {
    DecimalRoundTrip(a);
    DecimalRoundTrip(b);
  }
}
