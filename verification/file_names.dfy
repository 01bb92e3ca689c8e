/** Disk-tier file names. A cached page is stored in a file whose name is the
    page number in decimal (`pageNo.toString()`), so the memory tier and the
    disk tier share one key. This module gives the decimal rendering and its
    inverse, which shows that two pages never share a file. */
module FileNames {

  function Digit(d: nat): (c: char)
    requires d < 10
    ensures '0' <= c <= '9'
  {
    ('0' as int + d) as char
  }

  function DigitValue(c: char): int {
    c as int - '0' as int
  }

  predicate IsDigit(c: char) {
    '0' <= c <= '9'
  }

  /** Decimal digits of `n`, most significant first, without leading zeros. */
  function NatToDecimal(n: nat): (s: string)
    ensures |s| >= 1
    ensures forall i :: 0 <= i < |s| ==> IsDigit(s[i])
    ensures |s| > 1 ==> s[0] != '0'
    decreases n
  {
    if n < 10 then [Digit(n)] else NatToDecimal(n / 10) + [Digit(n % 10)]
  }

  /** Kotlin's `Int.toString()`: a leading '-' for negative numbers. */
  function IntToString(i: int): (s: string)
    ensures |s| >= 1
    ensures (s[0] == '-') <==> i < 0
  {
    if i < 0 then "-" + NatToDecimal(-i) else NatToDecimal(i)
  }

  /** Reads back a non-empty run of decimal digits. */
  function ParseDecimal(s: string): int
    requires |s| >= 1
    decreases |s|
  {
    if |s| == 1 then DigitValue(s[0])
    else ParseDecimal(s[..|s| - 1]) * 10 + DigitValue(s[|s| - 1])
  }

  function ParseInt(s: string): int
    requires |s| >= 2 || (|s| == 1 && s[0] != '-')
  {
    if s[0] == '-' then -ParseDecimal(s[1..]) else ParseDecimal(s)
  }

  lemma {:induction false} DecimalRoundTrip(n: nat)
    ensures ParseDecimal(NatToDecimal(n)) == n
    decreases n
  {
    if n >= 10 {
      var s := NatToDecimal(n);
      assert s[..|s| - 1] == NatToDecimal(n / 10);
      assert s[|s| - 1] == Digit(n % 10);
      DecimalRoundTrip(n / 10);
    }
  }

  /** Parsing a file name gives back the page number it was made from. */
  lemma IntToStringRoundTrip(i: int)
    ensures var s := IntToString(i);
            (|s| >= 2 || (|s| == 1 && s[0] != '-')) && ParseInt(s) == i
  {
    if i < 0 {
      var s := IntToString(i);
      assert s[1..] == NatToDecimal(-i);
      DecimalRoundTrip(-i);
    } else {
      DecimalRoundTrip(i);
    }
  }

  /** Distinct pages are cached in distinct files. */
  lemma FileNameInjective(p: int, q: int)
    ensures IntToString(p) == IntToString(q) ==> p == q
  {
    IntToStringRoundTrip(p);
    IntToStringRoundTrip(q);
  }
}
