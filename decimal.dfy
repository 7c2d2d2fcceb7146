/**
 * Decimal rendering of integers as Python's `str(int)` and `"%d"` produce it,
 * the zero-padded `"%02d"` form, and the digit parser that inverts both.
 */
module Decimal {

  predicate IsDigit(c: char) {
    '0' <= c <= '9'
  }

  predicate AllDigits(s: string) {
    forall i :: 0 <= i < |s| ==> IsDigit(s[i])
  }

  function DigitChar(d: nat): (c: char)
    requires d < 10
    ensures IsDigit(c) && DigitValue(c) == d
  {
    (48 + d) as char
  }

  function DigitValue(c: char): (d: nat)
    requires IsDigit(c)
    ensures d < 10
  {
    c as int - 48
  }

  /** `str(n)`: the shortest decimal numeral, with a leading '-' for negative values. */
  function Dec(n: int): (r: string)
    ensures r != []
    ensures n >= 0 ==> AllDigits(r)
    ensures n < 0 ==> r[0] == '-' && AllDigits(r[1..])
    ensures n == 0 ==> r == "0"
    ensures n > 0 ==> r[0] != '0'
    ensures n < 0 ==> |r| >= 2 && r[1] != '0'
    ensures 0 <= n < 10 ==> |r| == 1
    ensures 10 <= n < 100 ==> |r| == 2
    decreases if n < 0 then 1 - n else n
  {
    if n < 0 then "-" + Dec(-n)
    else if n < 10 then [DigitChar(n)]
    else Dec(n / 10) + [DigitChar(n % 10)]
  }

  /** `"%02d" % v`: at least two digits, padded on the left with '0'. */
  function Pad2(v: nat): (r: string)
    ensures AllDigits(r) && |r| >= 2
    ensures v < 100 ==> |r| == 2
  {
    if v < 10 then "0" + Dec(v) else Dec(v)
  }

  /** The value of a string of decimal digits (leading zeros allowed). */
  function ParseNat(s: string): (n: nat)
    requires AllDigits(s)
  {
    if s == [] then 0 else ParseNat(s[..|s| - 1]) * 10 + DigitValue(s[|s| - 1])
  }

  /** An optional '-' followed by at least one digit. */
  predicate IsNumeral(s: string) {
    if s != [] && s[0] == '-' then |s| > 1 && AllDigits(s[1..]) else s != [] && AllDigits(s)
  }

  /** `int(s)` for a numeral. */
  function ParseInt(s: string): int
    requires IsNumeral(s)
  {
    if s[0] == '-' then -(ParseNat(s[1..]) as int) else ParseNat(s)
  }

  /** Reading back what `Dec` wrote gives the number. */
  lemma {:induction false} DecRoundTrip(n: nat)
    ensures ParseNat(Dec(n)) == n
  {
    if n >= 10 {
      var s := Dec(n);
      assert s[..|s| - 1] == Dec(n / 10);
      DecRoundTrip(n / 10);
    }
  }

  /** Every integer survives `Dec` followed by `ParseInt`. */
  lemma DecRoundTripInt(n: int)
    ensures IsNumeral(Dec(n)) && ParseInt(Dec(n)) == n
  {
    if n < 0 {
      assert Dec(n)[1..] == Dec(-n);
      DecRoundTrip(-n);
    } else {
      DecRoundTrip(n);
    }
  }

  /** A leading zero does not change the value of a digit string. */
  lemma {:induction false} LeadingZero(s: string)
    requires AllDigits(s)
    ensures AllDigits("0" + s) && ParseNat("0" + s) == ParseNat(s)
  {
    if s != [] {
      var t := "0" + s;
      assert t[..|t| - 1] == "0" + s[..|s| - 1];
      LeadingZero(s[..|s| - 1]);
    }
  }

  /** `"%02d"` reads back as the number it was given. */
  lemma Pad2RoundTrip(v: nat)
    ensures ParseNat(Pad2(v)) == v
  {
    DecRoundTrip(v);
    if v < 10 {
      LeadingZero(Dec(v));
    }
  }
}
