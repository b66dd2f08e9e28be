/**
 * Python's `"%.2f"` applied to a distance that is a whole number of
 * hundredths, and the reading of such a numeral back into hundredths.
 */
module Decimal {
  import opened Wrappers

  predicate IsDigit(c: char)
  {
    '0' <= c <= '9'
  }

  /** The characters a formatted number is made of. */
  predicate IsNumeralChar(c: char)
  {
    IsDigit(c) || c == '.' || c == '-'
  }

  predicate AllDigits(s: string)
  {
    forall k :: 0 <= k < |s| ==> IsDigit(s[k])
  }

  function DigitChar(d: nat): (c: char)
    requires d < 10
    ensures IsDigit(c)
  {
    (('0' as int) + d) as char
  }

  function DigitValue(c: char): (d: nat)
    requires IsDigit(c)
    ensures d < 10 && DigitChar(d) == c
  {
    (c as int) - ('0' as int)
  }

  /** The decimal numeral of `n`, without leading zeros. */
  function NatDigits(n: nat): (s: string)
    ensures |s| >= 1 && AllDigits(s)
    decreases n
  {
    if n < 10 then [DigitChar(n)] else NatDigits(n / 10) + [DigitChar(n % 10)]
  }

  function DigitsValue(s: string): nat
    requires AllDigits(s)
  {
    if |s| == 0 then 0 else DigitsValue(s[..|s| - 1]) * 10 + DigitValue(s[|s| - 1])
  }

  lemma {:induction false} DigitsRoundTrip(n: nat)
    ensures DigitsValue(NatDigits(n)) == n
    decreases n
  {
    if n >= 10 {
      DigitsRoundTrip(n / 10);
      var s := NatDigits(n);
      assert s[..|s| - 1] == NatDigits(n / 10);
    }
  }

  /** `n` hundredths written with two decimals: "12.30" for 1230. */
  function UnsignedText(n: nat): (s: string)
    ensures |s| >= 4 && s[|s| - 3] == '.'
    ensures AllDigits(s[..|s| - 3]) && IsDigit(s[|s| - 2]) && IsDigit(s[|s| - 1])
  {
    var s := NatDigits(n / 100) + "." + [DigitChar((n / 10) % 10), DigitChar(n % 10)];
    assert s[..|s| - 3] == NatDigits(n / 100);
    s
  }

  /** What `"%.2f" % (h / 100)` prints. */
  function FormatHundredths(h: int): (s: string)
    ensures forall k :: 0 <= k < |s| ==> IsNumeralChar(s[k])
  {
    if h < 0 then "-" + UnsignedText(-h) else UnsignedText(h)
  }

  /** Reads a numeral with exactly two decimals, as `FormatHundredths` writes them. */
  function ParseHundredths(s: string): Option<int>
  {
    if |s| > 0 && s[0] == '-' then
      match ParseUnsigned(s[1..])
      case None => None
      case Some(n) => Some(-(n as int))
    else
      ParseUnsigned(s)
  }

  function ParseUnsigned(s: string): Option<nat>
  {
    if |s| >= 4 && s[|s| - 3] == '.' && AllDigits(s[..|s| - 3])
       && IsDigit(s[|s| - 2]) && IsDigit(s[|s| - 1])
    then Some(DigitsValue(s[..|s| - 3]) * 100 + DigitValue(s[|s| - 2]) * 10 + DigitValue(s[|s| - 1]))
    else None
  }

  lemma UnsignedRoundTrip(n: nat)
    ensures ParseUnsigned(UnsignedText(n)) == Some(n)
  {
    var s := UnsignedText(n);
    DigitsRoundTrip(n / 100);
    assert s[..|s| - 3] == NatDigits(n / 100);
    assert DigitValue(s[|s| - 2]) == (n / 10) % 10;
    assert DigitValue(s[|s| - 1]) == n % 10;
    assert n / 10 == (n / 100) * 10 + (n / 10) % 10;
    assert n == (n / 10) * 10 + n % 10;
  }

  /** The printed branch length reads back as the exact distance it was printed from. */
  lemma FormatRoundTrip(h: int)
    ensures ParseHundredths(FormatHundredths(h)) == Some(h)
  {
    if h < 0 {
      UnsignedRoundTrip(-h);
      assert ("-" + UnsignedText(-h))[1..] == UnsignedText(-h);
    } else {
      UnsignedRoundTrip(h);
      assert UnsignedText(h)[0] != '-';
    }
  }
}
