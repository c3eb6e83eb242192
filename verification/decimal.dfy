/**
 * Decimal rendering of an `int` as `printf("%i")` writes it, and the
 * matching reader. The history dump is made of such numbers.
 */
module Decimal {

  import opened Wrappers

  predicate IsDigit(c: char)
  {
    '0' <= c <= '9'
  }

  predicate AllDigits(s: string)
  {
    forall i :: 0 <= i < |s| ==> IsDigit(s[i])
  }

  function DigitChar(d: int): (c: char)
    requires 0 <= d < 10
    ensures IsDigit(c)
  {
    ('0' as int + d) as char
  }

  function DigitValue(c: char): (d: int)
    requires IsDigit(c)
    ensures 0 <= d < 10
  {
    c as int - '0' as int
  }

  /** The decimal digits of `n`, most significant first, without leading zeros. */
  function NatDigits(n: nat): (s: string)
    ensures |s| > 0 && AllDigits(s)
    ensures n > 0 ==> s[0] != '0'
    decreases n
  {
    if n < 10 then [DigitChar(n)] else NatDigits(n / 10) + [DigitChar(n % 10)]
  }

  /** `%i`: an optional minus sign followed by the digits of the magnitude. */
  function IntToString(n: int): (s: string)
    ensures |s| > 0
    ensures s[0] == '-' || IsDigit(s[0])
    ensures ' ' !in s && '\n' !in s
  {
    if n < 0 then "-" + NatDigits(-n) else NatDigits(n)
  }

  /** The number a string of digits denotes. */
  function ParseDigits(s: string): nat
    requires AllDigits(s)
  {
    if |s| == 0 then 0 else 10 * ParseDigits(s[..|s| - 1]) + DigitValue(s[|s| - 1])
  }

  /** Reads what `IntToString` writes; anything else is rejected. */
  function ParseInt(s: string): (r: Option<int>)
    ensures r.Some? ==> |s| > 0
  {
    if 1 < |s| && s[0] == '-' && AllDigits(s[1..]) then Some(0 - ParseDigits(s[1..]) as int)
    else if 0 < |s| && AllDigits(s) then Some(ParseDigits(s))
    else None
  }

  lemma {:induction false} NatDigitsRoundTrip(n: nat)
    ensures ParseDigits(NatDigits(n)) == n
    decreases n
  {
    if n >= 10 {
      var s := NatDigits(n);
      var front := NatDigits(n / 10);
      assert s == front + [DigitChar(n % 10)];
      assert s[..|s| - 1] == front;
      NatDigitsRoundTrip(n / 10);
    }
  }

  lemma ParseSigned(d: string)
    requires |d| > 0 && AllDigits(d)
    ensures ParseInt("-" + d) == Some(0 - ParseDigits(d) as int)
  {
    assert ("-" + d)[1..] == d;
  }

  lemma ParseUnsigned(d: string)
    requires |d| > 0 && AllDigits(d)
    ensures ParseInt(d) == Some(ParseDigits(d) as int)
  {
    assert d[0] != '-';
  }

  /** Reading a printed number gives the number back. */
  lemma IntToStringRoundTrip(n: int)
    ensures ParseInt(IntToString(n)) == Some(n)
  {
    if n < 0 {
      ParseSigned(NatDigits(-n));
      NatDigitsRoundTrip(-n);
    } else {
      ParseUnsigned(NatDigits(n));
      NatDigitsRoundTrip(n);
    }
  }
}
