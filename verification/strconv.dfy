/**
 strconv.Itoa: the decimal text of an integer, as the status-code check renders
 the response's status code before comparing it with the configured codes.
 */
module Strconv {

  predicate IsDigit(c: char)
  {
    '0' <= c <= '9'
  }

  function DigitChar(d: int): (c: char)
    requires 0 <= d <= 9
    ensures IsDigit(c)
  {
    ('0' as int + d) as char
  }

  function DigitValue(c: char): int
    requires IsDigit(c)
  {
    c as int - '0' as int
  }

  /**
   The value of a string of decimal digits, read most significant digit first.
   This is the reference reading that the formatting functions are checked against.
   */
  function DecimalValue(s: string): nat
    requires forall k :: 0 <= k < |s| ==> IsDigit(s[k])
  {
    if |s| == 0 then 0
    else DecimalValue(s[..|s| - 1]) * 10 + DigitValue(s[|s| - 1])
  }

  /** The value of an optionally minus-signed decimal string. */
  function SignedValue(s: string): int
    requires |s| > 0
    requires forall k :: 0 <= k < |s| ==> IsDigit(s[k]) || (k == 0 && s[k] == '-')
  {
    if s[0] == '-' then -(DecimalValue(s[1..]) as int) else DecimalValue(s)
  }

  /** Decimal digits of a natural number, without leading zeros. */
  function FormatNat(n: nat): (s: string)
    ensures |s| > 0
    ensures forall k :: 0 <= k < |s| ==> IsDigit(s[k])
    ensures DecimalValue(s) == n
    ensures s[0] == '0' ==> n == 0
  {
    if n < 10 then [DigitChar(n)]
    else
      var s := FormatNat(n / 10) + [DigitChar(n % 10)];
      assert s[..|s| - 1] == FormatNat(n / 10);
      s
  }

  /** strconv.Itoa: a leading '-' for negative numbers, then the digits of the magnitude. */
  function Itoa(n: int): (s: string)
    ensures |s| > 0
    ensures forall k :: 0 <= k < |s| ==> IsDigit(s[k]) || (k == 0 && s[k] == '-')
    ensures SignedValue(s) == n
    ensures s[0] == '-' <==> n < 0
    ensures s[0] == '0' ==> s == "0"
    ensures s[0] == '-' ==> |s| > 1 && s[1] != '0'
  {
    if n < 0 then
      var s := "-" + FormatNat(-n);
      assert s[1..] == FormatNat(-n);
      s
    else FormatNat(n)
  }

  /** Different integers have different decimal texts. */
  lemma ItoaInjective(a: int, b: int)
    requires Itoa(a) == Itoa(b)
    ensures a == b
  {
    assert SignedValue(Itoa(a)) == SignedValue(Itoa(b));
  }

  /** The text of a three-digit number (every HTTP status class 1xx-9xx) has three characters. */
  lemma ItoaThreeDigits(n: int)
    requires 100 <= n <= 999
    ensures |Itoa(n)| == 3
  {
    assert FormatNat(n / 10 / 10) == [DigitChar(n / 10 / 10)];
    assert |FormatNat(n / 10)| == 2;
  }

  /** Decimal text never holds a space or a square bracket. */
  lemma ItoaHasNoListPunctuation(n: int)
    ensures ' ' !in Itoa(n) && '[' !in Itoa(n) && ']' !in Itoa(n)
  {
    var s := Itoa(n);
    forall k | 0 <= k < |s|
      ensures s[k] != ' ' && s[k] != '[' && s[k] != ']'
    {
      assert IsDigit(s[k]) || s[k] == '-';
    }
  }
}
