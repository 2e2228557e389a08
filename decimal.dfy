/**
 * Decimal rendering of integers, as the `%d` conversion of the printf family
 * writes them (section 7.21.6.1 of ISO C: an optional minus sign followed by
 * the digits, no leading zeros, and "0" for zero), together with a parser
 * that undoes it.
 */
module Decimal {
  import opened Wrappers

  predicate IsDigit(c: char) {
    '0' <= c <= '9'
  }

  predicate AllDigits(s: string) {
    forall i :: 0 <= i < |s| ==> IsDigit(s[i])
  }

  function DigitChar(d: int): (c: char)
    requires 0 <= d < 10
    ensures IsDigit(c)
  {
    (('0' as int) + d) as char
  }

  function DigitValue(c: char): (d: int)
    requires IsDigit(c)
    ensures 0 <= d < 10 && DigitChar(d) == c
    ensures forall e :: 0 <= e < 10 && DigitChar(e) == c ==> e == d
  {
    (c as int) - ('0' as int)
  }

  /** The decimal digits of `n`, most significant first. */
  function Digits(n: nat): (s: string)
    ensures 1 <= |s| && AllDigits(s)
    ensures s[0] == '0' ==> n == 0
    ensures n < 10 <==> |s| == 1
  {
    if n < 10 then [DigitChar(n)] else Digits(n / 10) + [DigitChar(n % 10)]
  }

  /** The number a string of digits denotes. */
  function Value(s: string): (n: nat)
    requires AllDigits(s)
  {
    if |s| == 0 then 0 else Value(s[..|s| - 1]) * 10 + DigitValue(s[|s| - 1])
  }

  /** Appending a digit multiplies the value by ten and adds the digit. */
  lemma ValueAppend(s: string, c: char)
    requires AllDigits(s) && IsDigit(c)
    ensures AllDigits(s + [c]) && Value(s + [c]) == Value(s) * 10 + DigitValue(c)
  {
    assert (s + [c])[..|s|] == s;
  }

  /** Reading back the digits of `n` gives `n`. */
  lemma {:induction false} ValueOfDigits(n: nat)
    ensures Value(Digits(n)) == n
  {
    if n >= 10 {
      ValueAppend(Digits(n / 10), DigitChar(n % 10));
      ValueOfDigits(n / 10);
    }
  }

  /** Models `%d`: a minus sign before the digits of a negative number. */
  function FormatInt(n: int): (s: string)
    ensures 1 <= |s|
    ensures n < 0 <==> s[0] == '-'
    ensures n >= 0 ==> AllDigits(s)
    ensures n < 0 ==> AllDigits(s[1..]) && 1 < |s|
  {
    if n < 0 then "-" + Digits(-n) else Digits(n)
  }

  /** Reads a `%d` rendering back: an optional minus sign and at least one digit. */
  function ParseInt(s: string): (r: Option<int>)
    ensures r.Some? ==> 1 <= |s|
  {
    if 1 < |s| && s[0] == '-' && AllDigits(s[1..]) then Some(0 - Value(s[1..]))
    else if 1 <= |s| && AllDigits(s) then Some(Value(s))
    else None
  }

  /** Parsing a rendering recovers the number. */
  lemma ParseFormat(n: int)
    ensures ParseInt(FormatInt(n)) == Some(n)
  {
    var s := FormatInt(n);
    if n < 0 {
      assert s[1..] == Digits(-n);
      ValueOfDigits(-n);
    } else {
      assert s == Digits(n) && s[0] != '-';
      ValueOfDigits(n);
    }
  }

  /** Different numbers render differently. */
  lemma FormatIntInjective(a: int, b: int)
    requires FormatInt(a) == FormatInt(b)
    ensures a == b
  {
    ParseFormat(a);
    ParseFormat(b);
  }

  /** A rendering holds neither the characters ':' nor '%', nor a space. */
  lemma FormatIntPlain(n: int)
    ensures forall i :: 0 <= i < |FormatInt(n)| ==> FormatInt(n)[i] !in {':', '%', ' '}
  {
    var s := FormatInt(n);
    forall i | 0 <= i < |s|
      ensures s[i] !in {':', '%', ' '}
    {
      if n < 0 && i > 0 {
        assert s[i] == s[1..][i - 1];
      }
    }
  }

  lemma DigitsExamples()
    ensures FormatInt(0) == "0" && FormatInt(7) == "7" && FormatInt(42) == "42"
    ensures FormatInt(100) == "100" && FormatInt(-5) == "-5"
  {
  }
}
