/**
 * Decimal text of natural numbers: the ids of the to-do store are made with
 * JavaScript's `String(n)` and read back with `Number(id)`; the summary line
 * interpolates counts the same way.  This module gives both directions and
 * proves that they are inverse on canonical numerals.
 */
module Decimal {

  predicate IsDigit(c: char) {
    '0' <= c <= '9'
  }

  predicate IsDigits(s: string) {
    forall i :: 0 <= i < |s| ==> IsDigit(s[i])
  }

  /** The numerals `String(n)` produces: non-empty, digits only, no leading zero except "0" itself. */
  predicate IsCanonical(s: string) {
    |s| > 0 && IsDigits(s) && (s[0] == '0' ==> |s| == 1)
  }

  function DigitValue(c: char): (d: nat)
    requires IsDigit(c)
    ensures d < 10
    ensures c == (d + '0' as int) as char
  {
    c as int - '0' as int
  }

  function DigitChar(d: nat): (c: char)
    requires d < 10
    ensures IsDigit(c) && DigitValue(c) == d
  {
    (d + '0' as int) as char
  }

  /** `String(n)` for a natural number n. */
  function NatToString(n: nat): (s: string)
    ensures IsCanonical(s)
    ensures s[0] == '0' <==> n == 0
  {
    if n < 10 then [DigitChar(n)] else NatToString(n / 10) + [DigitChar(n % 10)]
  }

  /** `Number(s)` for a string of decimal digits (`Number("")` is 0 in JavaScript as well). */
  function ParseDecimal(s: string): (n: nat)
    requires IsDigits(s)
    ensures |s| > 0 && s[0] != '0' ==> n > 0
  {
    if s == [] then 0
    else
      assert |s| > 1 ==> s[..|s| - 1][0] == s[0];
      10 * ParseDecimal(s[..|s| - 1]) + DigitValue(s[|s| - 1])
  }

  /** `Number(String(n)) == n`: the numeric sort key recovers the counter value an id was made from. */
  lemma {:induction false} ParseNatToString(n: nat)
    ensures ParseDecimal(NatToString(n)) == n
  {
    var s := NatToString(n);
    if n >= 10 {
      assert s[..|s| - 1] == NatToString(n / 10);
      ParseNatToString(n / 10);
    }
  }

  /** `String(Number(s)) == s` for every canonical numeral. */
  lemma {:induction false} NatToStringParse(s: string)
    requires IsCanonical(s)
    ensures NatToString(ParseDecimal(s)) == s
  {
    var p := s[..|s| - 1];
    var d := DigitValue(s[|s| - 1]);
    if |s| == 1 {
      assert s == [s[0]];
    } else {
      assert p[0] == s[0] != '0';
      NatToStringParse(p);
      var n := ParseDecimal(s);
      assert n == 10 * ParseDecimal(p) + d;
      assert n / 10 == ParseDecimal(p) && n % 10 == d;
      assert s == p + [s[|s| - 1]];
    }
  }

  /** Distinct counter values give distinct id strings. */
  lemma NatToStringInjective(m: nat, n: nat)
    ensures NatToString(m) == NatToString(n) <==> m == n
  {
    ParseNatToString(m);
    ParseNatToString(n);
  }

  /** Splits off the longest prefix of decimal digits. */
  function SplitDigits(s: string): (r: (string, string))
    ensures IsDigits(r.0) && r.0 + r.1 == s
    ensures r.1 == [] || !IsDigit(r.1[0])
  {
    if s != [] && IsDigit(s[0]) then
      var (d, rest) := SplitDigits(s[1..]);
      ([s[0]] + d, rest)
    else
      ([], s)
  }

  /** Digits followed by a non-digit (or nothing) split back into exactly those two parts. */
  lemma {:induction false} SplitDigitsOf(d: string, rest: string)
    requires IsDigits(d)
    requires rest == [] || !IsDigit(rest[0])
    ensures SplitDigits(d + rest) == (d, rest)
  {
    if d != [] {
      assert (d + rest)[1..] == d[1..] + rest;
      SplitDigitsOf(d[1..], rest);
      assert [d[0]] + d[1..] == d;
    } else {
      assert d + rest == rest;
    }
  }
}
