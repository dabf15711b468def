/**
 * Python's `str(n)` for an integer `n`: an optional minus sign, then decimal digits
 * with no leading zero, and "0" for zero. `ParseDecimal` reads that form back.
 */
module Decimal {
  import opened Wrappers

  predicate IsDigit(c: char) {
    '0' <= c <= '9'
  }

  predicate AllDigits(s: string) {
    forall i :: 0 <= i < |s| ==> IsDigit(s[i])
  }

  function DigitValue(c: char): (d: nat)
    requires IsDigit(c)
    ensures d < 10
    ensures d == 0 <==> c == '0'
  {
    c as int - '0' as int
  }

  function DigitChar(d: nat): (c: char)
    requires d < 10
    ensures IsDigit(c) && DigitValue(c) == d
  {
    ('0' as int + d) as char
  }

  /** The form `str` gives a non-negative integer: digits only, no leading zero. */
  predicate IsCanonicalNat(s: string) {
    |s| > 0 && AllDigits(s) && (s[0] == '0' ==> |s| == 1)
  }

  /** The form `str` gives any integer: a canonical magnitude, preceded by '-' for a
      negative number (so "-0" is not canonical). */
  predicate IsCanonicalInt(s: string) {
    if |s| > 0 && s[0] == '-' then IsCanonicalNat(s[1..]) && s[1..] != "0"
    else IsCanonicalNat(s)
  }

  /** The decimal digits of `n`, most significant first. */
  function NatToDecimal(n: nat): (s: string)
    ensures IsCanonicalNat(s)
    ensures s[0] == '0' <==> n == 0
    decreases n
  {
    if n < 10 then [DigitChar(n)] else NatToDecimal(n / 10) + [DigitChar(n % 10)]
  }

  /** `str(n)`: canonical, and it starts with '-' exactly when `n` is negative. */
  function DecimalString(n: int): (s: string)
    ensures IsCanonicalInt(s)
    ensures s[0] == '-' <==> n < 0
  {
    if n < 0 then "-" + NatToDecimal(-n) else NatToDecimal(n)
  }

  /** The number a string of digits denotes. */
  function DigitsValue(s: string): nat
    requires AllDigits(s)
    decreases |s|
  {
    if s == [] then 0 else DigitsValue(s[..|s| - 1]) * 10 + DigitValue(s[|s| - 1])
  }

  /** Reads a canonical decimal integer; anything else is refused. */
  function ParseDecimal(s: string): (r: Option<int>)
    ensures r.Some? <==> IsCanonicalInt(s)
    ensures r.Some? ==> (r.value < 0 <==> s[0] == '-')
  {
    if !IsCanonicalInt(s) then None
    else if s[0] == '-' then
      NonzeroLeadPositive(s[1..]);
      Some(-(DigitsValue(s[1..]) as int))
    else Some(DigitsValue(s))
  }

  /** A digit string that does not start with '0' denotes a positive number. */
  lemma {:induction false} NonzeroLeadPositive(s: string)
    requires |s| > 0 && AllDigits(s) && s[0] != '0'
    ensures DigitsValue(s) > 0
  {
    if |s| > 1 {
      NonzeroLeadPositive(s[..|s| - 1]);
    }
  }

  lemma {:induction false} NatToDecimalValue(n: nat)
    ensures DigitsValue(NatToDecimal(n)) == n
    decreases n
  {
    var s := NatToDecimal(n);
    if n >= 10 {
      NatToDecimalValue(n / 10);
      assert s[..|s| - 1] == NatToDecimal(n / 10);
    }
  }

  lemma {:induction false} CanonicalNatRoundTrip(s: string)
    requires IsCanonicalNat(s)
    ensures NatToDecimal(DigitsValue(s)) == s
    decreases |s|
  {
    if |s| > 1 {
      var p := s[..|s| - 1];
      assert IsCanonicalNat(p);
      NonzeroLeadPositive(p);
      CanonicalNatRoundTrip(p);
      var v := DigitsValue(s);
      assert v / 10 == DigitsValue(p) && v % 10 == DigitValue(s[|s| - 1]);
      assert s == p + [s[|s| - 1]];
    }
  }

  /** Reading back `str(n)` gives `n`. */
  lemma DecimalRoundTrip(n: int)
    ensures ParseDecimal(DecimalString(n)) == Some(n)
  {
    var s := DecimalString(n);
    if n < 0 {
      assert s[1..] == NatToDecimal(-n);
      NatToDecimalValue(-n);
    } else {
      NatToDecimalValue(n);
    }
  }

  /** Every string `ParseDecimal` accepts is exactly what `str` prints for its value. */
  lemma ParseDecimalCanonical(s: string, n: int)
    requires ParseDecimal(s) == Some(n)
    ensures DecimalString(n) == s
  {
    if s[0] == '-' {
      CanonicalNatRoundTrip(s[1..]);
      assert s == "-" + s[1..];
    } else {
      CanonicalNatRoundTrip(s);
    }
  }

  /** Distinct integers have distinct decimal renderings. */
  lemma DecimalStringInjective(a: int, b: int)
    requires DecimalString(a) == DecimalString(b)
    ensures a == b
  {
    DecimalRoundTrip(a);
    DecimalRoundTrip(b);
  }

  /** A few renderings, as Python prints them. */
  lemma DecimalStringExamples()
    ensures DecimalString(42) == "42"
    ensures DecimalString(0) == "0"
    ensures DecimalString(-7) == "-7"
    ensures DecimalString(1000) == "1000"
  {
  }
}
