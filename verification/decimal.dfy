/** Decimal digit strings: the value `long(digits)` gives them, and the text
    `"%d" % n` produces. */
module Decimal {
  import opened Text

  function DigitValue(c: char): nat
    requires IsDigit(c)
  {
    (c as int) - ('0' as int)
  }

  function DigitChar(d: nat): (c: char)
    requires d < 10
    ensures IsDigit(c) && DigitValue(c) == d
  {
    ['0', '1', '2', '3', '4', '5', '6', '7', '8', '9'][d]
  }

  /** `long(s)` for a non-empty string of decimal digits (leading zeros allowed). */
  function Value(s: string): nat
    requires AllDigits(s)
    decreases |s|
  {
    if |s| == 0 then 0 else 10 * Value(s[..|s| - 1]) + DigitValue(s[|s| - 1])
  }

  /** Digits without a leading zero, except for `0` itself: the form `"%d"`
      prints. */
  predicate IsCanonicalNat(s: string) {
    |s| >= 1 && AllDigits(s) && (|s| == 1 || s[0] != '0')
  }

  /** `"%d" % n` for a non-negative `n`: canonical digits that read back to `n`. */
  function NatToString(n: nat): (s: string)
    ensures IsCanonicalNat(s)
    ensures Value(s) == n
    ensures s == "0" <==> n == 0
  {
    if n < 10 then [DigitChar(n)]
    else
      var s := NatToString(n / 10) + [DigitChar(n % 10)];
      assert s[..|s| - 1] == NatToString(n / 10);
      s
  }

  /** Text that `"%d"` can produce: digits, optionally after a minus sign. */
  predicate IsIntText(s: string) {
    (|s| >= 1 && AllDigits(s)) || (|s| >= 2 && s[0] == '-' && AllDigits(s[1..]))
  }

  function IntValue(s: string): int
    requires IsIntText(s)
  {
    if AllDigits(s) then Value(s) else -(Value(s[1..]) as int)
  }

  /** Canonical digits, or a minus sign before canonical digits other than
      `0`: no leading zeros and no `-0`. */
  predicate IsCanonicalInt(s: string) {
    IsCanonicalNat(s) || (|s| >= 2 && s[0] == '-' && IsCanonicalNat(s[1..]) && s[1] != '0')
  }

  /** `"%d" % i` for any integer `i`: canonical text whose sign is that of
      `i` and that reads back to `i`. */
  function IntToString(i: int): (s: string)
    ensures IsCanonicalInt(s) && IsIntText(s)
    ensures s[0] == '-' <==> i < 0
    ensures IntValue(s) == i
  {
    if i < 0 then
      var s := "-" + NatToString(-i);
      assert s[1..] == NatToString(-i);
      assert !IsDigit(s[0]);
      s
    else NatToString(i)
  }

  /** A canonical digit string with a non-zero first digit has a positive
      value. */
  lemma {:induction false} LeadingDigitPositive(s: string)
    requires IsCanonicalNat(s) && s[0] != '0'
    ensures Value(s) >= 1
    decreases |s|
  {
    if |s| > 1 {
      LeadingDigitPositive(s[..|s| - 1]);
    }
  }

  /** Printing the value of canonical digits gives the digits back. */
  lemma {:induction false} NatTextRoundTrip(s: string)
    requires IsCanonicalNat(s)
    ensures NatToString(Value(s)) == s
    decreases |s|
  {
    var d := s[|s| - 1];
    assert DigitChar(DigitValue(d)) == d;
    if |s| > 1 {
      var p := s[..|s| - 1];
      LeadingDigitPositive(p);
      NatTextRoundTrip(p);
      LastDigitSplit(Value(p), DigitValue(d));
      assert s == p + [d];
    }
  }

  /** Appending a digit: `"%d" % (10 * q + d)` is `"%d" % q` followed by `d`. */
  lemma LastDigitSplit(q: nat, d: nat)
    requires q >= 1 && d < 10
    ensures NatToString(10 * q + d) == NatToString(q) + [DigitChar(d)]
  {
    assert (10 * q + d) / 10 == q && (10 * q + d) % 10 == d;
  }

  /** Printing the value of canonical integer text gives the text back, so
      `IntToString` is a bijection onto canonical text. */
  lemma IntTextRoundTrip(s: string)
    requires IsCanonicalInt(s)
    ensures IsIntText(s) && IntToString(IntValue(s)) == s
  {
    if IsCanonicalNat(s) {
      NatTextRoundTrip(s);
    } else {
      assert !IsDigit(s[0]);
      var t := s[1..];
      NatTextRoundTrip(t);
      LeadingDigitPositive(t);
      assert s == "-" + t;
    }
  }

  /** Distinct integers print as distinct text. */
  lemma IntToStringInjective(i: int, j: int)
    requires IntToString(i) == IntToString(j)
    ensures i == j
  {
  }
}
