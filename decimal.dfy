/**
 * Decimal text for non-negative integers, as both the browser page and the
 * iOS app produce it: JavaScript's `String(n)` and Swift's `"\(n)"` agree on
 * a plain run of decimal digits without sign or leading zeros. `ParseNumber`
 * is JavaScript's `Number(s)` restricted to the strings this system stores:
 * a run of decimal digits reads as its value, the empty string as 0, and
 * every other string as NaN (`None`).
 */
module Decimal {

  datatype Option<T> = None | Some(value: T)

  predicate IsDigit(c: char) {
    '0' <= c <= '9'
  }

  function DigitChar(d: nat): (c: char)
    requires d < 10
    ensures IsDigit(c) && (c as int) - ('0' as int) == d
  {
    ('0' as int + d) as char
  }

  function DigitValue(c: char): nat
    requires IsDigit(c)
  {
    (c as int) - ('0' as int)
  }

  predicate AllDigits(s: string) {
    forall i :: 0 <= i < |s| ==> IsDigit(s[i])
  }

  /** The value of a run of decimal digits, most significant first. */
  function DigitsValue(s: string): nat
    requires AllDigits(s)
  {
    if s == [] then 0 else DigitsValue(s[..|s| - 1]) * 10 + DigitValue(s[|s| - 1])
  }

  /** `String(n)` for a non-negative integer `n`. */
  function NatToString(n: nat): (s: string)
    ensures |s| >= 1
  {
    if n < 10 then [DigitChar(n)] else NatToString(n / 10) + [DigitChar(n % 10)]
  }

  /** `Number(s)` on the strings the system writes; `None` stands for NaN. */
  function ParseNumber(s: string): Option<nat> {
    if s == [] then Some(0)
    else if AllDigits(s) then Some(DigitsValue(s))
    else None
  }

  /** `String(n)` is digits only, and its first digit is zero only for zero. */
  lemma {:induction false} NatToStringDigits(n: nat)
    ensures AllDigits(NatToString(n))
    ensures NatToString(n)[0] == '0' <==> n == 0
  {
    if n >= 10 {
      NatToStringDigits(n / 10);
      var s := NatToString(n / 10);
      assert NatToString(n) == s + [DigitChar(n % 10)];
      assert NatToString(n)[0] == s[0];
    }
  }

  /** Reading back what `String(n)` wrote yields `n`. */
  lemma {:induction false} ParseNatToString(n: nat)
    ensures ParseNumber(NatToString(n)) == Some(n)
  {
    NatToStringDigits(n);
    DigitsOfNatToString(n);
  }

  lemma {:induction false} DigitsOfNatToString(n: nat)
    ensures AllDigits(NatToString(n)) && DigitsValue(NatToString(n)) == n
  {
    NatToStringDigits(n);
    var s := NatToString(n);
    if n >= 10 {
      DigitsOfNatToString(n / 10);
      assert s[..|s| - 1] == NatToString(n / 10);
    }
  }

  /** Different numbers are written differently. */
  lemma NatToStringInjective(m: nat, n: nat)
    requires NatToString(m) == NatToString(n)
    ensures m == n
  {
    ParseNatToString(m);
    ParseNatToString(n);
  }

  /** "NaN", which JavaScript writes for `String(NaN)`, reads back as NaN. */
  lemma NaNRoundTrip()
    ensures ParseNumber("NaN") == None
  {
    assert !IsDigit("NaN"[0]);
  }
}
