/** Decimal strings as JavaScript uses them for array indices. */
module Decimals {
  predicate IsDigit(c: char) { '0' <= c <= '9' }

  function Digit(d: nat): (c: char)
    requires d < 10
    ensures IsDigit(c) && DigitValue(c) == d
  {
    '0' + d as char
  }

  function DigitValue(c: char): nat
    requires IsDigit(c)
  {
    (c - '0') as nat
  }

  /** The test `/^[0-9]+$/`. */
  predicate IsInt(s: string) {
    s != "" && forall i :: 0 <= i < |s| ==> IsDigit(s[i])
  }

  function Value(s: string): nat
    requires forall i :: 0 <= i < |s| ==> IsDigit(s[i])
  {
    if s == "" then 0 else 10 * Value(s[..|s|-1]) + DigitValue(s[|s|-1])
  }

  /** The property name of an array element. */
  function ToDecimal(n: nat): (s: string)
    ensures IsInt(s) && Value(s) == n && (|s| > 1 ==> s[0] != '0')
  {
    if n < 10 then [Digit(n)]
    else
      var s := ToDecimal(n / 10);
      assert (s + [Digit(n % 10)])[..|s|] == s;
      s + [Digit(n % 10)]
  }

  /** The largest index that an array can have, plus one. */
  const INDEX_LIMIT := 0xFFFF_FFFF

  /** A name that is an array index: decimal digits without a superfluous leading zero, below 2^32 - 1. */
  predicate IsIndex(s: string) {
    IsInt(s) && (|s| > 1 ==> s[0] != '0') && Value(s) < INDEX_LIMIT
  }

  lemma {:induction false} LeadingDigitCounts(s: string)
    requires IsInt(s) && s[0] != '0'
    ensures Value(s) > 0
  {
    if |s| > 1 { LeadingDigitCounts(s[..|s|-1]); }
  }

  /** Canonical decimals with the same value are the same string. */
  lemma {:induction false} CanonicalIsUnique(s: string, t: string)
    requires IsInt(s) && IsInt(t) && Value(s) == Value(t)
    requires (|s| > 1 ==> s[0] != '0') && (|t| > 1 ==> t[0] != '0')
    ensures s == t
    decreases |s| + |t|
  {
    var s', t' := s[..|s|-1], t[..|t|-1];
    assert s == s' + [s[|s|-1]] && t == t' + [t[|t|-1]];
    assert Value(s) == 10 * Value(s') + DigitValue(s[|s|-1]);
    assert Value(t) == 10 * Value(t') + DigitValue(t[|t|-1]);
    assert Value(s') == Value(t') && s[|s|-1] == t[|t|-1];
    if |s| > 1 && |t| > 1 {
      CanonicalIsUnique(s', t');
    } else if |s| > 1 {
      LeadingDigitCounts(s');
    } else if |t| > 1 {
      LeadingDigitCounts(t');
    }
  }

  /** Different numbers have different names. */
  lemma {:induction false} ToDecimalInjective(m: nat, n: nat)
    ensures ToDecimal(m) == ToDecimal(n) ==> m == n
  {
  }
}
