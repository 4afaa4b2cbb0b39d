/**
 Numeric reading of appointment identifiers. Identifiers are strings; the
 list keeps those made of decimal digits as numbers and treats every other
 identifier as having no numeric value.
 */
module Decimal {
  import opened Wrappers

  predicate IsDigit(c: char) {
    '0' <= c <= '9'
  }

  predicate AllDigits(s: string) {
    forall i :: 0 <= i < |s| ==> IsDigit(s[i])
  }

  function DigitValue(c: char): (d: nat)
    requires IsDigit(c)
    ensures d < 10
  {
    c as int - '0' as int
  }

  function DigitChar(d: nat): (c: char)
    requires d < 10
    ensures IsDigit(c) && DigitValue(c) == d
  {
    ('0' as int + d) as char
  }

  /** The value of a digit string, most significant digit first. */
  function DigitsValue(s: string): nat
    requires AllDigits(s)
    decreases |s|
  {
    if |s| == 0 then 0 else DigitsValue(s[..|s| - 1]) * 10 + DigitValue(s[|s| - 1])
  }

  /** The number a non-empty string of decimal digits denotes; None for anything else. */
  function Parse(s: string): Option<nat> {
    if |s| > 0 && AllDigits(s) then Some(DigitsValue(s)) else None
  }

  /** The shortest decimal spelling of `n`. */
  function Format(n: nat): (s: string)
    ensures |s| > 0 && AllDigits(s)
    decreases n
  {
    if n < 10 then [DigitChar(n)] else Format(n / 10) + [DigitChar(n % 10)]
  }

  /** Reading back a formatted number gives the number. */
  lemma {:induction false} ParseFormat(n: nat)
    ensures Parse(Format(n)) == Some(n)
  {
    DigitsValueFormat(n);
  }

  lemma {:induction false} DigitsValueFormat(n: nat)
    ensures DigitsValue(Format(n)) == n
    decreases n
  {
    var s := Format(n);
    if n < 10 {
      assert s[..0] == [];
    } else {
      DigitsValueFormat(n / 10);
      assert s[..|s| - 1] == Format(n / 10);
    }
  }
}
