/**
 * The two JavaScript number conversions the version comparator uses:
 * `Number(s) || 0` for each dotted version component and `parseInt(s, 10)`
 * for the build number. Integers are unbounded here; see README for the
 * forms of `Number` that are read as 0 instead.
 */
module JsNumber {
  import opened Wrappers
  import opened Text

  predicate IsDigit(c: char) {
    '0' <= c <= '9'
  }

  predicate AllDigits(s: string) {
    forall k :: 0 <= k < |s| ==> IsDigit(s[k])
  }

  function DigitValue(c: char): (d: nat)
    requires IsDigit(c)
    ensures d < 10
  {
    (c as int) - ('0' as int)
  }

  /** Value of a string of decimal digits, most significant first. */
  function DigitsValue(s: string): nat
    requires AllDigits(s)
    decreases |s|
  {
    if s == [] then 0 else 10 * DigitsValue(s[..|s| - 1]) + DigitValue(s[|s| - 1])
  }

  function Pow10(n: nat): (p: nat)
    ensures p >= 1
  {
    if n == 0 then 1 else 10 * Pow10(n - 1)
  }

  /** A string of `n` digits denotes a number below 10^n, and at least 10^(n-1) without a leading zero. */
  lemma {:induction false} DigitsValueBounds(s: string)
    requires AllDigits(s)
    ensures DigitsValue(s) < Pow10(|s|)
    ensures s != [] && s[0] != '0' ==> DigitsValue(s) >= Pow10(|s| - 1)
    decreases |s|
  {
    if s != [] {
      var init := s[..|s| - 1];
      DigitsValueBounds(init);
      if |s| > 1 && s[0] != '0' {
        assert init[0] == s[0];
      }
      if |s| == 1 && s[0] != '0' {
        assert DigitValue(s[0]) >= 1;
      }
    }
  }

  /** Digits compare numerically, not lexically: more significant digits win over a larger first digit. */
  lemma LongerNumberIsLarger(a: string, b: string)
    requires AllDigits(a) && AllDigits(b)
    requires |a| > |b| && a[0] != '0'
    ensures DigitsValue(a) > DigitsValue(b)
  {
    DigitsValueBounds(a);
    DigitsValueBounds(b);
    PowMonotone(|b|, |a| - 1);
  }

  lemma {:induction false} PowMonotone(m: nat, n: nat)
    requires m <= n
    ensures Pow10(m) <= Pow10(n)
    decreases n
  {
    if m < n { PowMonotone(m, n - 1); }
  }

  /**
   * `Number(s) || 0` for a version component: the trimmed text as a decimal
   * integer with an optional sign, the empty string as 0, and 0 for anything
   * `Number` would turn into NaN.
   */
  function NumberOrZero(s: string): int {
    var t := Trim(s);
    if AllDigits(t) then DigitsValue(t)
    else if |t| >= 2 && (t[0] == '+' || t[0] == '-') && AllDigits(t[1..]) then
      (if t[0] == '-' then -(DigitsValue(t[1..]) as int) else DigitsValue(t[1..]))
    else 0
  }

  /** Length of the run of digits at the front of `s`. */
  function DigitPrefix(s: string): (n: nat)
    ensures n <= |s|
    ensures AllDigits(s[..n])
    ensures n < |s| ==> !IsDigit(s[n])
  {
    if s != [] && IsDigit(s[0]) then
      var n := 1 + DigitPrefix(s[1..]);
      assert s[..n] == [s[0]] + s[1..][..n - 1];
      n
    else 0
  }

  /**
   * `parseInt(s, 10)`: skip leading whitespace, read an optional sign and the
   * longest run of digits after it; `None` stands for NaN (no digit at all).
   */
  function ParseInt(s: string): Option<int> {
    var t := s[LeadingSpaces(s)..];
    var u := Unsigned(t);
    var d := u[..DigitPrefix(u)];
    if d == [] then None
    else Some(if t != [] && t[0] == '-' then -(DigitsValue(d) as int) else DigitsValue(d))
  }

  /** What follows an optional leading sign. */
  function Unsigned(t: string): string {
    if t != [] && (t[0] == '-' || t[0] == '+') then t[1..] else t
  }

  /** A build string made only of digits parses to its decimal value. */
  lemma ParseIntDigits(s: string)
    requires s != [] && AllDigits(s)
    ensures ParseInt(s) == Some(DigitsValue(s))
  {
    assert LeadingSpaces(s) == 0 by {
      assert !IsSpace(s[0]);
    }
    assert s[0..] == s;
    var n := DigitPrefix(s);
    assert n == |s|;
    assert s[..n] == s;
  }

  /** A build whose first character is neither whitespace, a sign nor a digit is NaN. */
  lemma ParseIntNaN(s: string)
    requires s != [] && !IsSpace(s[0]) && !IsDigit(s[0]) && s[0] != '-' && s[0] != '+'
    ensures ParseInt(s).None?
  {
    assert s[0..] == s;
  }
}
