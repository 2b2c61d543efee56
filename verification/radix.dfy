/** Digits in radix 2..36, as Number.prototype.toString and parseInt read and write them. */
module Radix {
  import opened Base

  /** Value of a digit character, either letter case; `None` for a non-digit. */
  function DigitValue(c: char): Option<nat>
  {
    if '0' <= c <= '9' then Some(c as int - '0' as int)
    else if 'a' <= c <= 'z' then Some(c as int - 'a' as int + 10)
    else if 'A' <= c <= 'Z' then Some(c as int - 'A' as int + 10)
    else None
  }

  predicate IsDigit(c: char, radix: nat)
  {
    DigitValue(c).Some? && DigitValue(c).value < radix
  }

  predicate AllDigits(s: string, radix: nat)
  {
    forall i :: 0 <= i < |s| ==> IsDigit(s[i], radix)
  }

  /** A digit or lower-case letter: the characters toString writes. */
  predicate IsLowerDigit(c: char)
  {
    '0' <= c <= '9' || 'a' <= c <= 'z'
  }

  /** The character toString writes for digit value `d`. */
  function DigitChar(d: nat): (c: char)
    requires d < 36
    ensures DigitValue(c) == Some(d)
    ensures IsLowerDigit(c)
  {
    if d < 10 then ('0' as int + d) as char else ('a' as int + d - 10) as char
  }

  /** Value of a digit string, most significant digit first. */
  function DigitsValue(s: string, radix: nat): nat
    requires AllDigits(s, radix)
  {
    if s == [] then 0
    else DigitsValue(s[..|s| - 1], radix) * radix + DigitValue(s[|s| - 1]).value
  }

  /** Number.prototype.toString(radix) for a non-negative integer: at least one
      digit, every one a lower-case digit of the radix. */
  function ToRadix(n: nat, radix: nat): (s: string)
    requires 2 <= radix <= 36
    ensures |s| >= 1
    ensures AllDigits(s, radix)
    ensures forall i :: 0 <= i < |s| ==> IsLowerDigit(s[i])
    decreases n
  {
    if n < radix then [DigitChar(n)]
    else
      QuotientShrinks(n, radix);
      ToRadix(n / radix, radix) + [DigitChar(n % radix)]
  }

  /** Reading back what toString wrote gives the number again; only numbers
      below the radix take a single digit. */
  lemma {:induction false} ToRadixRoundTrip(n: nat, radix: nat)
    requires 2 <= radix <= 36
    ensures DigitsValue(ToRadix(n, radix), radix) == n
    ensures |ToRadix(n, radix)| == 1 <==> n < radix
    decreases n
  {
    if n >= radix {
      var q, d := n / radix, n % radix;
      assert n == q * radix + d;
      var high := ToRadix(q, radix);
      var s := ToRadix(n, radix);
      assert s == high + [DigitChar(d)];
      assert s[..|s| - 1] == high;
      QuotientShrinks(n, radix);
      ToRadixRoundTrip(q, radix);
      assert DigitsValue(s, radix) == DigitsValue(high, radix) * radix + d;
      assert |s| == |high| + 1;
    }
  }

  /** Division by a radix moves towards zero. */
  lemma QuotientShrinks(n: nat, radix: nat)
    requires n >= 1 && radix >= 2
    ensures n / radix < n
  {
    var q := n / radix;
    assert n >= q * radix;
    assert q * radix == q * 2 + q * (radix - 2);
    assert q * (radix - 2) >= 0;
  }
}
