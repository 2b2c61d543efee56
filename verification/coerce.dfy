/** The form-field coercion `parseInt(value) || 0` of admin-panel.js: parseInt
    with no radix argument, then NaN and zero become 0. */
module Coerce {
  import opened Base
  import opened Radix

  /** StrWhiteSpaceChar of ECMAScript: white space and line terminators,
      including every Zs space separator. */
  predicate IsStrWhiteSpace(c: char)
  {
    || c == '\t' || c == '\n' || c == '\U{000B}' || c == '\U{000C}' || c == '\r'
    || c == ' ' || c == '\U{00A0}' || c == '\U{1680}'
    || ('\U{2000}' <= c <= '\U{200A}')
    || c == '\U{2028}' || c == '\U{2029}' || c == '\U{202F}' || c == '\U{205F}'
    || c == '\U{3000}' || c == '\U{FEFF}'
  }

  /** Drops leading white space: the result is a suffix of `s` that does not
      start with white space, and everything dropped was white space. */
  function TrimStart(s: string): (r: string)
    ensures |r| <= |s| && r == s[|s| - |r|..]
    ensures |r| == 0 || !IsStrWhiteSpace(r[0])
    ensures forall i :: 0 <= i < |s| - |r| ==> IsStrWhiteSpace(s[i])
  {
    if |s| > 0 && IsStrWhiteSpace(s[0]) then TrimStart(s[1..]) else s
  }

  /** The longest prefix of `s` made of digits of the radix. */
  function DigitPrefix(s: string, radix: nat): (z: string)
    ensures z <= s
    ensures AllDigits(z, radix)
    ensures |z| == |s| || !IsDigit(s[|z|], radix)
  {
    if |s| > 0 && IsDigit(s[0], radix) then [s[0]] + DigitPrefix(s[1..], radix) else []
  }

  /** A `0x` or `0X` prefix, which makes parseInt read radix 16. */
  predicate HasHexPrefix(u: string)
  {
    |u| >= 2 && u[0] == '0' && (u[1] == 'x' || u[1] == 'X')
  }

  /** parseInt(s) with the radix left undefined: optional sign, then a `0x` or
      `0X` prefix selects radix 16, otherwise radix 10; the longest run of
      digits is read and anything after it ignored. `None` is NaN (no digit at
      all). A negative zero is returned as 0. */
  function ParseInt(s: string): Option<int>
  {
    var t := TrimStart(s);
    var negative := |t| > 0 && t[0] == '-';
    var u := if |t| > 0 && (t[0] == '-' || t[0] == '+') then t[1..] else t;
    ParseUnsigned(u, negative)
  }

  /** The digits after the sign, in the radix the prefix selects. */
  function ParseUnsigned(u: string, negative: bool): Option<int>
  {
    var radix := if HasHexPrefix(u) then 16 else 10;
    var z := DigitPrefix(if HasHexPrefix(u) then u[2..] else u, radix);
    if |z| == 0 then None
    else
      var v: int := DigitsValue(z, radix);
      Some(if negative then -v else v)
  }

  /** What parseInt makes of the first character after the white space: no
      character at all is NaN, a decimal digit not opening a `0x` prefix
      always yields a non-negative integer, and only a leading `-` yields a
      negative one. */
  lemma ParseIntShape(s: string)
    ensures |TrimStart(s)| == 0 ==> ParseInt(s).None?
    ensures var t := TrimStart(s);
            |t| > 0 && IsDigit(t[0], 10) && !HasHexPrefix(t) ==> ParseInt(s).Some? && ParseInt(s).value >= 0
    ensures ParseInt(s).Some? && ParseInt(s).value < 0 ==> TrimStart(s)[0] == '-'
  {
    var t := TrimStart(s);
    if |t| == 0 {
      UnsignedShape([], false);
    } else if t[0] == '-' {
    } else if t[0] == '+' {
      UnsignedShape(t[1..], false);
    } else {
      UnsignedShape(t, false);
    }
  }

  /** The digits after the sign: a decimal digit not opening a `0x` prefix is
      always read, nothing is NaN, and only a negative sign gives a negative
      result. */
  lemma UnsignedShape(u: string, negative: bool)
    ensures |u| == 0 ==> ParseUnsigned(u, negative).None?
    ensures |u| > 0 && IsDigit(u[0], 10) && !HasHexPrefix(u) ==> ParseUnsigned(u, negative).Some?
    ensures !negative && ParseUnsigned(u, negative).Some? ==> ParseUnsigned(u, negative).value >= 0
  {
    if |u| > 0 && IsDigit(u[0], 10) && !HasHexPrefix(u) {
      assert DigitPrefix(u, 10) != [];
    }
  }

  /** Leading white space never changes what parseInt reads. */
  lemma {:induction false} LeadingWhiteSpaceIgnored(ws: string, s: string)
    requires forall i :: 0 <= i < |ws| ==> IsStrWhiteSpace(ws[i])
    ensures ParseInt(ws + s) == ParseInt(s)
  {
    TrimWhiteSpace(ws, s);
  }

  /** Trimming skips a white-space prefix whatever follows it. */
  lemma {:induction false} TrimWhiteSpace(ws: string, s: string)
    requires forall i :: 0 <= i < |ws| ==> IsStrWhiteSpace(ws[i])
    ensures TrimStart(ws + s) == TrimStart(s)
    decreases |ws|
  {
    if |ws| == 0 {
      assert ws + s == s;
    } else {
      assert (ws + s)[0] == ws[0];
      assert (ws + s)[1..] == ws[1..] + s;
      TrimWhiteSpace(ws[1..], s);
    }
  }

  /** `parseInt(value) || 0`: NaN and zero (either sign) are falsy and become
      0, every other parsed integer is kept as it is. */
  function CoerceField(value: string): (r: real)
    ensures ParseInt(value).None? ==> r == 0.0
    ensures ParseInt(value).Some? ==> r == ParseInt(value).value as real
    ensures r == r.Floor as real
  {
    match ParseInt(value)
    case None => 0.0
    case Some(n) => if n == 0 then 0.0 else n as real
  }

  /** The decimal text JavaScript shows for a non-negative integer below 10^21. */
  function Decimal(n: nat): string
  {
    ToRadix(n, 10)
  }

  /** A string of decimal digits is read whole, in radix 10. */
  lemma ParseDigits(z: string, rest: string, negative: bool)
    requires |z| >= 1 && AllDigits(z, 10)
    requires |rest| == 0 || !IsDigit(rest[0], 10)
    requires |z| == 1 ==> (|rest| == 0 || (rest[0] != 'x' && rest[0] != 'X'))
    ensures ParseUnsigned(z + rest, negative).Some?
    ensures var v: int := DigitsValue(z, 10);
            ParseUnsigned(z + rest, negative).value == if negative then -v else v
  {
    var u := z + rest;
    if |z| >= 2 {
      assert u[1] == z[1] && IsDigit(z[1], 10);
    } else if |u| >= 2 {
      assert u[1] == rest[0];
    }
    assert !HasHexPrefix(u);
    DigitPrefixOfDigits(z, rest, 10);
  }

  /** Unsigned decimal digits pass through the white-space and sign steps
      untouched. */
  lemma ParseUnsignedText(u: string)
    requires |u| >= 1 && IsDigit(u[0], 10)
    ensures ParseInt(u) == ParseUnsigned(u, false)
  {
    assert !IsStrWhiteSpace(u[0]);
    assert TrimStart(u) == u;
  }

  /** On digits followed by a non-digit, the digit prefix is exactly the digits. */
  lemma {:induction false} DigitPrefixOfDigits(z: string, rest: string, radix: nat)
    requires AllDigits(z, radix)
    requires |rest| == 0 || !IsDigit(rest[0], radix)
    ensures DigitPrefix(z + rest, radix) == z
  {
    if |z| > 0 {
      assert (z + rest)[1..] == z[1..] + rest;
      DigitPrefixOfDigits(z[1..], rest, radix);
    } else {
      assert z + rest == rest;
    }
  }

  /** A field holding the decimal text of a non-negative integer reads back as
      that integer. */
  lemma DecimalFieldRoundTrip(n: nat)
    ensures ParseInt(Decimal(n)) == Some(n)
    ensures CoerceField(Decimal(n)) == n as real
  {
    var z := Decimal(n);
    assert z + [] == z;
    ToRadixRoundTrip(n, 10);
    ParseUnsignedText(z);
    ParseDigits(z, [], false);
  }

  /** The fraction of a decimal field is ignored: "12.75" reads as 12. */
  lemma FractionIgnored(n: nat, fraction: string)
    ensures ParseInt(Decimal(n) + "." + fraction) == Some(n)
  {
    var z := Decimal(n);
    var rest := "." + fraction;
    assert z + "." + fraction == z + rest;
    assert rest[0] == '.';
    assert DigitValue('.') == None;
    assert (z + rest)[0] == z[0];
    ToRadixRoundTrip(n, 10);
    ParseUnsignedText(z + rest);
    ParseDigits(z, rest, false);
  }

  /** A minus sign in front of digits negates them, so a negative entry stays
      negative after coercion. */
  lemma NegativeField(n: nat)
    ensures ParseInt("-" + Decimal(n)) == Some(-(n as int))
    ensures n > 0 ==> CoerceField("-" + Decimal(n)) == -(n as real)
  {
    NegativeParses(n);
  }

  lemma NegativeParses(n: nat)
    ensures ParseInt("-" + Decimal(n)) == Some(-(n as int))
  {
    var z := Decimal(n);
    ToRadixRoundTrip(n, 10);
    assert z + [] == z;
    ParseDigits(z, [], true);
    assert ParseUnsigned(z, true) == Some(-(n as int));
    ParseNegative(z);
  }

  /** A leading minus sign is stripped and remembered. */
  lemma ParseNegative(u: string)
    ensures ParseInt("-" + u) == ParseUnsigned(u, true)
  {
    var s := "-" + u;
    assert !IsStrWhiteSpace(s[0]);
    assert TrimStart(s) == s;
    assert s[1..] == u;
  }

  /** An empty field, or one with no digits, coerces to 0. */
  lemma EmptyFieldIsZero()
    ensures CoerceField("") == 0.0
    ensures CoerceField("abc") == 0.0
  {
    assert ParseInt("") == None;
    var s := "abc";
    assert !IsStrWhiteSpace(s[0]);
    assert TrimStart(s) == s;
    assert !HasHexPrefix(s);
    assert !IsDigit(s[0], 10);
    assert DigitPrefix(s, 10) == [];
    assert ParseInt(s) == None;
  }
}
