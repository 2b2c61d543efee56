/** Byte arrays to lower-case hexadecimal text, as admin-auth.js writes both
    password digests and session tokens: `b.toString(16).padStart(2, '0')`
    for every byte, joined with no separator. */
module Hex {
  import opened Base
  import opened Radix

  /** One element of a Uint8Array. */
  type byte = x: int | 0 <= x < 256

  predicate IsLowerHex(c: char)
  {
    '0' <= c <= '9' || 'a' <= c <= 'f'
  }

  /** String.prototype.padStart(width, fill) with a one-character fill. */
  function PadStart(s: string, width: nat, fill: char): (r: string)
    ensures |r| == if |s| >= width then |s| else width
    ensures r[|r| - |s|..] == s
    ensures forall i :: 0 <= i < |r| - |s| ==> r[i] == fill
    decreases width - |s|
  {
    if |s| >= width then s else PadStart([fill] + s, width, fill)
  }

  /** The two hex digits of a byte, high nibble first. */
  function ByteToHex(b: byte): (r: string)
    ensures |r| == 2
    ensures IsLowerHex(r[0]) && IsLowerHex(r[1])
  {
    [DigitChar(b / 16), DigitChar(b % 16)]
  }

  /** A byte has one hex digit below 16 and two from there on. */
  lemma ByteDigits(b: byte)
    ensures |ToRadix(b, 16)| == if b < 16 then 1 else 2
  {
    ToRadixRoundTrip(b, 16);
    if b >= 16 {
      QuotientShrinks(b, 16);
      ToRadixRoundTrip(b / 16, 16);
    }
  }

  /** `bytes.map(ByteToHex).join('')`: two lower-case hex digits per byte. */
  function HexEncode(bytes: seq<byte>): (r: string)
    ensures |r| == 2 * |bytes|
    ensures forall i :: 0 <= i < |r| ==> IsLowerHex(r[i])
  {
    if bytes == [] then ""
    else
      var head, tail := ByteToHex(bytes[0]), HexEncode(bytes[1..]);
      assert IsLowerHex(head[0]) && IsLowerHex(head[1]);
      assert forall i :: 0 <= i < |tail| ==> IsLowerHex(tail[i]);
      var r := head + tail;
      assert forall i :: 0 <= i < |r| ==> r[i] == if i < 2 then head[i] else tail[i - 2];
      r
  }

  /** Value of one hex digit character (either case); `None` otherwise. */
  function HexValue(c: char): Option<nat>
  {
    if '0' <= c <= '9' then Some(c as int - '0' as int)
    else if 'a' <= c <= 'f' then Some(c as int - 'a' as int + 10)
    else if 'A' <= c <= 'F' then Some(c as int - 'A' as int + 10)
    else None
  }

  /** Reads hex text two digits per byte; `None` for odd length or a non-digit. */
  function HexDecode(s: string): Option<seq<byte>>
    decreases |s|
  {
    if |s| == 0 then Some([])
    else if |s| == 1 then None
    else match (HexValue(s[0]), HexValue(s[1]), HexDecode(s[2..]))
      case (Some(hi), Some(lo), Some(rest)) => Some([hi * 16 + lo] + rest)
      case _ => None
  }

  /** Each byte's two characters read back as that byte. */
  lemma ByteToHexRoundTrip(b: byte)
    ensures var r := ByteToHex(b);
            HexValue(r[0]).Some? && HexValue(r[1]).Some?
            && HexValue(r[0]).value * 16 + HexValue(r[1]).value == b
  {
  }

  /** The nibble pair is exactly what `b.toString(16).padStart(2, '0')`
      yields: one digit padded with '0' below 16, the two digits otherwise. */
  lemma ByteToHexIsPaddedToString(b: byte)
    ensures ByteToHex(b) == PadStart(ToRadix(b, 16), 2, '0')
  {
    if b < 16 {
      PaddedSingleDigit(b);
    } else {
      PaddedTwoDigits(b);
    }
  }

  lemma PaddedSingleDigit(b: byte)
    requires b < 16
    ensures ByteToHex(b) == PadStart(ToRadix(b, 16), 2, '0')
  {
    var d := ToRadix(b, 16);
    assert d == [DigitChar(b)];
    assert b / 16 == 0 && b % 16 == b;
    assert DigitChar(0) == '0';
    assert ByteToHex(b) == ['0'] + d;
    assert PadStart(d, 2, '0') == PadStart(['0'] + d, 2, '0');
  }

  lemma PaddedTwoDigits(b: byte)
    requires b >= 16
    ensures ByteToHex(b) == PadStart(ToRadix(b, 16), 2, '0')
  {
    QuotientShrinks(b, 16);
    var d := ToRadix(b, 16);
    assert d == ToRadix(b / 16, 16) + [DigitChar(b % 16)];
    assert ToRadix(b / 16, 16) == [DigitChar(b / 16)];
  }

  /** Decoding the hex text of a byte array gives the array back. */
  lemma {:induction false} HexRoundTrip(bytes: seq<byte>)
    ensures HexDecode(HexEncode(bytes)) == Some(bytes)
  {
    if bytes != [] {
      var s := HexEncode(bytes);
      var head := ByteToHex(bytes[0]);
      assert s == head + HexEncode(bytes[1..]);
      assert s[0] == head[0] && s[1] == head[1];
      assert s[2..] == HexEncode(bytes[1..]);
      ByteToHexRoundTrip(bytes[0]);
      HexRoundTrip(bytes[1..]);
      assert |s| >= 2;
      assert [bytes[0]] + bytes[1..] == bytes;
    }
  }

  /** Distinct byte arrays give distinct hex strings. */
  lemma HexInjective(a: seq<byte>, b: seq<byte>)
    ensures HexEncode(a) == HexEncode(b) ==> a == b
  {
    HexRoundTrip(a);
    HexRoundTrip(b);
  }
}
