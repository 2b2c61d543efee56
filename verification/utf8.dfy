/** TextEncoder.encode: the UTF-8 bytes hashPassword feeds to SHA-256. */
module Utf8 {
  import opened Base
  import opened Hex

  /** UTF-8 form of one Unicode scalar value: one to four bytes. */
  function EncodeChar(c: char): (r: seq<byte>)
    ensures 1 <= |r| <= 4
  {
    var v := c as int;
    if v < 0x80 then [v]
    else if v < 0x800 then [0xC0 + v / 64, 0x80 + v % 64]
    else if v < 0x1_0000 then [0xE0 + v / 4096, 0x80 + (v / 64) % 64, 0x80 + v % 64]
    else [0xF0 + v / 262144, 0x80 + (v / 4096) % 64, 0x80 + (v / 64) % 64, 0x80 + v % 64]
  }

  /** `new TextEncoder().encode(s)`. */
  function Encode(s: string): (r: seq<byte>)
    ensures |s| <= |r| <= 4 * |s|
  {
    if s == [] then [] else EncodeChar(s[0]) + Encode(s[1..])
  }

  /** A Unicode scalar value: a code point that is not a surrogate. */
  predicate IsScalar(v: int)
  {
    0 <= v < 0xD800 || 0xE000 <= v < 0x11_0000
  }

  /** Reads one character from the front of `bs` by its lead byte, giving the
      character and the number of bytes it took. */
  function DecodeChar(bs: seq<byte>): Option<(char, nat)>
    requires |bs| > 0
  {
    var b0: int := bs[0];
    var vk: (int, nat) :=
      if b0 < 0x80 then (b0, 1)
      else if b0 < 0xE0 && |bs| >= 2 then ((b0 - 0xC0) * 64 + (bs[1] as int - 0x80), 2)
      else if b0 < 0xF0 && |bs| >= 3 then ((b0 - 0xE0) * 4096 + (bs[1] as int - 0x80) * 64 + (bs[2] as int - 0x80), 3)
      else if |bs| >= 4 then ((b0 - 0xF0) * 262144 + (bs[1] as int - 0x80) * 4096 + (bs[2] as int - 0x80) * 64 + (bs[3] as int - 0x80), 4)
      else (-1, 1);
    if IsScalar(vk.0) then Some((vk.0 as char, vk.1)) else None
  }

  /** Reads UTF-8 text back into characters; `None` when a sequence does not
      denote a scalar value. */
  function Decode(bs: seq<byte>): Option<string>
    decreases |bs|
  {
    if bs == [] then Some([])
    else match DecodeChar(bs)
      case None => None
      case Some((c, k)) =>
        if k > |bs| then None
        else match Decode(bs[k..])
          case None => None
          case Some(rest) => Some([c] + rest)
  }

  /** The lead byte of a character's encoding tells how many bytes follow,
      and the bytes give the character back. */
  lemma DecodeEncodedChar(c: char, rest: seq<byte>)
    ensures DecodeChar(EncodeChar(c) + rest) == Some((c, |EncodeChar(c)|))
  {
    var v := c as int;
    if v < 0x80 {
      assert (EncodeChar(c) + rest)[0] == v;
    } else if v < 0x800 {
      DecodeTwo(c, rest);
    } else if v < 0x1_0000 {
      DecodeThree(c, rest);
    } else {
      DecodeFour(c, rest);
    }
  }

  lemma DecodeTwo(c: char, rest: seq<byte>)
    requires 0x80 <= c as int < 0x800
    ensures DecodeChar(EncodeChar(c) + rest) == Some((c, 2))
  {
    var v := c as int;
    var bs := EncodeChar(c) + rest;
    assert bs[0] == 0xC0 + v / 64 && bs[1] == 0x80 + v % 64;
    assert (v / 64) * 64 + v % 64 == v;
  }

  lemma DecodeThree(c: char, rest: seq<byte>)
    requires 0x800 <= c as int < 0x1_0000
    ensures DecodeChar(EncodeChar(c) + rest) == Some((c, 3))
  {
    var v := c as int;
    var bs := EncodeChar(c) + rest;
    assert bs[0] == 0xE0 + v / 4096 && bs[1] == 0x80 + (v / 64) % 64 && bs[2] == 0x80 + v % 64;
    assert (v / 4096) * 64 + (v / 64) % 64 == v / 64;
    assert (v / 64) * 64 + v % 64 == v;
  }

  lemma DecodeFour(c: char, rest: seq<byte>)
    requires 0x1_0000 <= c as int
    ensures DecodeChar(EncodeChar(c) + rest) == Some((c, 4))
  {
    var v := c as int;
    var bs := EncodeChar(c) + rest;
    assert bs[0] == 0xF0 + v / 262144 && bs[1] == 0x80 + (v / 4096) % 64;
    assert bs[2] == 0x80 + (v / 64) % 64 && bs[3] == 0x80 + v % 64;
    assert (v / 262144) * 64 + (v / 4096) % 64 == v / 4096;
    assert (v / 4096) * 64 + (v / 64) % 64 == v / 64;
    assert (v / 64) * 64 + v % 64 == v;
  }

  /** Decoding the encoding of a string gives the string back. */
  lemma {:induction false} DecodeEncode(s: string)
    ensures Decode(Encode(s)) == Some(s)
  {
    if s != [] {
      var e := EncodeChar(s[0]);
      assert Encode(s) == e + Encode(s[1..]);
      DecodeEncodedChar(s[0], Encode(s[1..]));
      assert Encode(s)[|e|..] == Encode(s[1..]);
      DecodeEncode(s[1..]);
      assert [s[0]] + s[1..] == s;
    }
  }

  /** Distinct strings have distinct encodings. */
  lemma EncodeInjective(a: string, b: string)
    ensures Encode(a) == Encode(b) ==> a == b
  {
    DecodeEncode(a);
    DecodeEncode(b);
  }
}
