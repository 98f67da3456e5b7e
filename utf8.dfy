/** Text encoding of the utilities: `stringToWordArray` turns a string into
    its UTF-8 bytes (section 3 of RFC 3629) and `stringToHex` renders those
    bytes as lowercase hex. A Dafny `char` is a Unicode scalar value. */
module Utf8 {
  import opened Types
  import Hex

  predicate IsContinuation(b: byte) {
    0x80 <= b < 0xC0
  }

  /** The UTF-8 octets of one scalar value: one to four bytes, chosen by the
      range the value falls in. */
  function EncodeScalar(c: char): (r: seq<byte>)
    ensures 1 <= |r| <= 4
  {
    var cp := c as int;
    if cp < 0x80 then [cp as byte]
    else if cp < 0x800 then
      [(0xC0 + cp / 64) as byte, (0x80 + cp % 64) as byte]
    else if cp < 0x10000 then
      [(0xE0 + cp / 4096) as byte, (0x80 + cp / 64 % 64) as byte, (0x80 + cp % 64) as byte]
    else
      [(0xF0 + cp / 262144) as byte, (0x80 + cp / 4096 % 64) as byte,
       (0x80 + cp / 64 % 64) as byte, (0x80 + cp % 64) as byte]
  }

  /** `stringToWordArray` (utils.js:48-50): the UTF-8 encoding of `s`, one
      scalar value after another. */
  function StringToWordArray(s: string): (r: seq<byte>)
    ensures |s| <= |r| <= 4 * |s|
  {
    if s == [] then [] else EncodeScalar(s[0]) + StringToWordArray(s[1..])
  }

  /** Reads one scalar value off the front of `b`, rejecting a bad lead or
      continuation byte, an overlong form, a surrogate and a value above
      U+10FFFF; returns it with the number of bytes it took. */
  function DecodeScalar(b: seq<byte>): (r: Option<(char, nat)>)
    ensures r.Some? ==> 1 <= r.value.1 <= |b|
  {
    if |b| == 0 then None
    else if b[0] < 0x80 then Some((b[0] as int as char, 1))
    else if 0xC0 <= b[0] < 0xE0 then
      if |b| < 2 || !IsContinuation(b[1]) then None
      else
        var cp := (b[0] as int - 0xC0) * 64 + (b[1] as int - 0x80);
        if cp < 0x80 then None else Some((cp as char, 2))
    else if 0xE0 <= b[0] < 0xF0 then
      if |b| < 3 || !IsContinuation(b[1]) || !IsContinuation(b[2]) then None
      else
        var cp := (b[0] as int - 0xE0) * 4096 + (b[1] as int - 0x80) * 64 + (b[2] as int - 0x80);
        if cp < 0x800 || 0xD800 <= cp < 0xE000 then None else Some((cp as char, 3))
    else if 0xF0 <= b[0] < 0xF8 then
      if |b| < 4 || !IsContinuation(b[1]) || !IsContinuation(b[2]) || !IsContinuation(b[3]) then None
      else
        var cp := (b[0] as int - 0xF0) * 262144 + (b[1] as int - 0x80) * 4096
                  + (b[2] as int - 0x80) * 64 + (b[3] as int - 0x80);
        if cp < 0x10000 || cp > 0x10FFFF then None else Some((cp as char, 4))
    else None
  }

  /** The UTF-8 decoder: the inverse of `StringToWordArray`, `None` on
      malformed input. */
  function Utf8Decode(b: seq<byte>): Option<string>
    decreases |b|
  {
    if b == [] then Some([])
    else match DecodeScalar(b)
      case None => None
      case Some((c, k)) =>
        match Utf8Decode(b[k..])
        case None => None
        case Some(rest) => Some([c] + rest)
  }

  /** Decoding reads back exactly the scalar value that was encoded, and
      nothing of what follows it. */
  lemma DecodeEncodedScalar(c: char, rest: seq<byte>)
    ensures DecodeScalar(EncodeScalar(c) + rest) == Some((c, |EncodeScalar(c)|))
  {
    var cp := c as int;
    if cp < 0x80 {
    } else if cp < 0x800 {
      DecodeTwoBytes(c, rest);
    } else if cp < 0x10000 {
      DecodeThreeBytes(c, rest);
    } else {
      DecodeFourBytes(c, rest);
    }
  }

  lemma DecodeTwoBytes(c: char, rest: seq<byte>)
    requires 0x80 <= c as int < 0x800
    ensures DecodeScalar(EncodeScalar(c) + rest) == Some((c, 2))
  {
    var cp := c as int;
    assert (cp / 64) * 64 + cp % 64 == cp;
  }

  lemma DecodeThreeBytes(c: char, rest: seq<byte>)
    requires 0x800 <= c as int < 0x10000
    ensures DecodeScalar(EncodeScalar(c) + rest) == Some((c, 3))
  {
    var cp := c as int;
    var b := EncodeScalar(c) + rest;
    assert b[0] as int - 0xE0 == cp / 4096;
    assert b[1] as int - 0x80 == cp / 64 % 64;
    assert b[2] as int - 0x80 == cp % 64;
    assert (cp / 4096) * 4096 + (cp / 64 % 64) * 64 + cp % 64 == cp;
  }

  lemma DecodeFourBytes(c: char, rest: seq<byte>)
    requires 0x10000 <= c as int
    ensures DecodeScalar(EncodeScalar(c) + rest) == Some((c, 4))
  {
    var cp := c as int;
    var b := EncodeScalar(c) + rest;
    var d0, d1, d2, d3 := cp / 262144, cp / 4096 % 64, cp / 64 % 64, cp % 64;
    FourDigits(cp);
    assert 0xF0 <= b[0] < 0xF8 && b[0] as int - 0xF0 == d0;
    assert IsContinuation(b[1]) && b[1] as int - 0x80 == d1;
    assert IsContinuation(b[2]) && b[2] as int - 0x80 == d2;
    assert IsContinuation(b[3]) && b[3] as int - 0x80 == d3;
  }

  /** A value below 2^21 is its four base-64 digits, the leading one below 8. */
  lemma FourDigits(cp: nat)
    requires cp <= 0x10FFFF
    ensures cp / 262144 < 5
    ensures (cp / 262144) * 262144 + (cp / 4096 % 64) * 4096 + (cp / 64 % 64) * 64 + cp % 64 == cp
  {
    var q1 := cp / 64;
    var q2 := q1 / 64;
    assert q2 == cp / 4096;
    assert q2 / 64 == cp / 262144;
  }

  /** UTF-8 round trip: decoding the encoding of any string gives it back. */
  lemma {:induction false} Utf8RoundTrip(s: string)
    ensures Utf8Decode(StringToWordArray(s)) == Some(s)
  {
    if s != [] {
      var e, rest := EncodeScalar(s[0]), StringToWordArray(s[1..]);
      DecodeEncodedScalar(s[0], rest);
      assert (e + rest)[|e|..] == rest;
      Utf8RoundTrip(s[1..]);
      assert [s[0]] + s[1..] == s;
    }
  }

  /** Distinct strings have distinct encodings. */
  lemma StringToWordArrayInjective(s: string, t: string)
    requires StringToWordArray(s) == StringToWordArray(t)
    ensures s == t
  {
    Utf8RoundTrip(s);
    Utf8RoundTrip(t);
  }

  /** The encoding of a concatenation is the concatenation of the encodings:
      strings combine at byte level. */
  lemma {:induction false} StringToWordArrayAppend(s: string, t: string)
    ensures StringToWordArray(s + t) == StringToWordArray(s) + StringToWordArray(t)
  {
    if s != [] {
      assert (s + t)[1..] == s[1..] + t;
      StringToWordArrayAppend(s[1..], t);
    } else {
      assert s + t == t;
    }
  }

  /** A string of ASCII characters encodes as one byte per character, each
      the character's code. */
  lemma {:induction false} AsciiEncoding(s: string)
    requires forall i :: 0 <= i < |s| ==> s[i] as int < 0x80
    ensures |StringToWordArray(s)| == |s|
    ensures forall i :: 0 <= i < |s| ==> StringToWordArray(s)[i] as int == s[i] as int
  {
    if s != [] {
      AsciiEncoding(s[1..]);
    }
  }

  /** `stringToHex` (utils.js:72-74): the lowercase hex of the UTF-8 bytes. */
  function StringToHex(s: string): (r: string)
    ensures |r| == 2 * |StringToWordArray(s)|
    ensures forall i :: 0 <= i < |r| ==> Hex.IsLowerHexDigit(r[i])
  {
    Hex.WordArrayToHex(StringToWordArray(s))
  }

  /** The hex text of a non-empty string decodes back to its UTF-8 bytes and
      from them to the string; the empty string gives "", which is not hex. */
  lemma StringToHexRoundTrip(s: string)
    ensures s != [] ==> Hex.HexToWordArray(StringToHex(s)) == Success(StringToWordArray(s))
    ensures s != [] ==> Utf8Decode(Hex.HexToWordArray(StringToHex(s)).value) == Some(s)
    ensures s == [] ==> StringToHex(s) == "" && !Hex.IsHexString(StringToHex(s))
  {
    if s != [] {
      Hex.WordArrayToHexRoundTrip(StringToWordArray(s));
      Utf8RoundTrip(s);
    }
  }
}
