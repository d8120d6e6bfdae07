/** Percent-encoding in both directions: ECMAScript's `encodeURIComponent`, which writes each
    escaped UTF-8 byte as `%` and two upper-case hex digits (section 2.1 of RFC 3986), and the
    "percent-decode" of the WHATWG URL Standard (section 1.3), which query parsing applies. */
module Percent {
  import opened Utf8

  const Percent: byte := 0x25

  /** The characters `encodeURIComponent` leaves as they are: ECMAScript's uriUnreserved,
      that is ALPHA, DIGIT and `- _ . ! ~ * ' ( )`. */
  predicate IsUriUnreserved(c: char) {
    'A' <= c <= 'Z' || 'a' <= c <= 'z' || '0' <= c <= '9'
    || c == '-' || c == '_' || c == '.' || c == '!' || c == '~' || c == '*' || c == '\'' || c == '(' || c == ')'
  }

  /** The unreserved characters of RFC 3986 (section 2.3): ALPHA, DIGIT and `- . _ ~`. They pass
      through `encodeURIComponent`, query parsing and URL parsing unchanged. */
  predicate IsUnreserved(c: char) {
    'A' <= c <= 'Z' || 'a' <= c <= 'z' || '0' <= c <= '9' || c == '-' || c == '.' || c == '_' || c == '~'
  }

  /** One byte written as `%XY`, with upper-case hex digits. */
  function EscapeByte(b: byte): (r: string)
    ensures |r| == 3 && r[0] == '%'
    ensures IsUpperHex(r[1]) && IsUpperHex(r[2])
    ensures HexValue(r[1] as int) * 16 + HexValue(r[2] as int) == b as int
  {
    ['%', HexDigit(b / 16), HexDigit(b % 16)]
  }

  function EscapeBytes(bs: seq<byte>): (r: string)
    ensures |r| == 3 * |bs|
    ensures forall i :: 0 <= i < |r| ==> r[i] == '%' || (IsUriUnreserved(r[i]) && r[i] as int < 0x80)
  {
    if |bs| == 0 then "" else EscapeByte(bs[0]) + EscapeBytes(bs[1..])
  }

  /** One character as `encodeURIComponent` writes it: itself when unreserved, otherwise its UTF-8
      bytes escaped. */
  function EscapeChar(c: char): (r: string)
    ensures forall i :: 0 <= i < |r| ==> r[i] == '%' || (IsUriUnreserved(r[i]) && r[i] as int < 0x80)
  {
    if IsUriUnreserved(c) then [c] else EscapeBytes(EncodeChar(c))
  }

  /** ECMAScript's `encodeURIComponent` (section 19.2.6.5 of ECMA-262). The output holds only
      unreserved characters and `%`, so none of the query delimiters `& = + #` nor `/` or `?`. */
  function EncodeURIComponent(s: string): (r: string)
    ensures forall i :: 0 <= i < |r| ==> r[i] == '%' || IsUriUnreserved(r[i])
    ensures IsAscii(r)
  {
    if |s| == 0 then "" else EscapeChar(s[0]) + EncodeURIComponent(s[1..])
  }

  /** A string of unreserved characters is its own encoding. */
  lemma {:induction false} EncodeUnreservedIdentity(s: string)
    requires forall i :: 0 <= i < |s| ==> IsUriUnreserved(s[i])
    ensures EncodeURIComponent(s) == s
  {
    if |s| > 0 {
      EncodeUnreservedIdentity(s[1..]);
    }
  }

  predicate IsHexByte(b: byte) {
    0x30 <= b <= 0x39 || 0x41 <= b <= 0x46 || 0x61 <= b <= 0x66
  }

  function HexValue(b: byte): (d: nat)
    requires IsHexByte(b)
    ensures d < 16
  {
    if b <= 0x39 then b - 0x30 else if b <= 0x46 then b - 0x41 + 10 else b - 0x61 + 10
  }

  /** A digit or one of `A` to `F`: the hex digits `encodeURIComponent` writes. */
  predicate IsUpperHex(c: char) {
    '0' <= c <= '9' || 'A' <= c <= 'F'
  }

  function HexDigit(d: nat): (c: char)
    requires d < 16
    ensures IsUriUnreserved(c) && c as int < 0x80 && IsUpperHex(c)
    ensures IsHexByte(c as int) && HexValue(c as int) == d
  {
    if d < 10 then (0x30 + d) as char else (0x41 + d - 10) as char
  }

  /** Percent-decode: `%` followed by two hex digits becomes the byte they denote; every other
      byte, including a `%` without two hex digits after it, is kept. */
  function PercentDecode(b: seq<byte>): (r: seq<byte>)
    ensures |r| <= |b|
  {
    if |b| == 0 then []
    else if b[0] == Percent && |b| >= 3 && IsHexByte(b[1]) && IsHexByte(b[2]) then
      [HexValue(b[1]) * 16 + HexValue(b[2])] + PercentDecode(b[3..])
    else [b[0]] + PercentDecode(b[1..])
  }

  lemma DecodeTriplet(h1: byte, h2: byte, tail: seq<byte>)
    requires IsHexByte(h1) && IsHexByte(h2)
    ensures PercentDecode([Percent, h1, h2] + tail) == [HexValue(h1) * 16 + HexValue(h2)] + PercentDecode(tail)
  {
    var x := [Percent, h1, h2] + tail;
    assert x[3..] == tail;
  }

  lemma DecodeEscapedByte(b: byte, tail: seq<byte>)
    ensures PercentDecode(Encode(EscapeByte(b)) + tail) == [b] + PercentDecode(tail)
  {
    var h1, h2 := HexDigit(b / 16) as int, HexDigit(b % 16) as int;
    EscapeByteBytes(b);
    DecodeTriplet(h1, h2, tail);
    assert HexValue(h1) * 16 + HexValue(h2) == b;
  }

  /** The three ASCII bytes of `%XY`. */
  lemma EscapeByteBytes(b: byte)
    ensures Encode(EscapeByte(b)) == [Percent, HexDigit(b / 16) as int, HexDigit(b % 16) as int]
  {
    var e := EscapeByte(b);
    assert IsAscii(e);
    EncodeAscii(e);
  }

  /** Bytes without `%` are left as they are. */
  lemma {:induction false} PercentDecodeNoPercent(b: seq<byte>)
    requires Percent !in b
    ensures PercentDecode(b) == b
  {
    if |b| > 0 {
      PercentDecodeNoPercent(b[1..]);
    }
  }

  lemma {:induction false} DecodeEscapedBytes(bs: seq<byte>, rest: seq<byte>)
    ensures PercentDecode(Encode(EscapeBytes(bs)) + rest) == bs + PercentDecode(rest)
  {
    if |bs| > 0 {
      var e := EscapeByte(bs[0]);
      var tail := Encode(EscapeBytes(bs[1..])) + rest;
      EncodeAppend(e, EscapeBytes(bs[1..]));
      assert Encode(EscapeBytes(bs)) + rest == Encode(e) + tail;
      DecodeEscapedByte(bs[0], tail);
      DecodeEscapedBytes(bs[1..], rest);
      assert bs == [bs[0]] + bs[1..];
    } else {
      assert Encode(EscapeBytes(bs)) + rest == rest;
    }
  }

  lemma DecodeEscapedChar(c: char, rest: seq<byte>)
    ensures PercentDecode(Encode(EscapeChar(c)) + rest) == EncodeChar(c) + PercentDecode(rest)
  {
    if IsUriUnreserved(c) {
      EncodeAscii([c]);
      var x := Encode([c]) + rest;
      assert x == [c as int] + rest;
      assert x[0] == c as int && x[1..] == rest;
    } else {
      DecodeEscapedBytes(EncodeChar(c), rest);
    }
  }

  /** Percent-decoding undoes `encodeURIComponent` at the byte level: it yields the UTF-8
      encoding of the original string. */
  lemma {:induction false} PercentDecodeEncode(s: string)
    ensures PercentDecode(Encode(EncodeURIComponent(s))) == Encode(s)
  {
    if |s| == 0 {
      assert EncodeURIComponent(s) == "";
    } else {
      var head := EscapeChar(s[0]);
      var tail := EncodeURIComponent(s[1..]);
      EncodeAppend(head, tail);
      DecodeEscapedChar(s[0], Encode(tail));
      PercentDecodeEncode(s[1..]);
    }
  }
}
