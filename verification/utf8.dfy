/** UTF-8 as the WHATWG Encoding Standard uses it: the encoder behind `encodeURIComponent` and the
    "UTF-8 decode without BOM" step of query parsing, which replaces malformed input by U+FFFD. */
module Utf8 {
  import opened Wrappers

  type byte = b: int | 0 <= b < 0x100

  const Replacement: char := '\U{FFFD}'

  /** The UTF-8 encoding of one scalar value (RFC 3629, section 3). */
  function EncodeChar(c: char): (r: seq<byte>)
    ensures 1 <= |r| <= 4
    ensures |r| == 1 <==> c as int < 0x80
    ensures |r| == 1 ==> r[0] == c as int
    ensures |r| > 1 ==> forall i :: 0 <= i < |r| ==> r[i] >= 0x80
  {
    var n := c as int;
    var n1, n2, n3 := n / 0x40, n / 0x40 / 0x40, n / 0x40 / 0x40 / 0x40;
    if n < 0x80 then [n]
    else if n < 0x800 then [0xC0 + n1, 0x80 + n % 0x40]
    else if n < 0x1_0000 then [0xE0 + n2, 0x80 + n1 % 0x40, 0x80 + n % 0x40]
    else [0xF0 + n3, 0x80 + n2 % 0x40, 0x80 + n1 % 0x40, 0x80 + n % 0x40]
  }

  /** The UTF-8 encoding of a string. */
  function Encode(s: string): (r: seq<byte>)
    ensures |r| >= |s|
  {
    if |s| == 0 then [] else EncodeChar(s[0]) + Encode(s[1..])
  }

  lemma {:induction false} EncodeAppend(a: string, b: string)
    ensures Encode(a + b) == Encode(a) + Encode(b)
  {
    if |a| == 0 {
      assert a + b == b;
    } else {
      assert (a + b)[0] == a[0];
      assert (a + b)[1..] == a[1..] + b;
      EncodeAppend(a[1..], b);
      calc {
        Encode(a + b);
        EncodeChar(a[0]) + Encode(a[1..] + b);
        EncodeChar(a[0]) + (Encode(a[1..]) + Encode(b));
        (EncodeChar(a[0]) + Encode(a[1..])) + Encode(b);
      }
    }
  }

  predicate IsAscii(s: string) {
    forall i :: 0 <= i < |s| ==> s[i] as int < 0x80
  }

  /** An ASCII string encodes to its own character codes, one byte each. */
  lemma {:induction false} EncodeAscii(s: string)
    requires IsAscii(s)
    ensures |Encode(s)| == |s|
    ensures forall i :: 0 <= i < |s| ==> Encode(s)[i] == s[i] as int
  {
    if |s| > 0 {
      EncodeAscii(s[1..]);
    }
  }

  /** An ASCII byte occurs in the encoding exactly where its character occurs in the string:
      the bytes of a multi-byte sequence are all at or above 0x80. */
  lemma {:induction false} AsciiByteIn(s: string, b: byte)
    requires b < 0x80
    ensures b in Encode(s) <==> b as char in s
  {
    if |s| > 0 {
      AsciiByteIn(s[1..], b);
      assert s == [s[0]] + s[1..];
    }
  }

  /** The decoder's state after a byte at or above 0x80 that opens a sequence: how many continuation
      bytes it needs, the bounds the first of them must lie in, and the code point bits taken from the
      lead byte. */
  datatype Lead = Lead(needed: nat, lower: byte, upper: byte, bits: nat)

  /** Step 3 of the UTF-8 decoder's handler in the WHATWG Encoding Standard (section 9.1.1):
      None for a byte that cannot open a sequence. */
  function LeadOf(b: byte): (r: Option<Lead>)
    ensures r.Some? ==> 1 <= r.value.needed <= 3
    ensures r.Some? <==> 0xC2 <= b <= 0xF4
  {
    if 0xC2 <= b <= 0xDF then Some(Lead(1, 0x80, 0xBF, b - 0xC0))
    else if 0xE0 <= b <= 0xEF then
      Some(Lead(2, if b == 0xE0 then 0xA0 else 0x80, if b == 0xED then 0x9F else 0xBF, b - 0xE0))
    else if 0xF0 <= b <= 0xF4 then
      Some(Lead(3, if b == 0xF0 then 0x90 else 0x80, if b == 0xF4 then 0x8F else 0xBF, b - 0xF0))
    else None
  }

  /** Whether x is acceptable as the j-th continuation byte (1-based) after the lead. */
  predicate ContinuationOk(lead: Lead, j: nat, x: byte) {
    if j == 1 then lead.lower <= x <= lead.upper else 0x80 <= x <= 0xBF
  }

  /** How many bytes after the lead byte b[0] the decoder accepts, having accepted b[1..i]. */
  function Accepted(b: seq<byte>, lead: Lead, i: nat): (k: nat)
    requires 1 <= i <= lead.needed + 1 && i <= |b|
    ensures i - 1 <= k <= lead.needed && k < |b|
    ensures forall j :: i <= j <= k ==> ContinuationOk(lead, j, b[j])
    ensures k < lead.needed ==> k + 1 == |b| || !ContinuationOk(lead, k + 1, b[k + 1])
    decreases lead.needed + 1 - i
  {
    if i > lead.needed || i == |b| || !ContinuationOk(lead, i, b[i]) then i - 1
    else Accepted(b, lead, i + 1)
  }

  predicate IsScalar(n: int) {
    0 <= n < 0xD800 || 0xE000 <= n < 0x11_0000
  }

  /** The code point a complete sequence carries: the lead's bits followed by six bits per
      continuation byte (step 5 of the handler, `(cp << 6) | (byte & 0x3F)`). */
  function CodePoint(b: seq<byte>, lead: Lead): (n: int)
    requires |b| > 0 && LeadOf(b[0]) == Some(lead) && |b| > lead.needed
    requires forall j :: 1 <= j <= lead.needed ==> ContinuationOk(lead, j, b[j])
    ensures IsScalar(n)
    ensures lead.needed == 1 ==> 0x80 <= n < 0x800
    ensures lead.needed == 2 ==> 0x800 <= n < 0x1_0000
    ensures lead.needed == 3 ==> 0x1_0000 <= n
  {
    assert ContinuationOk(lead, 1, b[1]);
    var c1 := b[1] as int - 0x80;
    if lead.needed == 1 then lead.bits * 0x40 + c1
    else if lead.needed == 2 then
      assert ContinuationOk(lead, 2, b[2]);
      lead.bits * 0x1000 + c1 * 0x40 + (b[2] as int - 0x80)
    else
      assert ContinuationOk(lead, 2, b[2]) && ContinuationOk(lead, 3, b[3]);
      lead.bits * 0x4_0000 + c1 * 0x1000 + (b[2] as int - 0x80) * 0x40 + (b[3] as int - 0x80)
  }

  /** "UTF-8 decode without BOM": a malformed or truncated sequence yields one U+FFFD and decoding
      resumes at the first byte that did not fit it. */
  function Decode(b: seq<byte>): (s: string)
    ensures |s| <= |b|
    decreases |b|
  {
    if |b| == 0 then ""
    else if b[0] < 0x80 then [b[0] as char] + Decode(b[1..])
    else match LeadOf(b[0])
      case None => [Replacement] + Decode(b[1..])
      case Some(lead) =>
        var k := Accepted(b, lead, 1);
        if k == lead.needed then [CodePoint(b, lead) as char] + Decode(b[k + 1..])
        else [Replacement] + Decode(b[k + 1..])
  }

  /** Decoding reads back one encoded character and leaves what follows untouched. */
  lemma DecodeEncodeChar(c: char, rest: seq<byte>)
    ensures Decode(EncodeChar(c) + rest) == [c] + Decode(rest)
  {
    var n := c as int;
    var b := EncodeChar(c) + rest;
    if n < 0x80 {
      assert b[1..] == rest;
    } else if n < 0x800 {
      DecodeTwo(c, rest);
    } else if n < 0x1_0000 {
      DecodeThree(c, rest);
    } else {
      DecodeFour(c, rest);
    }
  }

  lemma DecodeTwo(c: char, rest: seq<byte>)
    requires 0x80 <= c as int < 0x800
    ensures Decode(EncodeChar(c) + rest) == [c] + Decode(rest)
  {
    var n := c as int;
    var b := EncodeChar(c) + rest;
    assert b[0] == 0xC0 + n / 0x40 && b[1] == 0x80 + n % 0x40;
    assert n == n / 0x40 * 0x40 + n % 0x40;
    var lead := LeadOf(b[0]).value;
    assert ContinuationOk(lead, 1, b[1]);
    assert Accepted(b, lead, 1) == 1;
    assert CodePoint(b, lead) == n;
    assert b[2..] == rest;
  }

  lemma DecodeThree(c: char, rest: seq<byte>)
    requires 0x800 <= c as int < 0x1_0000
    ensures Decode(EncodeChar(c) + rest) == [c] + Decode(rest)
  {
    var n := c as int;
    var b := EncodeChar(c) + rest;
    var n1, n2 := n / 0x40, n / 0x40 / 0x40;
    assert n == n1 * 0x40 + n % 0x40 && n1 == n2 * 0x40 + n1 % 0x40;
    assert b[0] == 0xE0 + n2 && b[1] == 0x80 + n1 % 0x40 && b[2] == 0x80 + n % 0x40;
    var lead := LeadOf(b[0]).value;
    assert ContinuationOk(lead, 1, b[1]) && ContinuationOk(lead, 2, b[2]);
    assert Accepted(b, lead, 1) == 2;
    assert CodePoint(b, lead) == n;
    assert b[3..] == rest;
  }

  lemma DecodeFour(c: char, rest: seq<byte>)
    requires 0x1_0000 <= c as int
    ensures Decode(EncodeChar(c) + rest) == [c] + Decode(rest)
  {
    var n := c as int;
    var b := EncodeChar(c) + rest;
    var n1, n2, n3 := n / 0x40, n / 0x40 / 0x40, n / 0x40 / 0x40 / 0x40;
    assert n == n1 * 0x40 + n % 0x40 && n1 == n2 * 0x40 + n1 % 0x40 && n2 == n3 * 0x40 + n2 % 0x40;
    assert b[0] == 0xF0 + n3 && b[1] == 0x80 + n2 % 0x40;
    assert b[2] == 0x80 + n1 % 0x40 && b[3] == 0x80 + n % 0x40;
    var lead := LeadOf(b[0]).value;
    assert ContinuationOk(lead, 1, b[1]) && ContinuationOk(lead, 2, b[2]) && ContinuationOk(lead, 3, b[3]);
    assert Accepted(b, lead, 1) == 3;
    assert CodePoint(b, lead) == n;
    assert b[4..] == rest;
  }

  /** Decoding inverts encoding, for every string. */
  lemma {:induction false} DecodeEncode(s: string)
    ensures Decode(Encode(s)) == s
  {
    if |s| > 0 {
      DecodeEncodeChar(s[0], Encode(s[1..]));
      DecodeEncode(s[1..]);
    }
  }
}
