/** The `application/x-www-form-urlencoded` parser of the WHATWG URL Standard (section 5.1), which
    `URLSearchParams` runs over a URL's query, the `get` lookup on its result, and the serializer
    the bridge link is written with, as the parser's partner. */
module FormUrlEncoded {
  import opened Wrappers
  import opened Utf8
  import Percent

  /** A name/value pair of the parsed list. */
  type Pair = (string, string)

  const Ampersand: byte := 0x26
  const Equals: byte := 0x3D
  const Plus: byte := 0x2B
  const Space: byte := 0x20

  /** Position of the first occurrence of x. */
  function IndexOf(b: seq<byte>, x: byte): (i: nat)
    requires x in b
    ensures i < |b| && b[i] == x && x !in b[..i]
  {
    if b[0] == x then 0 else 1 + IndexOf(b[1..], x)
  }

  lemma {:induction false} IndexOfAfter(a: seq<byte>, x: byte, c: seq<byte>)
    requires x !in a
    ensures x in a + [x] + c
    ensures IndexOf(a + [x] + c, x) == |a|
    ensures (a + [x] + c)[..|a|] == a && (a + [x] + c)[|a| + 1..] == c
  {
    var b := a + [x] + c;
    assert b[|a|] == x;
    if |a| > 0 {
      IndexOfAfter(a[1..], x, c);
      assert b[1..] == a[1..] + [x] + c;
    }
  }

  /** Strict splitting on a byte: n separators give n + 1 pieces, empty pieces included. */
  function SplitOn(b: seq<byte>, sep: byte): (r: seq<seq<byte>>)
    ensures |r| >= 1
    ensures forall i :: 0 <= i < |r| ==> sep !in r[i]
    decreases |b|
  {
    if sep !in b then [b]
    else
      var i := IndexOf(b, sep);
      [b[..i]] + SplitOn(b[i + 1..], sep)
  }

  /** The pieces written one after another with the separator between neighbours. */
  function JoinWith(pieces: seq<seq<byte>>, sep: byte): seq<byte>
    requires |pieces| >= 1
  {
    if |pieces| == 1 then pieces[0] else pieces[0] + [sep] + JoinWith(pieces[1..], sep)
  }

  /** The first separator ends the first piece. */
  lemma SplitOnCons(a: seq<byte>, sep: byte, c: seq<byte>)
    requires sep !in a
    ensures SplitOn(a + [sep] + c, sep) == [a] + SplitOn(c, sep)
  {
    IndexOfAfter(a, sep, c);
  }

  /** Splitting undoes joining when no piece holds the separator. */
  lemma {:induction false} SplitJoin(pieces: seq<seq<byte>>, sep: byte)
    requires |pieces| >= 1
    requires forall i :: 0 <= i < |pieces| ==> sep !in pieces[i]
    ensures SplitOn(JoinWith(pieces, sep), sep) == pieces
  {
    if |pieces| > 1 {
      SplitOnCons(pieces[0], sep, JoinWith(pieces[1..], sep));
      SplitJoin(pieces[1..], sep);
      assert pieces == [pieces[0]] + pieces[1..];
    }
  }

  /** Joining undoes splitting: splitting loses nothing. */
  lemma {:induction false} JoinSplit(b: seq<byte>, sep: byte)
    ensures JoinWith(SplitOn(b, sep), sep) == b
    decreases |b|
  {
    if sep in b {
      var i := IndexOf(b, sep);
      var pieces, rest := SplitOn(b, sep), SplitOn(b[i + 1..], sep);
      assert pieces[0] == b[..i] && pieces[1..] == rest;
      JoinSplit(b[i + 1..], sep);
      assert JoinWith(pieces, sep) == b[..i] + [sep] + b[i + 1..];
      assert b == b[..i] + [sep] + b[i + 1..];
    }
  }

  /** Step 3.3 of the parser: every `+` becomes a space. */
  function ReplacePlus(b: seq<byte>): (r: seq<byte>)
    ensures |r| == |b| && Plus !in r
    ensures forall i :: 0 <= i < |b| && b[i] != Plus ==> r[i] == b[i]
  {
    seq(|b|, i requires 0 <= i < |b| => if b[i] == Plus then Space else b[i])
  }

  lemma ReplacePlusNoPlus(b: seq<byte>)
    requires Plus !in b
    ensures ReplacePlus(b) == b
  {
  }

  /** Steps 3.3 and 3.4 for one name or value: `+` to space, percent-decode, UTF-8 decode
      without BOM. */
  function DecodeComponent(b: seq<byte>): string {
    Decode(Percent.PercentDecode(ReplacePlus(b)))
  }

  /** Step 3.2: the name is what precedes the first `=`, the value what follows it; a piece without
      `=` is all name, with the empty value. */
  function ParsePiece(piece: seq<byte>): Pair {
    if Equals in piece then
      var i := IndexOf(piece, Equals);
      (DecodeComponent(piece[..i]), DecodeComponent(piece[i + 1..]))
    else (DecodeComponent(piece), "")
  }

  /** Step 3.1: empty pieces are skipped. */
  function ParsePieces(pieces: seq<seq<byte>>): (r: seq<Pair>)
    ensures |r| <= |pieces|
  {
    if |pieces| == 0 then []
    else (if |pieces[0]| == 0 then [] else [ParsePiece(pieces[0])]) + ParsePieces(pieces[1..])
  }

  /** The parser: split the bytes on `&` and decode every non-empty piece, in order. */
  function Parse(input: seq<byte>): (r: seq<Pair>)
    ensures |r| <= |SplitOn(input, Ampersand)|
  {
    ParsePieces(SplitOn(input, Ampersand))
  }

  /** `URLSearchParams.get`: the value of the first pair with the name, nothing when no pair has
      it. */
  function Get(ps: seq<Pair>, name: string): (r: Option<string>)
    ensures r.None? <==> forall i :: 0 <= i < |ps| ==> ps[i].0 != name
    ensures r.Some? ==> (name, r.value) in ps
  {
    if |ps| == 0 then None
    else if ps[0].0 == name then Some(ps[0].1)
    else
      var r := Get(ps[1..], name);
      assert forall i :: 1 <= i < |ps| ==> ps[i] == ps[1..][i - 1];
      r
  }

  /** Pair i is the first pair with the name. */
  predicate FirstNamed(ps: seq<Pair>, name: string, i: int) {
    0 <= i < |ps| && ps[i].0 == name && forall j :: 0 <= j < i ==> ps[j].0 != name
  }

  /** `get` returns the value of the first pair with the name, whatever later pairs hold. */
  lemma {:induction false} GetFirst(ps: seq<Pair>, name: string, i: nat)
    requires i < |ps| && ps[i].0 == name
    requires forall j :: 0 <= j < i ==> ps[j].0 != name
    ensures Get(ps, name) == Some(ps[i].1)
  {
    if i > 0 {
      assert ps[0].0 != name;
      GetFirst(ps[1..], name, i - 1);
    }
  }

  /** A name that the outer groups lack is looked up in the middle one alone. */
  lemma GetMiddle(base: seq<Pair>, middle: seq<Pair>, suffix: seq<Pair>, name: string)
    requires forall i :: 0 <= i < |base| ==> base[i].0 != name
    requires forall i :: 0 <= i < |suffix| ==> suffix[i].0 != name
    ensures Get(base + middle + suffix, name) == Get(middle, name)
  {
    GetAppend(base + middle, suffix, name);
    GetAppend(base, middle, name);
  }

  /** When exactly one position holds the name, `get` returns its value; when none does, nothing. */
  lemma GetIndexed(ps: seq<Pair>, name: string, idx: int)
    requires forall j :: 0 <= j < |ps| ==> (ps[j].0 == name <==> j == idx)
    ensures Get(ps, name) == if 0 <= idx < |ps| then Some(ps[idx].1) else None
  {
    if 0 <= idx < |ps| {
      GetFirst(ps, name, idx);
    } else {
      assert Get(ps, name).None?;
    }
  }

  /** A name that needs no escaping and that query parsing reads back unchanged. */
  predicate IsPlainName(name: string) {
    |name| > 0 && forall i :: 0 <= i < |name| ==> Percent.IsUriUnreserved(name[i])
  }

  /** `name=value` with the value written by `encodeURIComponent`. */
  function Component(p: Pair): string {
    p.0 + "=" + Percent.EncodeURIComponent(p.1)
  }

  /** Every pair written as `&name=value`. */
  function SerializeTail(ps: seq<Pair>): string {
    if |ps| == 0 then "" else "&" + Component(ps[0]) + SerializeTail(ps[1..])
  }

  /** The pairs written as `name=value` and separated by `&`. */
  function Serialize(ps: seq<Pair>): string {
    if |ps| == 0 then "" else Component(ps[0]) + SerializeTail(ps[1..])
  }

  lemma {:induction false} SerializeTailAppend(a: seq<Pair>, b: seq<Pair>)
    ensures SerializeTail(a + b) == SerializeTail(a) + SerializeTail(b)
  {
    if |a| == 0 {
      assert a + b == b;
    } else {
      assert (a + b)[0] == a[0] && (a + b)[1..] == a[1..] + b;
      SerializeTailAppend(a[1..], b);
    }
  }

  /** Serializing a non-empty list followed by more pairs continues it with `&`-led pairs. */
  lemma SerializeAppend(a: seq<Pair>, b: seq<Pair>)
    requires |a| > 0
    ensures Serialize(a + b) == Serialize(a) + SerializeTail(b)
  {
    assert (a + b)[0] == a[0] && (a + b)[1..] == a[1..] + b;
    SerializeTailAppend(a[1..], b);
  }

  /** `get` on two lists one after the other looks in the second only when the first has no pair
      of that name. */
  lemma {:induction false} GetAppend(a: seq<Pair>, b: seq<Pair>, name: string)
    ensures Get(a + b, name) == if Get(a, name).Some? then Get(a, name) else Get(b, name)
  {
    if |a| == 0 {
      assert a + b == b;
    } else {
      assert (a + b)[0] == a[0] && (a + b)[1..] == a[1..] + b;
      GetAppend(a[1..], b, name);
    }
  }

  /** A serialized query holds neither `#` nor, when every name is plain, any character the
      query parser treats specially outside the separators. */
  lemma {:induction false} ComponentChars(p: Pair)
    requires IsPlainName(p.0)
    ensures forall i :: 0 <= i < |Component(p)| ==> Component(p)[i] == '=' || Component(p)[i] == '%' || Percent.IsUriUnreserved(Component(p)[i])
  {
  }

  lemma {:induction false} SerializeTailChars(ps: seq<Pair>)
    requires forall i :: 0 <= i < |ps| ==> IsPlainName(ps[i].0)
    ensures '#' !in SerializeTail(ps) && '?' !in SerializeTail(ps)
  {
    if |ps| > 0 {
      ComponentChars(ps[0]);
      SerializeTailChars(ps[1..]);
    }
  }

  lemma SerializeChars(ps: seq<Pair>)
    requires forall i :: 0 <= i < |ps| ==> IsPlainName(ps[i].0)
    ensures '#' !in Serialize(ps) && '?' !in Serialize(ps)
  {
    if |ps| > 0 {
      ComponentChars(ps[0]);
      SerializeTailChars(ps[1..]);
    }
  }

  /** The encoded bytes of each pair, which the parser meets as one piece. */
  function Pieces(ps: seq<Pair>): (r: seq<seq<byte>>)
    ensures |r| == |ps|
  {
    seq(|ps|, i requires 0 <= i < |ps| => Encode(Component(ps[i])))
  }

  lemma PiecesTail(ps: seq<Pair>)
    requires |ps| > 0
    ensures Pieces(ps)[1..] == Pieces(ps[1..])
  {
    var a, b := Pieces(ps)[1..], Pieces(ps[1..]);
    forall i | 0 <= i < |b|
      ensures a[i] == b[i]
    {
      assert ps[1..][i] == ps[i + 1];
    }
  }

  lemma SerializeCons(ps: seq<Pair>)
    requires |ps| >= 2
    ensures Serialize(ps) == Component(ps[0]) + "&" + Serialize(ps[1..])
  {
    var first, second, rest := Component(ps[0]), Component(ps[1]), SerializeTail(ps[2..]);
    assert ps[1..][0] == ps[1] && ps[1..][1..] == ps[2..];
    assert Serialize(ps[1..]) == second + rest;
    assert SerializeTail(ps[1..]) == "&" + second + rest;
    JoinRegroup(first, "&", second, rest);
  }

  lemma JoinRegroup(a: string, sep: string, b: string, c: string)
    ensures a + (sep + b + c) == a + sep + (b + c)
  {
  }

  lemma {:induction false} EncodeSerialize(ps: seq<Pair>)
    requires |ps| >= 1
    ensures Encode(Serialize(ps)) == JoinWith(Pieces(ps), Ampersand)
  {
    if |ps| == 1 {
      assert SerializeTail(ps[1..]) == "";
      assert Serialize(ps) == Component(ps[0]);
    } else {
      var head, tail := Component(ps[0]), Serialize(ps[1..]);
      SerializeCons(ps);
      EncodeAppend(head + "&", tail);
      EncodeAppend(head, "&");
      EncodeAscii("&");
      assert Encode("&") == [Ampersand];
      assert Encode(Serialize(ps)) == Encode(head) + [Ampersand] + Encode(tail);
      EncodeSerialize(ps[1..]);
      PiecesTail(ps);
      assert Pieces(ps)[0] == Encode(head);
    }
  }

  /** One piece reads back as the pair it was written from. */
  lemma ParseComponent(p: Pair)
    requires IsPlainName(p.0)
    ensures ParsePiece(Encode(Component(p))) == p
  {
    var (name, value) := p;
    var enc := Percent.EncodeURIComponent(value);
    EncodeComponent(name, enc);
    assert '=' !in name && '+' !in name && '%' !in name;
    AsciiByteIn(name, Equals);
    ParsePieceSplit(Encode(name), Encode(enc));
    DecodePlainName(name);
    DecodeEscaped(value);
  }

  /** A component's bytes are the name's, `=`, and the value's. */
  lemma EncodeComponent(name: string, enc: string)
    ensures Encode(name + "=" + enc) == Encode(name) + [Equals] + Encode(enc)
  {
    EncodeAppend(name + "=", enc);
    EncodeAppend(name, "=");
    EncodeAscii("=");
  }

  /** A piece splits at its first `=`. */
  lemma ParsePieceSplit(nb: seq<byte>, vb: seq<byte>)
    requires Equals !in nb
    ensures ParsePiece(nb + [Equals] + vb) == (DecodeComponent(nb), DecodeComponent(vb))
  {
    IndexOfAfter(nb, Equals, vb);
  }

  /** A name without `+` or `%` decodes to itself. */
  lemma DecodePlainName(name: string)
    requires '+' !in name && '%' !in name
    ensures DecodeComponent(Encode(name)) == name
  {
    var nb := Encode(name);
    AsciiByteIn(name, Plus);
    AsciiByteIn(name, Percent.Percent);
    ReplacePlusNoPlus(nb);
    Percent.PercentDecodeNoPercent(nb);
    DecodeEncode(name);
  }

  /** An escaped value decodes to the value it was escaped from. */
  lemma DecodeEscaped(value: string)
    ensures DecodeComponent(Encode(Percent.EncodeURIComponent(value))) == value
  {
    var enc := Percent.EncodeURIComponent(value);
    assert '+' !in enc;
    AsciiByteIn(enc, Plus);
    ReplacePlusNoPlus(Encode(enc));
    Percent.PercentDecodeEncode(value);
    DecodeEncode(value);
  }

  lemma {:induction false} ParsePiecesOfPairs(ps: seq<Pair>)
    requires forall i :: 0 <= i < |ps| ==> IsPlainName(ps[i].0)
    ensures ParsePieces(Pieces(ps)) == ps
  {
    if |ps| > 0 {
      var pieces := Pieces(ps);
      assert pieces[0] == Encode(Component(ps[0]));
      ParseComponent(ps[0]);
      PiecesTail(ps);
      ParsePiecesOfPairs(ps[1..]);
      ParsePiecesCons(pieces);
      assert ps == [ps[0]] + ps[1..];
    }
  }

  lemma ParsePiecesCons(pieces: seq<seq<byte>>)
    requires |pieces| > 0 && |pieces[0]| > 0
    ensures ParsePieces(pieces) == [ParsePiece(pieces[0])] + ParsePieces(pieces[1..])
  {
  }

  /** The parser reads back exactly the pairs the serializer wrote, values included whatever
      characters they hold, as long as every name is plain. */
  lemma ParseSerialize(ps: seq<Pair>)
    requires forall i :: 0 <= i < |ps| ==> IsPlainName(ps[i].0)
    ensures Parse(Encode(Serialize(ps))) == ps
  {
    if |ps| == 0 {
      assert SplitOn([], Ampersand) == [[]];
    } else {
      EncodeSerialize(ps);
      forall i | 0 <= i < |ps|
        ensures Ampersand !in Pieces(ps)[i]
      {
        ComponentChars(ps[i]);
        AsciiByteIn(Component(ps[i]), Ampersand);
      }
      SplitJoin(Pieces(ps), Ampersand);
      ParsePiecesOfPairs(ps);
    }
  }
}
