/**
 * `application/x-www-form-urlencoded` as `URLSearchParams` implements it (WHATWG URL
 * Standard, section 5.1 "application/x-www-form-urlencoded parsing" and section 5.2
 * "application/x-www-form-urlencoded serializing"). Names and values are UTF-8 encoded,
 * every byte outside ASCII alphanumerics and `*-._` is percent-encoded with upper-case
 * digits, and a space becomes `+`. Parsing splits the UTF-8 bytes on `&`, skips empty
 * pieces, cuts each piece at its first `=`, turns `+` into a space, percent-decodes and
 * UTF-8 decodes with replacement.
 */
module UrlEncoded {
  import opened Utf8

  const Amp: byte := 0x26
  const Equals: byte := 0x3D
  const Plus: byte := 0x2B
  const Percent: byte := 0x25
  const Space: byte := 0x20

  /** Bytes the serializer leaves alone: ASCII alphanumerics and `*`, `-`, `.`, `_`. */
  predicate Unreserved(x: byte) {
    0x30 <= x <= 0x39 || 0x41 <= x <= 0x5A || 0x61 <= x <= 0x7A
    || x == 0x2A || x == 0x2D || x == 0x2E || x == 0x5F
  }

  /** Bytes the serializer can write inside a name or a value. */
  predicate Emitted(x: byte) {
    Unreserved(x) || x == Plus || x == Percent
  }

  predicate IsHexByte(x: byte) {
    0x30 <= x <= 0x39 || 0x41 <= x <= 0x46 || 0x61 <= x <= 0x66
  }

  function HexValue(x: byte): (v: nat)
    requires IsHexByte(x)
    ensures v < 16
  {
    if x <= 0x39 then x as int - 0x30
    else if x <= 0x46 then x as int - 0x41 + 10
    else x as int - 0x61 + 10
  }

  /** The upper-case hex digit for `v`. */
  function UpperHex(v: nat): (x: byte)
    requires v < 16
    ensures Unreserved(x) && IsHexByte(x) && HexValue(x) == v
  {
    if v < 10 then (0x30 + v) as byte else (0x41 + v - 10) as byte
  }

  /** One byte, percent-encoded with the urlencoded percent-encode set and space as `+`. */
  function EncodeByte(x: byte): (r: seq<byte>)
    ensures forall i :: 0 <= i < |r| ==> Emitted(r[i])
  {
    if Unreserved(x) then [x]
    else if x == Space then [Plus]
    else [Percent, UpperHex(x as int / 16), UpperHex(x as int % 16)]
  }

  function EncodeBytes(b: seq<byte>): (r: seq<byte>)
    ensures forall i :: 0 <= i < |r| ==> Emitted(r[i])
    ensures |r| >= |b|
  {
    if b == [] then [] else EncodeByte(b[0]) + EncodeBytes(b[1..])
  }

  /** A name or a value as the serializer writes it. */
  function EncodeComponent(s: string): (r: seq<byte>)
    ensures forall i :: 0 <= i < |r| ==> Emitted(r[i])
  {
    EncodeBytes(Utf8.Encode(s))
  }

  /** `name=value`. */
  function PairBytes(p: (string, string)): (r: seq<byte>)
    ensures Equals in r && Amp !in r
  {
    var n := EncodeComponent(p.0);
    var r := n + [Equals] + EncodeComponent(p.1);
    assert r[|n|] == Equals;
    r
  }

  /** The serializer's output as bytes: the pairs in order, joined by `&`. */
  function SerializeBytes(ps: seq<(string, string)>): (r: seq<byte>)
    ensures forall i :: 0 <= i < |r| ==> r[i] < 0x80
  {
    if ps == [] then []
    else if |ps| == 1 then PairBytes(ps[0])
    else PairBytes(ps[0]) + [Amp] + SerializeBytes(ps[1..])
  }

  /** ASCII bytes read as text. */
  function AsciiText(b: seq<byte>): (s: string)
    requires forall i :: 0 <= i < |b| ==> b[i] < 0x80
    ensures |s| == |b| && forall i :: 0 <= i < |b| ==> s[i] as int == b[i] as int
  {
    seq(|b|, i requires 0 <= i < |b| => b[i] as int as char)
  }

  /** `params.toString()`. */
  function Serialize(ps: seq<(string, string)>): string {
    AsciiText(SerializeBytes(ps))
  }

  /** The serializer writes nothing exactly when there is nothing to write. */
  lemma SerializeEmpty(ps: seq<(string, string)>)
    ensures Serialize(ps) == "" <==> ps == []
  {
    if ps != [] {
      assert |PairBytes(ps[0])| > 0;
    }
  }

  /** `&` separates the pieces; the pieces between two separators may be empty. */
  function SplitOn(b: seq<byte>, sep: byte): (pieces: seq<seq<byte>>)
    ensures |pieces| >= 1
  {
    if b == [] then [[]]
    else
      var rest := SplitOn(b[1..], sep);
      if b[0] == sep then [[]] + rest else [[b[0]] + rest[0]] + rest[1..]
  }

  /** `+` becomes a space. */
  function PlusToSpace(b: seq<byte>): (r: seq<byte>)
    ensures |r| == |b|
    ensures forall i :: 0 <= i < |b| ==> r[i] == if b[i] == Plus then Space else b[i]
  {
    seq(|b|, i requires 0 <= i < |b| => if b[i] == Plus then Space else b[i])
  }

  /** Percent-decoding: `%` followed by two hex digits is one byte; any other `%` stays. */
  function PercentDecode(b: seq<byte>): (r: seq<byte>)
    ensures |r| <= |b|
  {
    if b == [] then []
    else if b[0] == Percent && |b| >= 3 && IsHexByte(b[1]) && IsHexByte(b[2]) then
      [(HexValue(b[1]) * 16 + HexValue(b[2])) as byte] + PercentDecode(b[3..])
    else [b[0]] + PercentDecode(b[1..])
  }

  /** A name or value as the parser reads it. */
  function DecodeComponent(b: seq<byte>): string {
    Utf8.Decode(PercentDecode(PlusToSpace(b)))
  }

  function IndexOfByte(b: seq<byte>, x: byte): (i: nat)
    requires x in b
    ensures i < |b| && b[i] == x
    ensures forall j :: 0 <= j < i ==> b[j] != x
  {
    if b[0] == x then 0 else 1 + IndexOfByte(b[1..], x)
  }

  /** One non-empty piece: name and value cut at the first `=`; no `=` means an empty value. */
  function ParsePiece(piece: seq<byte>): (string, string) {
    if Equals in piece then
      var i := IndexOfByte(piece, Equals);
      (DecodeComponent(piece[..i]), DecodeComponent(piece[i + 1..]))
    else (DecodeComponent(piece), "")
  }

  function ParsePieces(pieces: seq<seq<byte>>): (ps: seq<(string, string)>)
    ensures |ps| <= |pieces|
  {
    if pieces == [] then []
    else (if pieces[0] == [] then [] else [ParsePiece(pieces[0])]) + ParsePieces(pieces[1..])
  }

  /** The parser on the UTF-8 bytes of its input. */
  function ParseBytes(b: seq<byte>): seq<(string, string)> {
    ParsePieces(SplitOn(b, Amp))
  }

  /** `new URLSearchParams(s)`: a leading `?` is dropped, the rest parsed. */
  function Parse(s: string): seq<(string, string)> {
    ParseBytes(Utf8.Encode(if |s| > 0 && s[0] == '?' then s[1..] else s))
  }

  // Round trip

  lemma PlusToSpaceAppend(a: seq<byte>, b: seq<byte>)
    ensures PlusToSpace(a + b) == PlusToSpace(a) + PlusToSpace(b)
  {
  }

  /** Percent-decoding reads back one encoded byte at the front, whatever follows it. */
  lemma DecodeByteFront(x: byte, rest: seq<byte>)
    ensures PercentDecode(PlusToSpace(EncodeByte(x)) + rest) == [x] + PercentDecode(rest)
  {
    var e := PlusToSpace(EncodeByte(x));
    if Unreserved(x) {
      assert e == [x];
      assert (e + rest)[1..] == rest;
    } else if x == Space {
      assert e == [Space];
      assert (e + rest)[1..] == rest;
    } else {
      var hi, lo := UpperHex(x as int / 16), UpperHex(x as int % 16);
      assert e == [Percent, hi, lo];
      assert (e + rest)[3..] == rest;
      assert (HexValue(hi) * 16 + HexValue(lo)) == x as int;
    }
  }

  lemma {:induction false} DecodeEncodeBytes(b: seq<byte>)
    ensures PercentDecode(PlusToSpace(EncodeBytes(b))) == b
  {
    if b != [] {
      PlusToSpaceAppend(EncodeByte(b[0]), EncodeBytes(b[1..]));
      DecodeByteFront(b[0], PlusToSpace(EncodeBytes(b[1..])));
      DecodeEncodeBytes(b[1..]);
    }
  }

  /** A name or value read back is the string that was written. */
  lemma ComponentRoundTrip(s: string)
    ensures DecodeComponent(EncodeComponent(s)) == s
  {
    DecodeEncodeBytes(Utf8.Encode(s));
    Utf8.DecodeEncode(s);
  }

  lemma {:induction false} SplitOnClean(a: seq<byte>, sep: byte)
    requires sep !in a
    ensures SplitOn(a, sep) == [a]
  {
    if a != [] {
      SplitOnClean(a[1..], sep);
      assert [a[0]] + a[1..] == a;
    }
  }

  lemma {:induction false} SplitOnJoin(a: seq<byte>, sep: byte, b: seq<byte>)
    requires sep !in a
    ensures SplitOn(a + [sep] + b, sep) == [a] + SplitOn(b, sep)
  {
    if a == [] {
      assert (a + [sep] + b)[1..] == b;
    } else {
      assert (a + [sep] + b)[1..] == a[1..] + [sep] + b;
      SplitOnJoin(a[1..], sep, b);
      assert [a[0]] + a[1..] == a;
    }
  }

  /** Splitting the output on `&` gives back the serialized pairs one by one. */
  lemma {:induction false} SplitSerialized(ps: seq<(string, string)>)
    requires ps != []
    ensures SplitOn(SerializeBytes(ps), Amp) == seq(|ps|, i requires 0 <= i < |ps| => PairBytes(ps[i]))
  {
    if |ps| == 1 {
      SplitOnClean(PairBytes(ps[0]), Amp);
    } else {
      SplitOnJoin(PairBytes(ps[0]), Amp, SerializeBytes(ps[1..]));
      SplitSerialized(ps[1..]);
    }
  }

  lemma FirstEquals(n: seq<byte>, v: seq<byte>)
    requires Equals !in n
    ensures IndexOfByte(n + [Equals] + v, Equals) == |n|
  {
    var b := n + [Equals] + v;
    var i := IndexOfByte(b, Equals);
    assert b[|n|] == Equals;
    assert forall j :: 0 <= j < |n| ==> b[j] == n[j];
  }

  lemma PieceRoundTrip(p: (string, string))
    ensures ParsePiece(PairBytes(p)) == p
  {
    var n, v := EncodeComponent(p.0), EncodeComponent(p.1);
    var b := n + [Equals] + v;
    assert forall i :: 0 <= i < |n| ==> Emitted(n[i]);
    FirstEquals(n, v);
    assert b[..|n|] == n && b[|n| + 1..] == v;
    ComponentRoundTrip(p.0);
    ComponentRoundTrip(p.1);
  }

  lemma {:induction false} ParsePiecesRoundTrip(ps: seq<(string, string)>)
    ensures ParsePieces(seq(|ps|, i requires 0 <= i < |ps| => PairBytes(ps[i]))) == ps
  {
    var pieces := seq(|ps|, i requires 0 <= i < |ps| => PairBytes(ps[i]));
    if ps != [] {
      assert pieces[0] != [];
      PieceRoundTrip(ps[0]);
      assert pieces[1..] == seq(|ps[1..]|, i requires 0 <= i < |ps[1..]| => PairBytes(ps[1..][i]));
      ParsePiecesRoundTrip(ps[1..]);
    }
  }

  lemma Utf8OfAscii(b: seq<byte>)
    requires forall i :: 0 <= i < |b| ==> b[i] < 0x80
    ensures Utf8.Encode(AsciiText(b)) == b
  {
    var s := AsciiText(b);
    Utf8.EncodeAscii(s);
  }

  /** The output never starts with `?`, which the parser would drop. */
  lemma SerializedNoQuestion(ps: seq<(string, string)>)
    ensures Serialize(ps) == [] || Serialize(ps)[0] != '?'
  {
    if ps != [] {
      var b := SerializeBytes(ps);
      var first := PairBytes(ps[0]);
      var n := EncodeComponent(ps[0].0);
      assert |n| > 0 ==> Emitted(n[0]);
      assert first[0] != 0x3F;
      assert b[..|first|] == first;
    }
  }

  /** Parsing what the serializer wrote gives back the same pairs in the same order. */
  lemma ParseSerialize(ps: seq<(string, string)>)
    ensures Parse(Serialize(ps)) == ps
  {
    var b := SerializeBytes(ps);
    var s := Serialize(ps);
    SerializedNoQuestion(ps);
    Utf8OfAscii(b);
    assert Parse(s) == ParsePieces(SplitOn(b, Amp));
    if ps != [] {
      SplitSerialized(ps);
      ParsePiecesRoundTrip(ps);
    }
  }
}
