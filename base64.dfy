/**
 * Base 64 (RFC 4648, section 4) with the standard alphabet and `=` padding, as Node's
 * `toString('base64')` writes it; the decoder accepts exactly the padded
 * alphabet strings the RFC defines.
 */
module Base64 {
  import opened Utf8
  import opened Wrappers

  /** The character of the alphabet for a six-bit value. */
  function Letter(v: nat): (c: char)
    requires v < 64
    ensures IsLetter(c) && LetterValue(c) == v
  {
    if v < 26 then ('A' as int + v) as char
    else if v < 52 then ('a' as int + v - 26) as char
    else if v < 62 then ('0' as int + v - 52) as char
    else if v == 62 then '+'
    else '/'
  }

  predicate IsLetter(c: char) {
    'A' <= c <= 'Z' || 'a' <= c <= 'z' || '0' <= c <= '9' || c == '+' || c == '/'
  }

  function LetterValue(c: char): (v: nat)
    requires IsLetter(c)
    ensures v < 64
  {
    if 'A' <= c <= 'Z' then c as int - 'A' as int
    else if 'a' <= c <= 'z' then c as int - 'a' as int + 26
    else if '0' <= c <= '9' then c as int - '0' as int + 52
    else if c == '+' then 62
    else 63
  }

  /** What the encoder may write: alphabet characters and the pad character. */
  predicate IsEncodingChar(c: char) {
    IsLetter(c) || c == '='
  }

  /** The four characters for three bytes. */
  function Group3(b0: byte, b1: byte, b2: byte): string {
    var x0, x1, x2 := b0 as int, b1 as int, b2 as int;
    [Letter(x0 / 4), Letter(x0 % 4 * 16 + x1 / 16), Letter(x1 % 16 * 4 + x2 / 64), Letter(x2 % 64)]
  }

  /** The four characters for two final bytes: one pad character. */
  function Group2(b0: byte, b1: byte): string {
    var x0, x1 := b0 as int, b1 as int;
    [Letter(x0 / 4), Letter(x0 % 4 * 16 + x1 / 16), Letter(x1 % 16 * 4), '=']
  }

  /** The four characters for one final byte: two pad characters. */
  function Group1(b0: byte): string {
    var x0 := b0 as int;
    [Letter(x0 / 4), Letter(x0 % 4 * 16), '=', '=']
  }

  function Encode(b: seq<byte>): (s: string)
    ensures |s| == 4 * ((|b| + 2) / 3)
    ensures forall i :: 0 <= i < |s| ==> IsEncodingChar(s[i])
  {
    if |b| == 0 then []
    else if |b| == 1 then Group1(b[0])
    else if |b| == 2 then Group2(b[0], b[1])
    else Group3(b[0], b[1], b[2]) + Encode(b[3..])
  }

  function Byte0(v0: nat, v1: nat): byte
    requires v0 < 64 && v1 < 64
  {
    (v0 * 4 + v1 / 16) as byte
  }

  function Byte1(v1: nat, v2: nat): byte
    requires v1 < 64 && v2 < 64
  {
    (v1 % 16 * 16 + v2 / 4) as byte
  }

  function Byte2(v2: nat, v3: nat): byte
    requires v2 < 64 && v3 < 64
  {
    (v2 % 4 * 64 + v3) as byte
  }

  /** One group of four characters; padding is allowed only in the last group. */
  function DecodeQuad(q: string, last: bool): Option<seq<byte>>
    requires |q| == 4
  {
    if IsLetter(q[0]) && IsLetter(q[1]) && IsLetter(q[2]) && IsLetter(q[3]) then
      var v0, v1, v2, v3 := LetterValue(q[0]), LetterValue(q[1]), LetterValue(q[2]), LetterValue(q[3]);
      Some([Byte0(v0, v1), Byte1(v1, v2), Byte2(v2, v3)])
    else if last && IsLetter(q[0]) && IsLetter(q[1]) && IsLetter(q[2]) && q[3] == '=' then
      var v0, v1, v2 := LetterValue(q[0]), LetterValue(q[1]), LetterValue(q[2]);
      Some([Byte0(v0, v1), Byte1(v1, v2)])
    else if last && IsLetter(q[0]) && IsLetter(q[1]) && q[2] == '=' && q[3] == '=' then
      Some([Byte0(LetterValue(q[0]), LetterValue(q[1]))])
    else None
  }

  /** Decoding: `None` for a string that is not a padded base 64 encoding. */
  function Decode(s: string): (r: Option<seq<byte>>)
    decreases |s|
  {
    if s == [] then Some([])
    else if |s| < 4 then None
    else
      match DecodeQuad(s[..4], |s| == 4)
      case None => None
      case Some(q) =>
        if |s| == 4 then Some(q)
        else
          match Decode(s[4..])
          case None => None
          case Some(rest) => Some(q + rest)
  }

  lemma Group3RoundTrip(b0: byte, b1: byte, b2: byte, last: bool)
    ensures DecodeQuad(Group3(b0, b1, b2), last) == Some([b0, b1, b2])
  {
    var x0, x1, x2 := b0 as int, b1 as int, b2 as int;
    var v1 := x0 % 4 * 16 + x1 / 16;
    assert v1 / 16 == x0 % 4 && v1 % 16 == x1 / 16;
    var v2 := x1 % 16 * 4 + x2 / 64;
    assert v2 / 4 == x1 % 16 && v2 % 4 == x2 / 64;
  }

  lemma Group2RoundTrip(b0: byte, b1: byte)
    ensures DecodeQuad(Group2(b0, b1), true) == Some([b0, b1])
  {
    var x0, x1 := b0 as int, b1 as int;
    var v1 := x0 % 4 * 16 + x1 / 16;
    assert v1 / 16 == x0 % 4 && v1 % 16 == x1 / 16;
    assert (x1 % 16 * 4) / 4 == x1 % 16;
  }

  lemma Group1RoundTrip(b0: byte)
    ensures DecodeQuad(Group1(b0), true) == Some([b0])
  {
    var x0 := b0 as int;
    assert (x0 % 4 * 16) / 16 == x0 % 4;
  }

  /** A full group followed by more text decodes to its three bytes followed by the rest. */
  lemma DecodeFront(b0: byte, b1: byte, b2: byte, rest: string)
    ensures Decode(Group3(b0, b1, b2) + rest) ==
      match Decode(rest)
      case None => None
      case Some(r) => Some([b0, b1, b2] + r)
  {
    var q := Group3(b0, b1, b2);
    var s := q + rest;
    assert s[..4] == q;
    Group3RoundTrip(b0, b1, b2, |s| == 4);
    if rest != [] {
      assert s[4..] == rest;
    } else {
      assert [b0, b1, b2] + [] == [b0, b1, b2];
    }
  }

  /** Decoding what the encoder wrote gives the bytes back. */
  lemma {:induction false} DecodeEncode(b: seq<byte>)
    ensures Decode(Encode(b)) == Some(b)
    decreases |b|
  {
    if |b| == 1 {
      Group1RoundTrip(b[0]);
      assert Group1(b[0])[..4] == Group1(b[0]);
      assert b == [b[0]];
    } else if |b| == 2 {
      Group2RoundTrip(b[0], b[1]);
      assert Group2(b[0], b[1])[..4] == Group2(b[0], b[1]);
      assert b == [b[0], b[1]];
    } else if |b| >= 3 {
      DecodeEncode(b[3..]);
      DecodeFront(b[0], b[1], b[2], Encode(b[3..]));
      assert [b[0], b[1], b[2]] + b[3..] == b;
    }
  }
}
