/**
 * UTF-8 as JavaScript strings meet it in this SDK: `Buffer.from(s)`, `cipher.update(s, 'utf8')`
 * and the URL Standard's "UTF-8 encode" go from text to bytes (RFC 3629, section 3);
 * `buf.toString()` and "UTF-8 decode without BOM" go back, replacing every ill-formed
 * sequence with U+FFFD as the WHATWG Encoding Standard's UTF-8 decoder does.
 */
module Utf8 {

  newtype byte = x: int | 0 <= x < 256

  const Replacement: char := '\U{FFFD}'

  /** The UTF-8 encoding of one code point. */
  function EncodeChar(c: char): (r: seq<byte>)
    ensures 1 <= |r| <= 4
    ensures (|r| == 1) == (c as int < 0x80)
    ensures forall i :: 1 <= i < |r| ==> 0x80 <= r[i] < 0xC0
  {
    var n := c as int;
    if n < 0x80 then [n as byte]
    else if n < 0x800 then [(0xC0 + n / 64) as byte, (0x80 + n % 64) as byte]
    else if n < 0x10000 then
      [(0xE0 + n / 4096) as byte, (0x80 + n / 64 % 64) as byte, (0x80 + n % 64) as byte]
    else
      [(0xF0 + n / 262144) as byte, (0x80 + n / 4096 % 64) as byte,
       (0x80 + n / 64 % 64) as byte, (0x80 + n % 64) as byte]
  }

  /** The UTF-8 encoding of a string. */
  function Encode(s: string): (r: seq<byte>)
    ensures |r| >= |s|
  {
    if s == [] then [] else EncodeChar(s[0]) + Encode(s[1..])
  }

  /**
   * One step of the WHATWG UTF-8 decoder: the character produced at the front of `b`
   * and the number of bytes it consumed. An ill-formed sequence yields U+FFFD and
   * consumes its maximal well-formed prefix (at least one byte).
   */
  function DecodeStep(b: seq<byte>): (r: (char, nat))
    requires |b| > 0
    ensures 1 <= r.1 <= |b|
  {
    var b0 := b[0] as int;
    if b0 < 0x80 then (b0 as char, 1)
    else if 0xC2 <= b0 <= 0xDF then
      if |b| < 2 || !(0x80 <= b[1] <= 0xBF) then (Replacement, 1)
      else (((b0 - 0xC0) * 64 + (b[1] as int - 0x80)) as char, 2)
    else if 0xE0 <= b0 <= 0xEF then
      var lo := if b0 == 0xE0 then 0xA0 else 0x80;
      var hi := if b0 == 0xED then 0x9F else 0xBF;
      if |b| < 2 || !(lo <= b[1] as int <= hi) then (Replacement, 1)
      else if |b| < 3 || !(0x80 <= b[2] <= 0xBF) then (Replacement, 2)
      else (((b0 - 0xE0) * 4096 + (b[1] as int - 0x80) * 64 + (b[2] as int - 0x80)) as char, 3)
    else if 0xF0 <= b0 <= 0xF4 then
      var lo := if b0 == 0xF0 then 0x90 else 0x80;
      var hi := if b0 == 0xF4 then 0x8F else 0xBF;
      if |b| < 2 || !(lo <= b[1] as int <= hi) then (Replacement, 1)
      else if |b| < 3 || !(0x80 <= b[2] <= 0xBF) then (Replacement, 2)
      else if |b| < 4 || !(0x80 <= b[3] <= 0xBF) then (Replacement, 3)
      else
        (((b0 - 0xF0) * 262144 + (b[1] as int - 0x80) * 4096
          + (b[2] as int - 0x80) * 64 + (b[3] as int - 0x80)) as char, 4)
    else (Replacement, 1)
  }

  /** UTF-8 decoding with replacement; it never fails. */
  function Decode(b: seq<byte>): (s: string)
    ensures |s| <= |b|
    decreases |b|
  {
    if b == [] then [] else
      var (c, k) := DecodeStep(b);
      [c] + Decode(b[k..])
  }

  lemma DivSplit64(n: nat)
    ensures n / 4096 == n / 64 / 64 && n / 262144 == n / 4096 / 64
    ensures n == n / 64 * 64 + n % 64
    ensures n / 64 == n / 4096 * 64 + n / 64 % 64
    ensures n / 4096 == n / 262144 * 64 + n / 4096 % 64
  {
    var q := n / 64;
    assert n == q * 64 + n % 64;
    assert q == q / 64 * 64 + q % 64;
    assert n == (q / 64) * 4096 + (q % 64) * 64 + n % 64;
    assert n / 4096 == q / 64;
    var p := n / 4096;
    assert p == p / 64 * 64 + p % 64;
    assert n == (p / 64) * 262144 + (p % 64) * 4096 + n % 4096;
  }

  /** The decoder reads back exactly the character the encoder wrote. */
  lemma DecodeStepEncodeChar(c: char, rest: seq<byte>)
    ensures DecodeStep(EncodeChar(c) + rest) == (c, |EncodeChar(c)|)
  {
    var n := c as int;
    var b := EncodeChar(c) + rest;
    DivSplit64(n);
    if n < 0x80 {
    } else if n < 0x800 {
      assert b[0] as int == 0xC0 + n / 64 && b[1] as int == 0x80 + n % 64;
    } else if n < 0x10000 {
      assert b[0] as int == 0xE0 + n / 4096;
      assert b[1] as int == 0x80 + n / 64 % 64;
      assert b[2] as int == 0x80 + n % 64;
    } else {
      assert b[0] as int == 0xF0 + n / 262144;
      assert b[1] as int == 0x80 + n / 4096 % 64;
      assert b[2] as int == 0x80 + n / 64 % 64;
      assert b[3] as int == 0x80 + n % 64;
    }
  }

  lemma {:induction false} EncodeAppend(a: string, b: string)
    ensures Encode(a + b) == Encode(a) + Encode(b)
  {
    if a != [] {
      assert (a + b)[1..] == a[1..] + b;
      EncodeAppend(a[1..], b);
    } else {
      assert a + b == b;
    }
  }

  /** UTF-8 round trip: decoding an encoded string gives the string back. */
  lemma {:induction false} DecodeEncode(s: string)
    ensures Decode(Encode(s)) == s
  {
    if s != [] {
      var e := EncodeChar(s[0]);
      DecodeStepEncodeChar(s[0], Encode(s[1..]));
      assert (e + Encode(s[1..]))[|e|..] == Encode(s[1..]);
      DecodeEncode(s[1..]);
    }
  }

  predicate IsAscii(s: string) {
    forall i :: 0 <= i < |s| ==> s[i] as int < 0x80
  }

  /** An ASCII string encodes one byte per character, each byte the character's code. */
  lemma {:induction false} EncodeAscii(s: string)
    requires IsAscii(s)
    ensures |Encode(s)| == |s|
    ensures forall i :: 0 <= i < |s| ==> Encode(s)[i] as int == s[i] as int
  {
    if s != [] {
      EncodeAscii(s[1..]);
    }
  }

  /** Bytes below 0x80 decode one character each. */
  lemma {:induction false} DecodeAscii(b: seq<byte>)
    requires forall i :: 0 <= i < |b| ==> b[i] < 0x80
    ensures |Decode(b)| == |b|
    ensures forall i :: 0 <= i < |b| ==> Decode(b)[i] as int == b[i] as int
  {
    if b != [] {
      DecodeAscii(b[1..]);
    }
  }
}
