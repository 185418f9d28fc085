/**
 * Base 16 (RFC 4648, section 8) as Node's `Buffer` implements it: `toString('hex')`
 * writes lower-case digits, and `Buffer.from(s, 'hex')` reads digits of either case
 * two at a time, stopping silently at the first pair that is not two hex digits.
 */
module Hex {
  import opened Utf8

  predicate IsHexDigit(c: char) {
    '0' <= c <= '9' || 'a' <= c <= 'f' || 'A' <= c <= 'F'
  }

  /** Digits the encoder writes: `0-9` and `a-f`. */
  predicate IsLowerHexDigit(c: char) {
    '0' <= c <= '9' || 'a' <= c <= 'f'
  }

  function DigitValue(c: char): (v: nat)
    requires IsHexDigit(c)
    ensures v < 16
  {
    if '0' <= c <= '9' then c as int - '0' as int
    else if 'a' <= c <= 'f' then c as int - 'a' as int + 10
    else c as int - 'A' as int + 10
  }

  function LowerDigit(v: nat): (c: char)
    requires v < 16
    ensures IsLowerHexDigit(c) && DigitValue(c) == v
  {
    if v < 10 then ('0' as int + v) as char else ('a' as int + v - 10) as char
  }

  /** `buf.toString('hex')`. */
  function Encode(b: seq<byte>): (s: string)
    ensures |s| == 2 * |b|
    ensures forall i :: 0 <= i < |s| ==> IsLowerHexDigit(s[i])
  {
    if b == [] then [] else [LowerDigit(b[0] as int / 16), LowerDigit(b[0] as int % 16)] + Encode(b[1..])
  }

  /** `Buffer.from(s, 'hex')`: the bytes of the longest prefix made of whole hex-digit pairs. */
  function Decode(s: string): (b: seq<byte>)
    ensures 2 * |b| <= |s|
  {
    if |s| < 2 || !IsHexDigit(s[0]) || !IsHexDigit(s[1]) then []
    else [(DigitValue(s[0]) * 16 + DigitValue(s[1])) as byte] + Decode(s[2..])
  }

  /** Byte `i` of what the lenient decoder reads is the value of digit pair `i`. */
  lemma {:induction false} DecodeAt(s: string, i: nat)
    requires i < |Decode(s)|
    ensures IsHexDigit(s[2 * i]) && IsHexDigit(s[2 * i + 1])
    ensures Decode(s)[i] as int == DigitValue(s[2 * i]) * 16 + DigitValue(s[2 * i + 1])
  {
    var rest := s[2..];
    assert Decode(s) == [(DigitValue(s[0]) * 16 + DigitValue(s[1])) as byte] + Decode(rest);
    if i > 0 {
      DecodeAt(rest, i - 1);
      assert Decode(s)[i] == Decode(rest)[i - 1];
      assert rest[2 * (i - 1)] == s[2 * i] && rest[2 * (i - 1) + 1] == s[2 * i + 1];
    }
  }

  /** Every byte read is the value of its digit pair. */
  lemma DecodeReadsPairs(s: string)
    ensures forall i :: 0 <= i < |Decode(s)| ==>
      IsHexDigit(s[2 * i]) && IsHexDigit(s[2 * i + 1])
      && Decode(s)[i] as int == DigitValue(s[2 * i]) * 16 + DigitValue(s[2 * i + 1])
  {
    forall i | 0 <= i < |Decode(s)|
      ensures IsHexDigit(s[2 * i]) && IsHexDigit(s[2 * i + 1])
        && Decode(s)[i] as int == DigitValue(s[2 * i]) * 16 + DigitValue(s[2 * i + 1])
    {
      DecodeAt(s, i);
    }
  }

  /** The decoder stops only where there is no whole pair of hex digits left. */
  lemma {:induction false} DecodeStopsAtBadPair(s: string)
    ensures var n := |Decode(s)|;
      2 * n + 2 <= |s| ==> !(IsHexDigit(s[2 * n]) && IsHexDigit(s[2 * n + 1]))
  {
    if |s| >= 2 && IsHexDigit(s[0]) && IsHexDigit(s[1]) {
      var rest := s[2..];
      DecodeStopsAtBadPair(rest);
      var m := |Decode(rest)|;
      assert |Decode(s)| == m + 1;
      if 2 * m + 4 <= |s| {
        assert rest[2 * m] == s[2 * m + 2] && rest[2 * m + 1] == s[2 * m + 3];
      }
    }
  }

  /** The two digits written for a byte read back as that byte. */
  lemma ByteDigits(x: byte)
    ensures DigitValue(LowerDigit(x as int / 16)) * 16 + DigitValue(LowerDigit(x as int % 16)) == x as int
  {
  }

  /** Decoding what the encoder wrote gives the bytes back. */
  lemma {:induction false} DecodeEncode(b: seq<byte>)
    ensures Decode(Encode(b)) == b
  {
    if b != [] {
      var s := Encode(b);
      var rest := Encode(b[1..]);
      var hi, lo := LowerDigit(b[0] as int / 16), LowerDigit(b[0] as int % 16);
      assert s == [hi, lo] + rest;
      assert s[0] == hi && s[1] == lo && s[2..] == rest;
      ByteDigits(b[0]);
      assert Decode(s) == [b[0]] + Decode(rest);
      DecodeEncode(b[1..]);
      assert b == [b[0]] + b[1..];
    }
  }
}
