/**
 * The JavaScript string operations the SDK relies on: `trim`, `toUpperCase`
 * (on ASCII letters), `includes`, `indexOf` and `split` with a string separator.
 */
module JsString {

  /** The characters `String.prototype.trim` removes: ECMAScript WhiteSpace and LineTerminator. */
  predicate IsJsSpace(c: char) {
    var n := c as int;
    // TAB, LF, VT, FF, CR, SPACE
    || 0x09 <= n <= 0x0D || n == 0x20
    // NO-BREAK SPACE, OGHAM SPACE MARK, EN QUAD .. HAIR SPACE
    || n == 0xA0 || n == 0x1680 || 0x2000 <= n <= 0x200A
    // LINE SEPARATOR, PARAGRAPH SEPARATOR, NARROW NBSP, MEDIUM MATHEMATICAL SPACE
    || n == 0x2028 || n == 0x2029 || n == 0x202F || n == 0x205F
    // IDEOGRAPHIC SPACE, ZERO WIDTH NO-BREAK SPACE (BOM)
    || n == 0x3000 || n == 0xFEFF
  }

  predicate AllSpace(s: string) {
    forall i :: 0 <= i < |s| ==> IsJsSpace(s[i])
  }

  function TrimStart(s: string): (r: string)
    ensures |r| <= |s| && r == s[|s| - |r|..]
    ensures r == [] || !IsJsSpace(r[0])
    ensures AllSpace(s[..|s| - |r|])
  {
    if |s| > 0 && IsJsSpace(s[0]) then
      var r := TrimStart(s[1..]);
      assert s[..|s| - |r|] == [s[0]] + s[1..][..|s| - 1 - |r|];
      r
    else s
  }

  function TrimEnd(s: string): (r: string)
    ensures |r| <= |s| && r == s[..|r|]
    ensures r == [] || !IsJsSpace(r[|r| - 1])
    ensures AllSpace(s[|r|..])
  {
    if |s| > 0 && IsJsSpace(s[|s| - 1]) then
      var r := TrimEnd(s[..|s| - 1]);
      assert s[|r|..] == s[..|s| - 1][|r|..] + [s[|s| - 1]];
      r
    else s
  }

  /** `s.trim()`: drop leading and trailing white space. */
  function Trim(s: string): string {
    TrimEnd(TrimStart(s))
  }

  lemma {:induction false} TrimStartPadded(pad: string, s: string)
    requires AllSpace(pad)
    ensures TrimStart(pad + s) == TrimStart(s)
    decreases |pad|
  {
    if pad != [] {
      assert (pad + s)[1..] == pad[1..] + s;
      TrimStartPadded(pad[1..], s);
    } else {
      assert pad + s == s;
    }
  }

  lemma {:induction false} TrimEndPadded(s: string, pad: string)
    requires AllSpace(pad)
    ensures TrimEnd(s + pad) == TrimEnd(s)
    decreases |pad|
  {
    if pad != [] {
      assert (s + pad)[..|s + pad| - 1] == s + pad[..|pad| - 1];
      TrimEndPadded(s, pad[..|pad| - 1]);
    } else {
      assert s + pad == s;
    }
  }

  lemma {:induction false} TrimStartAppend(s: string, t: string)
    requires TrimStart(s) != []
    ensures TrimStart(s + t) == TrimStart(s) + t
    decreases |s|
  {
    if IsJsSpace(s[0]) {
      assert (s + t)[1..] == s[1..] + t;
      TrimStartAppend(s[1..], t);
    }
  }

  lemma AllSpaceTrimStart(s: string)
    requires AllSpace(s)
    ensures TrimStart(s) == []
  {
  }

  /**
   * Surrounding white space does not matter: a key or IV padded with white space
   * trims to the same string as the unpadded one.
   */
  lemma TrimIgnoresPadding(before: string, s: string, after: string)
    requires AllSpace(before) && AllSpace(after)
    ensures Trim(before + s + after) == Trim(s)
  {
    assert before + s + after == before + (s + after);
    TrimStartPadded(before, s + after);
    if TrimStart(s) == [] {
      assert AllSpace(s);
      TrimStartPadded(s, after);
      AllSpaceTrimStart(after);
    } else {
      TrimStartAppend(s, after);
      TrimEndPadded(TrimStart(s), after);
    }
  }

  /** Trimming twice changes nothing more. */
  lemma TrimIdempotent(s: string)
    ensures Trim(Trim(s)) == Trim(s)
  {
    var t := TrimStart(s);
    var r := TrimEnd(t);
    if r != [] {
      assert r[0] == t[0];
      assert !IsJsSpace(r[0]) && !IsJsSpace(r[|r| - 1]);
    }
    assert TrimStart(r) == r;
    assert TrimEnd(r) == r;
  }

  /** ASCII upper-casing of one character; other characters are unchanged. */
  function UpperAscii(c: char): char {
    if 'a' <= c <= 'z' then (c as int - 32) as char else c
  }

  function LowerAscii(c: char): char {
    if 'A' <= c <= 'Z' then (c as int + 32) as char else c
  }

  /** `s.toUpperCase()` restricted to the ASCII letters. */
  function ToUpperAscii(s: string): (r: string)
    ensures |r| == |s|
    ensures forall i :: 0 <= i < |s| ==> r[i] == UpperAscii(s[i])
  {
    if s == [] then [] else [UpperAscii(s[0])] + ToUpperAscii(s[1..])
  }

  /** `s.toLowerCase()` restricted to the ASCII letters. */
  function ToLowerAscii(s: string): (r: string)
    ensures |r| == |s|
    ensures forall i :: 0 <= i < |s| ==> r[i] == LowerAscii(s[i])
  {
    if s == [] then [] else [LowerAscii(s[0])] + ToLowerAscii(s[1..])
  }

  /** `s.indexOf(c)` for a character known to occur: the first position holding it. */
  function IndexOfChar(s: string, c: char): (i: nat)
    requires c in s
    ensures i < |s| && s[i] == c && c !in s[..i]
  {
    if s[0] == c then 0 else 1 + IndexOfChar(s[1..], c)
  }

  /** Whether `sep` occurs in `s` at position `i`. */
  predicate OccursAt(s: string, sep: string, i: nat) {
    i + |sep| <= |s| && s[i..i + |sep|] == sep
  }

  /** `s.indexOf(sep)`, or -1 when `sep` does not occur. */
  function IndexOf(s: string, sep: string): (i: int)
    requires |sep| > 0
    ensures i == -1 || 0 <= i <= |s| - |sep|
    ensures i >= 0 ==> OccursAt(s, sep, i)
    ensures forall j :: 0 <= j < (if i < 0 then |s| else i) ==> !OccursAt(s, sep, j)
    decreases |s|
  {
    if |s| < |sep| then -1
    else if s[..|sep|] == sep then 0
    else
      var k := IndexOf(s[1..], sep);
      assert forall j :: 1 <= j <= |s| - |sep| ==> (OccursAt(s, sep, j) <==> OccursAt(s[1..], sep, j - 1));
      if k < 0 then -1 else k + 1
  }

  /** `s.split(sep)` for a non-empty separator: the pieces between the occurrences. */
  function Split(s: string, sep: string): (pieces: seq<string>)
    requires |sep| > 0
    ensures |pieces| >= 1
    decreases |s|
  {
    var i := IndexOf(s, sep);
    if i < 0 then [s] else [s[..i]] + Split(s[i + |sep|..], sep)
  }

  /** A string free of `c` has no occurrence of a separator that starts with `c`. */
  lemma NoOccurrence(s: string, sep: string, j: nat)
    requires |sep| > 0 && j < |s| && s[j] != sep[0]
    ensures !OccursAt(s, sep, j)
  {
    if j + |sep| <= |s| {
      assert s[j..j + |sep|][0] == s[j];
    }
  }

  /** A separator whose first character does not occur in `a` is first found right after `a`. */
  lemma SplitAfterClean(a: string, sep: string, b: string)
    requires |sep| > 0 && sep[0] !in a
    ensures Split(a + sep + b, sep) == [a] + Split(b, sep)
  {
    var s := a + sep + b;
    assert OccursAt(s, sep, |a|) by {
      assert s[|a|..|a| + |sep|] == sep;
    }
    forall j | 0 <= j < |a|
      ensures !OccursAt(s, sep, j)
    {
      assert s[j] == a[j];
      NoOccurrence(s, sep, j);
    }
    assert IndexOf(s, sep) == |a|;
    assert s[..|a|] == a;
    assert s[|a| + |sep|..] == b;
  }

  /** A string free of the separator's first character holds no occurrence of it. */
  lemma NoOccurrenceAnywhere(b: string, sep: string)
    requires |sep| > 0 && sep[0] !in b
    ensures forall j :: 0 <= j < |b| ==> !OccursAt(b, sep, j)
  {
    forall j | 0 <= j < |b|
      ensures !OccursAt(b, sep, j)
    {
      assert b[j] in b;
      NoOccurrence(b, sep, j);
    }
  }

  /** A string free of the separator's first character is a single piece. */
  lemma SplitClean(b: string, sep: string)
    requires |sep| > 0 && sep[0] !in b
    ensures Split(b, sep) == [b]
  {
    NoOccurrenceAnywhere(b, sep);
  }
}
