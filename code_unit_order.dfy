/**
 * The order `Array.prototype.sort()` uses when given no comparator: strings compared
 * by their UTF-16 code units. A character below U+D800 is a single unit equal to its
 * code point; a supplementary character (U+10000 and up) is a surrogate pair whose
 * first unit lies in 0xD800-0xDBFF; characters U+E000-U+FFFF are single units above
 * every surrogate. `Rank` places each character at its position in that order.
 */
module CodeUnitOrder {

  function Rank(c: char): int {
    var n := c as int;
    if n < 0xD800 then n
    else if n >= 0x10000 then n - 0x10000 + 0xD800
    else n + 0x100000
  }

  lemma RankInjective(c: char, d: char)
    requires Rank(c) == Rank(d)
    ensures c == d
  {
  }

  /** The UTF-16 code units of one character. */
  function Units(c: char): (u: seq<int>)
    ensures 1 <= |u| <= 2
  {
    var n := c as int;
    if n < 0x10000 then [n]
    else [0xD800 + (n - 0x10000) / 1024, 0xDC00 + (n - 0x10000) % 1024]
  }

  /** Lexicographic order on code-unit sequences, a proper prefix first. */
  predicate UnitsBelow(x: seq<int>, y: seq<int>) {
    if x == [] then y != []
    else if y == [] then false
    else x[0] < y[0] || (x[0] == y[0] && UnitsBelow(x[1..], y[1..]))
  }

  /** Comparing ranks is comparing the characters' code units. */
  lemma RankIsUnitOrder(c: char, d: char)
    ensures Rank(c) < Rank(d) <==> UnitsBelow(Units(c), Units(d))
  {
    var n, m := c as int, d as int;
    if n >= 0x10000 && m >= 0x10000 {
      var hn, ln := (n - 0x10000) / 1024, (n - 0x10000) % 1024;
      var hm, lm := (m - 0x10000) / 1024, (m - 0x10000) % 1024;
      assert n - 0x10000 == hn * 1024 + ln;
      assert m - 0x10000 == hm * 1024 + lm;
      var uc, ud := Units(c), Units(d);
      assert uc == [0xD800 + hn, 0xDC00 + ln] && ud == [0xD800 + hm, 0xDC00 + lm];
      assert UnitsBelow(uc[1..], ud[1..]) <==> ln < lm;
      assert UnitsBelow(uc, ud) <==> hn < hm || (hn == hm && ln < lm);
    }
  }

  /** `a` sorts strictly before `b`. */
  predicate Below(a: string, b: string) {
    if a == [] then b != []
    else if b == [] then false
    else Rank(a[0]) < Rank(b[0]) || (a[0] == b[0] && Below(a[1..], b[1..]))
  }

  /** The UTF-16 code units of a string, as `sort` compares them. */
  function Utf16(s: string): (u: seq<int>)
    ensures |u| >= |s|
  {
    if s == [] then [] else Units(s[0]) + Utf16(s[1..])
  }

  /** A common prefix does not change the order. */
  lemma {:induction false} UnitsBelowAfter(u: seq<int>, x: seq<int>, y: seq<int>)
    ensures UnitsBelow(u + x, u + y) <==> UnitsBelow(x, y)
  {
    if u != [] {
      assert (u + x)[1..] == u[1..] + x && (u + y)[1..] == u[1..] + y;
      UnitsBelowAfter(u[1..], x, y);
    } else {
      assert u + x == x && u + y == y;
    }
  }

  /**
   * Two different characters differ within their code units (a lone unit never equals a
   * surrogate), so what follows them does not matter.
   */
  lemma DistinctUnits(c: char, d: char, x: seq<int>, y: seq<int>)
    requires c != d
    ensures UnitsBelow(Units(c) + x, Units(d) + y) <==> UnitsBelow(Units(c), Units(d))
  {
    var uc, ud := Units(c), Units(d);
    var n, m := c as int, d as int;
    assert (uc + x)[0] == uc[0] && (ud + y)[0] == ud[0];
    if |uc| == 2 && |ud| == 2 && uc[0] == ud[0] {
      assert n - 0x10000 == (n - 0x10000) / 1024 * 1024 + (n - 0x10000) % 1024;
      assert m - 0x10000 == (m - 0x10000) / 1024 * 1024 + (m - 0x10000) % 1024;
      assert uc[1] != ud[1];
      assert (uc + x)[1..][0] == uc[1] && (ud + y)[1..][0] == ud[1];
    }
  }

  /** `Below` is the order of the strings' UTF-16 code units, the default `sort` order. */
  lemma {:induction false} BelowIsUtf16Order(a: string, b: string)
    ensures Below(a, b) <==> UnitsBelow(Utf16(a), Utf16(b))
  {
    if a != [] && b != [] {
      assert Utf16(a) == Units(a[0]) + Utf16(a[1..]);
      assert Utf16(b) == Units(b[0]) + Utf16(b[1..]);
      if a[0] == b[0] {
        UnitsBelowAfter(Units(a[0]), Utf16(a[1..]), Utf16(b[1..]));
        BelowIsUtf16Order(a[1..], b[1..]);
      } else {
        DistinctUnits(a[0], b[0], Utf16(a[1..]), Utf16(b[1..]));
        RankIsUnitOrder(a[0], b[0]);
      }
    }
  }

  lemma {:induction false} BelowIrreflexive(a: string)
    ensures !Below(a, a)
  {
    if a != [] {
      BelowIrreflexive(a[1..]);
    }
  }

  lemma {:induction false} BelowTransitive(a: string, b: string, c: string)
    requires Below(a, b) && Below(b, c)
    ensures Below(a, c)
  {
    if a != [] && a[0] == b[0] && b[0] == c[0] {
      BelowTransitive(a[1..], b[1..], c[1..]);
    }
  }

  lemma {:induction false} BelowTotal(a: string, b: string)
    requires a != b
    ensures Below(a, b) || Below(b, a)
  {
    if a != [] && b != [] {
      if a[0] == b[0] {
        assert a == [a[0]] + a[1..] && b == [b[0]] + b[1..];
        BelowTotal(a[1..], b[1..]);
      } else if Rank(a[0]) == Rank(b[0]) {
        RankInjective(a[0], b[0]);
      }
    }
  }

  lemma BelowAsymmetric(a: string, b: string)
    requires Below(a, b)
    ensures !Below(b, a)
  {
    if Below(b, a) {
      BelowTransitive(a, b, a);
      BelowIrreflexive(a);
    }
  }

  predicate StrictlySorted(s: seq<string>) {
    forall i, j :: 0 <= i < j < |s| ==> Below(s[i], s[j])
  }

  predicate Distinct(s: seq<string>) {
    forall i, j :: 0 <= i < j < |s| ==> s[i] != s[j]
  }

  /** Insert `x` in front of the first element it sorts before. */
  function Insert(x: string, s: seq<string>): (r: seq<string>)
    ensures multiset(r) == multiset(s) + multiset{x}
  {
    if s == [] then [x]
    else if Below(s[0], x) then
      assert s == [s[0]] + s[1..];
      [s[0]] + Insert(x, s[1..])
    else [x] + s
  }

  /** `keys.sort()`: an insertion sort, one of the sorts the ECMAScript specification permits. */
  function Sort(s: seq<string>): (r: seq<string>)
    ensures multiset(r) == multiset(s)
  {
    if s == [] then []
    else
      assert s == [s[0]] + s[1..];
      Insert(s[0], Sort(s[1..]))
  }

  lemma {:induction false} InsertSorted(x: string, s: seq<string>)
    requires StrictlySorted(s) && x !in s
    ensures StrictlySorted(Insert(x, s))
  {
    if s != [] {
      if Below(s[0], x) {
        InsertSorted(x, s[1..]);
        var r := Insert(x, s[1..]);
        assert multiset(r) == multiset(s[1..]) + multiset{x};
        forall k | 0 <= k < |r|
          ensures Below(s[0], r[k])
        {
          assert r[k] in multiset(r);
          if r[k] != x {
            assert r[k] in multiset(s[1..]);
            var j :| 0 <= j < |s[1..]| && s[1..][j] == r[k];
            assert s[j + 1] == r[k];
          }
        }
      } else {
        assert x != s[0];
        BelowTotal(x, s[0]);
        forall k | 1 <= k < |s|
          ensures Below(x, s[k])
        {
          BelowTransitive(x, s[0], s[k]);
        }
      }
    }
  }

  /** Sorting keys that are pairwise different gives them in strictly ascending order. */
  lemma {:induction false} SortSorted(s: seq<string>)
    requires Distinct(s)
    ensures StrictlySorted(Sort(s))
  {
    if s != [] {
      assert Distinct(s[1..]);
      SortSorted(s[1..]);
      assert s[0] !in multiset(s[1..]);
      assert s[0] !in Sort(s[1..]) by {
        assert multiset(Sort(s[1..])) == multiset(s[1..]);
      }
      InsertSorted(s[0], Sort(s[1..]));
    }
  }

  /** Two strictly ascending sequences with the same elements are the same sequence. */
  lemma {:induction false} SortedUnique(a: seq<string>, b: seq<string>)
    requires StrictlySorted(a) && StrictlySorted(b)
    requires forall x :: x in a <==> x in b
    ensures a == b
  {
    if a != [] {
      assert a[0] in b;
    }
    if b != [] {
      assert b[0] in a;
    }
    if a != [] && b != [] {
      var i :| 0 <= i < |b| && b[i] == a[0];
      var j :| 0 <= j < |a| && a[j] == b[0];
      if i > 0 && j > 0 {
        BelowAsymmetric(b[0], a[0]);
        assert false;
      }
      assert a[0] == b[0];
      forall x
        ensures x in a[1..] <==> x in b[1..]
      {
        if x in a[1..] {
          var k :| 0 <= k < |a[1..]| && a[1..][k] == x;
          assert Below(a[0], x);
          BelowIrreflexive(a[0]);
          assert a[k + 1] == x;
          assert x in a;
          assert x in b;
          var m :| 0 <= m < |b| && b[m] == x;
          assert m > 0;
          assert b[1..][m - 1] == x;
        }
        if x in b[1..] {
          var k :| 0 <= k < |b[1..]| && b[1..][k] == x;
          assert Below(b[0], x);
          BelowIrreflexive(b[0]);
          assert b[k + 1] == x;
          assert x in b;
          assert x in a;
          var m :| 0 <= m < |a| && a[m] == x;
          assert m > 0;
          assert a[1..][m - 1] == x;
        }
      }
      SortedUnique(a[1..], b[1..]);
      assert a == [a[0]] + a[1..] && b == [b[0]] + b[1..];
    }
  }
}
