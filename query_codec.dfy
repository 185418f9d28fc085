/**
 * What `CryptoHelper.objectToQueryString` and `CryptoHelper.queryStringToObject`
 * (src/utils/crypto.ts) compute, stated as functions: the canonical query string of a
 * field map, and the field map read back from a query string. The class methods in
 * module Crypto run the source's loops and are proved equal to these functions.
 */
module QueryCodec {
  import opened Wrappers
  import opened JsValue
  import opened CodeUnitOrder
  import opened UrlEncoded
  import JsString

  // Serializing

  /** `obj[key] !== undefined && obj[key] !== null`: the value is appended. */
  predicate Kept(v: Value) {
    v != Null && v != Undefined
  }

  /** The pairs appended for the keys `ks`, visited in order. */
  function PairsFor(o: JsObject, ks: seq<string>): (ps: seq<(string, string)>)
    ensures |ps| <= |ks|
  {
    if ks == [] then []
    else
      var k := ks[|ks| - 1];
      var v := Get(o, k);
      PairsFor(o, ks[..|ks| - 1]) + (if Kept(v) then [(k, ToJsString(v))] else [])
  }

  /** The pairs of the field map in sorted key order, nulls and undefineds dropped. */
  function CanonicalPairs(o: JsObject): seq<(string, string)> {
    PairsFor(o, Sort(KeysOf(o)))
  }

  /** What an object with nothing to serialize is sent as. */
  const Placeholder: string := "empty=1"

  /** The query string of a field map: its serialized canonical pairs, or the placeholder. */
  function QueryString(o: JsObject): (s: string)
    ensures s != ""
  {
    var s := Serialize(CanonicalPairs(o));
    if s == "" then Placeholder else s
  }

  /** Every serialized pair is a kept key of the map with its value as text. */
  lemma {:induction false} PairsForEntry(o: JsObject, ks: seq<string>, i: nat)
    requires i < |PairsFor(o, ks)|
    ensures PairsFor(o, ks)[i].0 in ks
    ensures Kept(Get(o, PairsFor(o, ks)[i].0))
    ensures PairsFor(o, ks)[i].1 == ToJsString(Get(o, PairsFor(o, ks)[i].0))
  {
    var init := ks[..|ks| - 1];
    if i < |PairsFor(o, init)| {
      PairsForEntry(o, init, i);
      assert PairsFor(o, init)[i].0 in init;
    }
  }

  /** The pairs depend only on what a lookup of each key gives. */
  lemma {:induction false} PairsForSameValues(o1: JsObject, o2: JsObject, ks: seq<string>)
    requires forall k :: k in ks ==> Get(o1, k) == Get(o2, k)
    ensures PairsFor(o1, ks) == PairsFor(o2, ks)
  {
    if ks != [] {
      assert ks[|ks| - 1] in ks;
      PairsForSameValues(o1, o2, ks[..|ks| - 1]);
    }
  }

  /** The keys of a field map, sorted, with the same elements in every insertion order. */
  lemma SortedKeysAgree(o1: JsObject, o2: JsObject)
    requires forall k :: k in KeysOf(o1) <==> k in KeysOf(o2)
    ensures Sort(KeysOf(o1)) == Sort(KeysOf(o2))
  {
    var s1, s2 := Sort(KeysOf(o1)), Sort(KeysOf(o2));
    SortSorted(KeysOf(o1));
    SortSorted(KeysOf(o2));
    forall k
      ensures k in s1 <==> k in s2
    {
      assert k in s1 <==> k in multiset(s1);
      assert k in s2 <==> k in multiset(s2);
      assert k in KeysOf(o1) <==> k in multiset(KeysOf(o1));
      assert k in KeysOf(o2) <==> k in multiset(KeysOf(o2));
    }
    SortedUnique(s1, s2);
  }

  /**
   * Two field maps with the same keys and the same value under each key serialize to
   * the same query string, whatever order their keys were inserted in.
   */
  lemma QueryStringOrderInvariant(o1: JsObject, o2: JsObject)
    requires forall k :: k in KeysOf(o1) <==> k in KeysOf(o2)
    requires forall k :: Get(o1, k) == Get(o2, k)
    ensures QueryString(o1) == QueryString(o2)
  {
    SortedKeysAgree(o1, o2);
    PairsForSameValues(o1, o2, Sort(KeysOf(o1)));
  }

  /** A map with nothing but null and undefined values is sent as the placeholder. */
  lemma {:induction false} NothingKeptGivesPlaceholder(o: JsObject)
    requires forall i :: 0 <= i < |o| ==> !Kept(o[i].1)
    ensures QueryString(o) == Placeholder
  {
    var cp := CanonicalPairs(o);
    if cp != [] {
      var ks := Sort(KeysOf(o));
      PairsForEntry(o, ks, 0);
      var k := cp[0].0;
      assert k in multiset(ks);
      assert k in KeysOf(o);
      var i :| 0 <= i < |o| && KeysOf(o)[i] == k;
      GetEntry(o, i);
    }
    SerializeEmpty(cp);
  }

  // Parsing

  /** A field of the decoded object: a string, or the array built from `name[...]` keys. */
  datatype Decoded = Text(s: string) | List(items: seq<string>)

  type Fields = map<string, Decoded>

  /** The TypeError V8 raises when `push` is called on a string. */
  const PushError: string := "result[baseKey].push is not a function"

  /** `key.includes('[') && key.includes(']')`. */
  predicate IsArrayKey(key: string) {
    '[' in key && ']' in key
  }

  /** `key.substring(0, key.indexOf('['))`. */
  function BaseKey(key: string): (base: string)
    requires '[' in key
    ensures |base| < |key| && '[' !in base && key[..|base|] == base && key[|base|] == '['
  {
    key[..JsString.IndexOfChar(key, '[')]
  }

  /** `result[baseKey]` is truthy: it is an array, or a non-empty string. */
  predicate TruthyAt(m: Fields, k: string) {
    k in m && (m[k].List? || m[k].s != "")
  }

  /** The body of the `forEach` callback for one pair. */
  function Step(m: Fields, p: (string, string)): (r: Result<Fields, string>)
    ensures r.Err? ==> IsArrayKey(p.0) && r.error == PushError
    ensures r.Ok? ==> m.Keys <= r.value.Keys
    ensures r.Ok? && Plain(p) ==> r.value == m[p.0 := Text(p.1)]
    ensures r.Ok? && IsArrayKey(p.0) ==>
      BaseKey(p.0) in r.value && r.value[BaseKey(p.0)].List? && |r.value[BaseKey(p.0)].items| > 0
      && r.value[BaseKey(p.0)].items[|r.value[BaseKey(p.0)].items| - 1] == p.1
  {
    var (key, value) := p;
    if key == "empty" && value == "1" then Ok(m)
    else if IsArrayKey(key) then
      var base := BaseKey(key);
      var current := if TruthyAt(m, base) then m[base] else List([]);
      match current
      case List(xs) => Ok(m[base := List(xs + [value])])
      case Text(_) => Err(PushError)
    else Ok(m[key := Text(value)])
  }

  /** One `name[...]` pair: pushed onto the array under the base name, or the TypeError. */
  lemma StepArrayKey(m: Fields, key: string, value: string)
    requires IsArrayKey(key) && !(key == "empty" && value == "1")
    ensures var base := BaseKey(key);
      var current := if TruthyAt(m, base) then m[base] else List([]);
      Step(m, (key, value)) ==
        if current.List? then Ok(m[base := List(current.items + [value])]) else Err(PushError)
  {
  }

  /** The callback run over the pairs in order; the first error ends the run. */
  function Fold(ps: seq<(string, string)>): (r: Result<Fields, string>)
    ensures r.Err? ==> r.error == PushError
  {
    if ps == [] then Ok(map[])
    else
      match Fold(ps[..|ps| - 1])
      case Err(e) => Err(e)
      case Ok(m) => Step(m, ps[|ps| - 1])
  }

  /** One more pair runs the callback once more on the map built so far. */
  lemma FoldNext(ps: seq<(string, string)>, i: nat, m: Fields)
    requires i < |ps| && Fold(ps[..i]) == Ok(m)
    ensures Fold(ps[..i + 1]) == Step(m, ps[i])
  {
    assert ps[..i + 1][..i] == ps[..i];
  }

  /** The field map read back from a query string, or the TypeError that stops it. */
  function DecodeFields(qs: string): Result<Fields, string> {
    Fold(Parse(qs))
  }

  /** Once the callback has failed, the rest of the pairs change nothing. */
  lemma {:induction false} FoldErrorSticks(ps: seq<(string, string)>, j: nat)
    requires j <= |ps| && Fold(ps[..j]).Err?
    ensures Fold(ps) == Fold(ps[..j])
    decreases |ps| - j
  {
    if j < |ps| {
      assert ps[..j + 1][..j] == ps[..j];
      FoldErrorSticks(ps, j + 1);
    } else {
      assert ps[..j] == ps;
    }
  }

  /** Pairs with plain keys, read as plain assignments: a later key overwrites an earlier one. */
  function Assign(ps: seq<(string, string)>): Fields {
    if ps == [] then map[]
    else Assign(ps[..|ps| - 1])[ps[|ps| - 1].0 := Text(ps[|ps| - 1].1)]
  }

  /** Neither an array key nor the placeholder pair. */
  predicate Plain(p: (string, string)) {
    !IsArrayKey(p.0) && !(p.0 == "empty" && p.1 == "1")
  }

  /** Over plain pairs the callback is plain assignment. */
  lemma {:induction false} FoldPlain(ps: seq<(string, string)>)
    requires forall i :: 0 <= i < |ps| ==> Plain(ps[i])
    ensures Fold(ps) == Ok(Assign(ps))
  {
    if ps != [] {
      FoldPlain(ps[..|ps| - 1]);
    }
  }

  /** The index of the last pair whose key is `k`, or -1. */
  function LastIndex(ps: seq<(string, string)>, k: string): (j: int)
    ensures -1 <= j < |ps|
    ensures j >= 0 ==> ps[j].0 == k
    ensures forall i :: j < i < |ps| ==> ps[i].0 != k
  {
    if ps == [] then -1
    else if ps[|ps| - 1].0 == k then |ps| - 1
    else LastIndex(ps[..|ps| - 1], k)
  }

  /** Last write wins: a key is present iff some pair carries it, with its last value. */
  lemma {:induction false} AssignLastWins(ps: seq<(string, string)>, k: string)
    ensures k in Assign(ps) <==> LastIndex(ps, k) >= 0
    ensures k in Assign(ps) ==> Assign(ps)[k] == Text(ps[LastIndex(ps, k)].1)
  {
    if ps != [] {
      AssignLastWins(ps[..|ps| - 1], k);
    }
  }

  /** Array keys sharing one base name, none of them the placeholder pair. */
  predicate ArrayRun(ps: seq<(string, string)>, base: string) {
    forall i :: 0 <= i < |ps| ==>
      IsArrayKey(ps[i].0) && BaseKey(ps[i].0) == base && !(ps[i].0 == "empty" && ps[i].1 == "1")
  }

  function Values(ps: seq<(string, string)>): (vs: seq<string>)
    ensures |vs| == |ps| && forall i :: 0 <= i < |ps| ==> vs[i] == ps[i].1
  {
    seq(|ps|, i requires 0 <= i < |ps| => ps[i].1)
  }

  /** `name[...]` pairs build one array under `name`, the values in order of appearance. */
  lemma {:induction false} FoldArrayRun(ps: seq<(string, string)>, base: string)
    requires ps != [] && ArrayRun(ps, base)
    ensures Fold(ps) == Ok(map[base := List(Values(ps))])
  {
    var init := ps[..|ps| - 1];
    var last := ps[|ps| - 1];
    if init != [] {
      FoldArrayRun(init, base);
      var m := map[base := List(Values(init))];
      assert IsArrayKey(last.0) && BaseKey(last.0) == base && TruthyAt(m, base);
      assert Step(m, last) == Ok(m[base := List(Values(init) + [last.1])]);
      assert Values(init) + [last.1] == Values(ps);
      assert Fold(init) == Ok(m);
      assert Fold(ps) == Step(m, last);
      assert m[base := List(Values(init) + [last.1])] == map[base := List(Values(ps))];
    } else {
      assert ps[..0] == [];
      assert Values(ps) == [] + [ps[0].1];
    }
  }

  /** The values of the `name[...]` pairs whose base name is `b`, in order of appearance. */
  function ArrayValues(ps: seq<(string, string)>, b: string): (vs: seq<string>)
    ensures |vs| <= |ps|
  {
    if ps == [] then []
    else
      var last := ps[|ps| - 1];
      ArrayValues(ps[..|ps| - 1], b) + (if IsArrayKey(last.0) && BaseKey(last.0) == b then [last.1] else [])
  }

  /** No `name[...]` pair with base name `b`: no values for `b`. */
  lemma {:induction false} ArrayValuesNone(ps: seq<(string, string)>, b: string)
    requires forall j :: 0 <= j < |ps| && IsArrayKey(ps[j].0) ==> BaseKey(ps[j].0) != b
    ensures ArrayValues(ps, b) == []
  {
    if ps != [] {
      ArrayValuesNone(ps[..|ps| - 1], b);
    }
  }

  /** The index of the last plain pair whose key is `k`, or -1. */
  function LastPlain(ps: seq<(string, string)>, k: string): (j: int)
    ensures -1 <= j < |ps|
    ensures j >= 0 ==> Plain(ps[j]) && ps[j].0 == k
    ensures forall i :: j < i < |ps| ==> !(Plain(ps[i]) && ps[i].0 == k)
  {
    if ps == [] then -1
    else if Plain(ps[|ps| - 1]) && ps[|ps| - 1].0 == k then |ps| - 1
    else LastPlain(ps[..|ps| - 1], k)
  }

  /** No plain key is also the base name of a `name[...]` key. */
  predicate Separated(ps: seq<(string, string)>) {
    forall i, j :: 0 <= i < |ps| && 0 <= j < |ps| && Plain(ps[i]) && IsArrayKey(ps[j].0) ==>
      ps[i].0 != BaseKey(ps[j].0)
  }

  /**
   * `m` is what the pairs describe: each base name holds the array of its `name[...]`
   * values, each plain key holds its last value, and nothing else is present.
   */
  ghost predicate Describes(m: Fields, ps: seq<(string, string)>) {
    forall k ::
      && (k in m <==> ArrayValues(ps, k) != [] || LastPlain(ps, k) >= 0)
      && (ArrayValues(ps, k) != [] ==> k in m && m[k] == List(ArrayValues(ps, k)))
      && (LastPlain(ps, k) >= 0 ==> k in m && m[k] == Text(ps[LastPlain(ps, k)].1))
  }

  /** The last of the pairs is the placeholder: what the others describe stays as it is. */
  lemma DescribesPlaceholder(ps: seq<(string, string)>, m: Fields)
    requires ps != [] && ps[|ps| - 1] == ("empty", "1") && Describes(m, ps[..|ps| - 1])
    ensures Describes(m, ps)
  {
    var init := ps[..|ps| - 1];
    forall k
      ensures ArrayValues(ps, k) == ArrayValues(init, k) && LastPlain(ps, k) == LastPlain(init, k)
    {
      assert ArrayValues(ps, k) == ArrayValues(init, k) + [];
    }
  }

  /** Pushing the last pair's value under its base name describes all the pairs. */
  lemma DescribesPush(ps: seq<(string, string)>, m: Fields)
    requires ps != [] && Describes(m, ps[..|ps| - 1]) && IsArrayKey(ps[|ps| - 1].0)
    requires LastPlain(ps[..|ps| - 1], BaseKey(ps[|ps| - 1].0)) < 0
    ensures
      var b := BaseKey(ps[|ps| - 1].0);
      Describes(m[b := List(ArrayValues(ps[..|ps| - 1], b) + [ps[|ps| - 1].1])], ps)
  {
    var n := |ps| - 1;
    var init, last := ps[..n], ps[n];
    var b := BaseKey(last.0);
    var av := ArrayValues(init, b);
    var m' := m[b := List(av + [last.1])];
    forall k
      ensures && (k in m' <==> ArrayValues(ps, k) != [] || LastPlain(ps, k) >= 0)
              && (ArrayValues(ps, k) != [] ==> k in m' && m'[k] == List(ArrayValues(ps, k)))
              && (LastPlain(ps, k) >= 0 ==> k in m' && m'[k] == Text(ps[LastPlain(ps, k)].1))
    {
      assert LastPlain(ps, k) == LastPlain(init, k);
      if k == b {
        assert ArrayValues(ps, k) == av + [last.1];
      } else {
        assert ArrayValues(ps, k) == ArrayValues(init, k) + [];
      }
    }
  }

  /** The last of the pairs is a `name[...]` pair: its value joins its base name's array. */
  lemma DescribesArrayKey(ps: seq<(string, string)>, m: Fields)
    requires ps != [] && Separated(ps) && Describes(m, ps[..|ps| - 1])
    requires IsArrayKey(ps[|ps| - 1].0)
    ensures Step(m, ps[|ps| - 1]).Ok? && Describes(Step(m, ps[|ps| - 1]).value, ps)
  {
    var n := |ps| - 1;
    var init, last := ps[..n], ps[n];
    var b := BaseKey(last.0);
    assert LastPlain(init, b) < 0;
    var av := ArrayValues(init, b);
    assert (if TruthyAt(m, b) then m[b] else List([])) == List(av);
    assert Step(m, last) == Ok(m[b := List(av + [last.1])]);
    DescribesPush(ps, m);
  }

  /** The last of the pairs is plain: its key now holds its value. */
  lemma DescribesPlainKey(ps: seq<(string, string)>, m: Fields)
    requires ps != [] && Separated(ps) && Describes(m, ps[..|ps| - 1])
    requires Plain(ps[|ps| - 1])
    ensures Step(m, ps[|ps| - 1]).Ok? && Describes(Step(m, ps[|ps| - 1]).value, ps)
  {
    var n := |ps| - 1;
    var init, last := ps[..n], ps[n];
    var k0 := last.0;
    assert ArrayValues(ps, k0) == [] by {
      forall j | 0 <= j < |ps| && IsArrayKey(ps[j].0)
        ensures BaseKey(ps[j].0) != k0
      {
      }
      ArrayValuesNone(ps, k0);
    }
    var m' := m[k0 := Text(last.1)];
    assert Step(m, last) == Ok(m');
    forall k
      ensures && (k in m' <==> ArrayValues(ps, k) != [] || LastPlain(ps, k) >= 0)
              && (ArrayValues(ps, k) != [] ==> k in m' && m'[k] == List(ArrayValues(ps, k)))
              && (LastPlain(ps, k) >= 0 ==> k in m' && m'[k] == Text(ps[LastPlain(ps, k)].1))
    {
      assert ArrayValues(ps, k) == ArrayValues(init, k) + [];
      if k == k0 {
        assert LastPlain(ps, k) == n;
      } else {
        assert LastPlain(ps, k) == LastPlain(init, k);
      }
    }
  }

  /**
   * Plain and `name[...]` keys in any interleaving decode without error, as long as no
   * plain key is also a base name: `name[...]` values gather under the base name in
   * order, and a plain key keeps its last value.
   */
  lemma {:induction false} FoldInterleaved(ps: seq<(string, string)>)
    requires Separated(ps)
    ensures Fold(ps).Ok? && Describes(Fold(ps).value, ps)
  {
    if ps != [] {
      var n := |ps| - 1;
      var init := ps[..n];
      assert Separated(init) by {
        forall i, j | 0 <= i < |init| && 0 <= j < |init| && Plain(init[i]) && IsArrayKey(init[j].0)
          ensures init[i].0 != BaseKey(init[j].0)
        {
          assert init[i] == ps[i] && init[j] == ps[j];
        }
      }
      FoldInterleaved(init);
      var m := Fold(init).value;
      if ps[n] == ("empty", "1") {
        DescribesPlaceholder(ps, m);
      } else if IsArrayKey(ps[n].0) {
        DescribesArrayKey(ps, m);
      } else {
        DescribesPlainKey(ps, m);
      }
    }
  }

  /** A string that a later `name[...]` key meets aborts the decoding with a TypeError. */
  lemma PushOnStringFails()
    ensures Fold([("a", "x"), ("a[0]", "y")]) == Err(PushError)
  {
    assert "a[0]"[1] == '[' && "a[0]"[3] == ']';
    assert BaseKey("a[0]") == "a";
    assert [("a", "x"), ("a[0]", "y")][..1] == [("a", "x")];
  }

  /** An empty string is falsy, so a later `name[...]` key replaces it with a new array. */
  lemma EmptyStringReplacedByArray()
    ensures Fold([("a", ""), ("a[]", "y")]) == Ok(map["a" := List(["y"])])
  {
    var ps := [("a", ""), ("a[]", "y")];
    assert ps[..1][..0] == [];
    assert Fold(ps[..1]) == Ok(map["a" := Text("")]);
    assert "a[]"[1] == '[' && "a[]"[2] == ']';
    assert IsArrayKey("a[]");
    assert BaseKey("a[]") == "a";
    assert !TruthyAt(map["a" := Text("")], "a");
    assert [] + ["y"] == ["y"];
    assert Fold(ps) == Step(map["a" := Text("")], ("a[]", "y"));
    assert map["a" := Text("")]["a" := List(["y"])] == map["a" := List(["y"])];
  }

  /** The placeholder pair is dropped wherever it appears, even when a caller sent it. */
  lemma PlaceholderPairDropped()
    ensures Fold([("empty", "1"), ("b", "2")]) == Ok(map["b" := Text("2")])
  {
    assert [("empty", "1"), ("b", "2")][..1] == [("empty", "1")];
  }

  lemma PlaceholderSerialized()
    ensures Serialize([("empty", "1")]) == Placeholder
  {
    assert Utf8.Encode("empty") == [0x65, 0x6D, 0x70, 0x74, 0x79];
    assert Utf8.Encode("1") == [0x31];
    assert EncodeBytes([0x65, 0x6D, 0x70, 0x74, 0x79]) == [0x65, 0x6D, 0x70, 0x74, 0x79];
    assert EncodeBytes([0x31]) == [0x31];
  }

  /** The placeholder decodes to the empty object. */
  lemma DecodePlaceholder()
    ensures DecodeFields(Placeholder) == Ok(map[])
  {
    PlaceholderSerialized();
    ParseSerialize([("empty", "1")]);
  }

  // Round trip

  /** What decoding a field map's query string should give: each kept key with its value as text. */
  function ExpectedOn(o: JsObject, ks: seq<string>): Fields {
    map k | k in ks && Kept(Get(o, k)) :: Text(ToJsString(Get(o, k)))
  }

  lemma {:induction false} AssignPairsFor(o: JsObject, ks: seq<string>)
    ensures Assign(PairsFor(o, ks)) == ExpectedOn(o, ks)
  {
    if ks != [] {
      var init := ks[..|ks| - 1];
      var k := ks[|ks| - 1];
      AssignPairsFor(o, init);
      var ps := PairsFor(o, init);
      if Kept(Get(o, k)) {
        var p := (k, ToJsString(Get(o, k)));
        assert (ps + [p])[..|ps|] == ps;
      } else {
        assert ps + [] == ps;
      }
      assert ks == init + [k];
    }
  }

  /** The canonical pairs of a map the round trip applies to are all plain. */
  lemma CanonicalPairsPlain(o: JsObject)
    requires forall i :: 0 <= i < |o| && Kept(o[i].1) ==> !IsArrayKey(o[i].0)
    requires !(Kept(Get(o, "empty")) && ToJsString(Get(o, "empty")) == "1")
    ensures forall i :: 0 <= i < |CanonicalPairs(o)| ==> Plain(CanonicalPairs(o)[i])
  {
    var ks := Sort(KeysOf(o));
    var cp := CanonicalPairs(o);
    forall i | 0 <= i < |cp|
      ensures Plain(cp[i])
    {
      PairsForEntry(o, ks, i);
      var k := cp[i].0;
      assert k in multiset(ks);
      assert k in KeysOf(o);
      var j :| 0 <= j < |o| && KeysOf(o)[j] == k;
      GetEntry(o, j);
    }
  }

  /** Sorting the keys does not change what is expected. */
  lemma ExpectedSorted(o: JsObject)
    ensures ExpectedOn(o, Sort(KeysOf(o))) == ExpectedOn(o, KeysOf(o))
  {
    var ks := Sort(KeysOf(o));
    forall k
      ensures k in ks <==> k in KeysOf(o)
    {
      assert k in ks <==> k in multiset(ks);
      assert k in KeysOf(o) <==> k in multiset(KeysOf(o));
    }
  }

  /**
   * Decoding the query string of a field map gives back every non-null, non-undefined
   * field with its value as a string, provided no kept key looks like `name[...]` and no
   * kept field `empty` prints as "1" (both of which the decoder treats specially).
   */
  lemma RoundTrip(o: JsObject)
    requires forall i :: 0 <= i < |o| && Kept(o[i].1) ==> !IsArrayKey(o[i].0)
    requires !(Kept(Get(o, "empty")) && ToJsString(Get(o, "empty")) == "1")
    ensures DecodeFields(QueryString(o)) == Ok(ExpectedOn(o, KeysOf(o)))
  {
    var cp := CanonicalPairs(o);
    CanonicalPairsPlain(o);
    AssignPairsFor(o, Sort(KeysOf(o)));
    ExpectedSorted(o);
    SerializeEmpty(cp);
    if cp == [] {
      DecodePlaceholder();
    } else {
      ParseSerialize(cp);
      FoldPlain(cp);
    }
  }
}
