/**
 * The JavaScript values a field map of the SDK holds, and the two coercions the code
 * applies to them: truthiness (`if (x)`, `!x`, `x || y`) and `String(x)`.
 */
module JsValue {
  import opened CodeUnitOrder

  /** A field value: a string, an integral number, a boolean, `null` or `undefined`. */
  datatype Value = Str(s: string) | Num(n: int) | Bool(b: bool) | Null | Undefined

  /** ECMAScript ToBoolean: `''`, `0`, `false`, `null` and `undefined` are falsy. */
  predicate Truthy(v: Value) {
    match v
    case Str(s) => s != ""
    case Num(n) => n != 0
    case Bool(b) => b
    case Null => false
    case Undefined => false
  }

  /** The decimal digits of a natural number, most significant first, without leading zeros. */
  function Digits(n: nat): (r: string)
    ensures |r| >= 1
    ensures forall i :: 0 <= i < |r| ==> '0' <= r[i] <= '9'
    ensures (r[0] == '0') == (n == 0)
  {
    if n < 10 then [('0' as int + n) as char]
    else Digits(n / 10) + [('0' as int + n % 10) as char]
  }

  /** The number a string of decimal digits spells. */
  function DigitsValue(s: string): int
    requires forall i :: 0 <= i < |s| ==> '0' <= s[i] <= '9'
  {
    if s == [] then 0 else DigitsValue(s[..|s| - 1]) * 10 + (s[|s| - 1] as int - '0' as int)
  }

  /** The digits read back as the number they were written for. */
  lemma {:induction false} DigitsValueOf(n: nat)
    ensures DigitsValue(Digits(n)) == n
  {
    if n >= 10 {
      var d := Digits(n);
      assert d[..|d| - 1] == Digits(n / 10);
      DigitsValueOf(n / 10);
    }
  }

  /** `String(n)` for an integral number. */
  function Decimal(n: int): string {
    if n < 0 then "-" + Digits(-n) else Digits(n)
  }

  /** `String(v)`: the text `URLSearchParams.append` and the request parameters receive. */
  function ToJsString(v: Value): string {
    match v
    case Str(s) => s
    case Num(n) => Decimal(n)
    case Bool(b) => if b then "true" else "false"
    case Null => "null"
    case Undefined => "undefined"
  }

  /** Only a string value can print as the empty string; a number never does. */
  lemma ToJsStringEmpty(v: Value)
    ensures ToJsString(v) == "" <==> v == Str("")
  {
    if v.Num? {
      var _ := Digits(if v.n < 0 then -v.n else v.n);
    }
  }

  /** A number prints as the string "1" exactly when it is 1. */
  lemma {:induction false} DecimalIsOne(n: int)
    ensures Decimal(n) == "1" <==> n == 1
  {
    if n >= 0 && Decimal(n) == "1" {
      DigitsValueOf(n);
      assert DigitsValue("1") == 1;
    }
  }

  /** A field map: its own enumerable properties in insertion order, each key once. */
  type JsObject = o: seq<(string, Value)> | Distinct(KeysOf(o))

  /** `Object.keys(o)`. */
  function KeysOf(o: seq<(string, Value)>): (ks: seq<string>)
    ensures |ks| == |o| && forall i :: 0 <= i < |o| ==> ks[i] == o[i].0
  {
    seq(|o|, i requires 0 <= i < |o| => o[i].0)
  }

  /** `o[k]`: the value stored under `k`, `undefined` when there is none. */
  function Get(o: seq<(string, Value)>, k: string): (v: Value)
    ensures (forall i :: 0 <= i < |o| ==> o[i].0 != k) ==> v == Undefined
  {
    if o == [] then Undefined else if o[0].0 == k then o[0].1 else Get(o[1..], k)
  }

  /** In a field map each entry is what a lookup of its key returns. */
  lemma {:induction false} GetEntry(o: JsObject, i: nat)
    requires i < |o|
    ensures Get(o, o[i].0) == o[i].1
  {
    if i > 0 {
      assert KeysOf(o)[0] != KeysOf(o)[i];
      var tail: JsObject := o[1..];
      assert KeysOf(tail) == KeysOf(o)[1..];
      GetEntry(tail, i - 1);
    }
  }

  /** A key is in `Object.keys(o)` iff some entry carries it. */
  lemma KeyIn(o: seq<(string, Value)>, k: string)
    ensures k in KeysOf(o) <==> exists i :: 0 <= i < |o| && o[i].0 == k
  {
    if k in KeysOf(o) {
      var i :| 0 <= i < |o| && KeysOf(o)[i] == k;
    }
  }
}
