/**
 * JSON values as the schema viewer sees them after `JSON.parse`, and the few pieces of
 * JavaScript semantics the viewer relies on: truthiness, property access `v[key]`,
 * `Object.entries`, and the string conversion of a template literal.
 */
module Json {
  import opened Wrappers

  /** A JSON value. Object members keep their declaration order. */
  datatype Json =
    | JNull
    | JBool(b: bool)
    | JNum(n: int)
    | JStr(s: string)
    | JArr(items: seq<Json>)
    | JObj(members: seq<(string, Json)>)

  /** JavaScript's ToBoolean: `false`, `null`, `0` and `""` are falsy; arrays and objects are not. */
  predicate Truthy(v: Json) {
    match v
    case JNull => false
    case JBool(b) => b
    case JNum(n) => n != 0
    case JStr(s) => s != ""
    case JArr(_) => true
    case JObj(_) => true
  }

  /** ToBoolean of a property read that may give `undefined`. */
  predicate IsTruthy(v: Option<Json>) {
    v.Some? && Truthy(v.value)
  }

  /** The value of the first member named `key`, or `undefined`. */
  function Lookup(members: seq<(string, Json)>, key: string): Option<Json> {
    if members == [] then None
    else if members[0].0 == key then Some(members[0].1)
    else Lookup(members[1..], key)
  }

  /** `Lookup` finds the first member named `key`, and finds nothing exactly when none is. */
  lemma {:induction false} LookupFirst(members: seq<(string, Json)>, key: string)
    ensures Lookup(members, key).None? <==> forall i | 0 <= i < |members| :: members[i].0 != key
    ensures Lookup(members, key).Some? ==>
              exists i | 0 <= i < |members| ::
                members[i] == (key, Lookup(members, key).value) && forall j | 0 <= j < i :: members[j].0 != key
  {
    if members != [] && members[0].0 != key {
      LookupFirst(members[1..], key);
      assert forall i | 1 <= i < |members| :: members[i] == members[1..][i - 1];
      if Lookup(members, key).Some? {
        var i :| 0 <= i < |members[1..]| && members[1..][i] == (key, Lookup(members, key).value) &&
                 forall j | 0 <= j < i :: members[1..][j].0 != key;
        assert members[i + 1] == (key, Lookup(members, key).value);
      }
    } else if members != [] {
      assert members[0] == (key, Lookup(members, key).value);
    }
  }

  predicate IsDigit(c: char) {
    '0' <= c <= '9'
  }

  predicate AllDigits(s: string) {
    forall i | 0 <= i < |s| :: IsDigit(s[i])
  }

  /** The value of a string of decimal digits. */
  function DigitsValue(s: string): nat
    requires AllDigits(s)
  {
    if s == [] then 0 else 10 * DigitsValue(s[..|s| - 1]) + (s[|s| - 1] as int - '0' as int)
  }

  function Digit(d: nat): (c: char)
    requires d < 10
    ensures IsDigit(c) && c as int - '0' as int == d
  {
    ('0' as int + d) as char
  }

  /** The canonical decimal form of a natural number, as `String(n)` writes it. */
  function NatToString(n: nat): (s: string)
    ensures s != [] && AllDigits(s)
    ensures |s| == 1 || s[0] != '0'
    ensures n >= 10 <==> |s| > 1
  {
    if n < 10 then [Digit(n)] else NatToString(n / 10) + [Digit(n % 10)]
  }

  /** The array index a property key denotes: a canonical decimal numeral, or none. */
  function ArrayIndex(key: string): Option<nat> {
    if key != [] && AllDigits(key) && (|key| == 1 || key[0] != '0') then Some(DigitsValue(key))
    else None
  }

  /** `v[key]` on a JSON value: objects by member name, arrays by canonical decimal index. */
  function Member(v: Json, key: string): Option<Json> {
    match v
    case JObj(ms) => Lookup(ms, key)
    case JArr(xs) =>
      (match ArrayIndex(key)
       case Some(i) => if i < |xs| then Some(xs[i]) else None
       case None => None)
    case _ => None
  }

  /** `Object.entries(v)` for a JSON value, in order. */
  function Entries(v: Json): (r: seq<(string, Json)>)
    ensures v.JObj? ==> r == v.members
    ensures v.JArr? ==> |r| == |v.items| && forall i | 0 <= i < |r| :: r[i] == (NatToString(i), v.items[i])
    ensures !v.JObj? && !v.JArr? ==> r == []
  {
    match v
    case JObj(ms) => ms
    case JArr(xs) => seq(|xs|, i requires 0 <= i < |xs| => (NatToString(i), xs[i]))
    case _ => []
  }

  /** The pieces joined by commas, as `Array.prototype.join` does. */
  function JoinWithCommas(parts: seq<string>): string {
    if parts == [] then "" else if |parts| == 1 then parts[0] else parts[0] + "," + JoinWithCommas(parts[1..])
  }

  /** `String(v)`, the conversion a template literal `${v}` applies. */
  function ToJsString(v: Json): (r: string)
    ensures v.JStr? ==> r == v.s
    ensures v.JNum? && v.n >= 0 ==> ArrayIndex(r) == Some(v.n)
    ensures v.JNum? && v.n < 0 ==> r != [] && r[0] == '-'
  {
    match v
    case JNull => "null"
    case JBool(b) => if b then "true" else "false"
    case JNum(n) =>
      if n < 0 then "-" + NatToString(-n)
      else
        ArrayIndexOfNatToString(n);
        NatToString(n)
    case JStr(s) => s
    case JArr(xs) =>
      JoinWithCommas(seq(|xs|, i requires 0 <= i < |xs| => if xs[i] == JNull then "" else ToJsString(xs[i])))
    case JObj(_) => "[object Object]"
  }

  function MaxOf(s: seq<nat>): (r: nat)
    ensures forall i | 0 <= i < |s| :: s[i] <= r
  {
    if s == [] then 0 else var m := MaxOf(s[1..]); if s[0] > m then s[0] else m
  }

  /** Nesting depth: a scalar has depth 1, a container one more than its deepest element. */
  function Depth(v: Json): (d: nat)
    ensures d >= 1
  {
    match v
    case JArr(xs) => 1 + MaxOf(seq(|xs|, i requires 0 <= i < |xs| => Depth(xs[i])))
    case JObj(ms) => 1 + MaxOf(seq(|ms|, i requires 0 <= i < |ms| => Depth(ms[i].1)))
    case _ => 1
  }

  /** A decimal numeral written by `NatToString` reads back as the same index. */
  lemma {:induction false} ArrayIndexOfNatToString(n: nat)
    ensures ArrayIndex(NatToString(n)) == Some(n)
  {
    var s := NatToString(n);
    if n >= 10 {
      ArrayIndexOfNatToString(n / 10);
      assert s[..|s| - 1] == NatToString(n / 10);
      assert DigitsValue(s) == 10 * (n / 10) + n % 10;
    }
  }

  /** Every member a lookup finds is shallower than the value it is found in. */
  lemma MemberIsShallower(v: Json, key: string)
    requires Member(v, key).Some?
    ensures Depth(Member(v, key).value) < Depth(v)
  {
    match v
    case JObj(ms) =>
      LookupFirst(ms, key);
      var i :| 0 <= i < |ms| && ms[i] == (key, Member(v, key).value);
      var ds := seq(|ms|, i requires 0 <= i < |ms| => Depth(ms[i].1));
      assert ds[i] == Depth(ms[i].1);
    case JArr(xs) =>
      var i := ArrayIndex(key).value;
      var ds := seq(|xs|, i requires 0 <= i < |xs| => Depth(xs[i]));
      assert ds[i] == Depth(xs[i]);
  }
}
