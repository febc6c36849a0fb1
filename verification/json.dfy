/**
 * Parsed JSON values as the audit script sees them after `JSON.parse`, with the
 * JavaScript notions it relies on: truthiness, property lookup and
 * `Object.entries`.
 */
module Json {
  import opened Wrappers
  import Strings

  /**
   * A JSON value. Object members are kept in document order. `Object.entries`
   * lists those in the same order as long as no key is an array index and no key
   * is repeated, which holds for the lockfiles the script reads. Numbers are kept
   * as integers: the script only ever tests them for truthiness.
   */
  datatype Json =
    | JNull
    | JBool(b: bool)
    | JNum(n: int)
    | JStr(s: string)
    | JArr(items: seq<Json>)
    | JObj(members: seq<(string, Json)>)

  /** JavaScript truthiness of a parsed value (`NaN` cannot come out of `JSON.parse`). */
  predicate Truthy(j: Json) {
    match j
    case JNull => false
    case JBool(b) => b
    case JNum(n) => n != 0
    case JStr(s) => s != []
    case JArr(_) => true
    case JObj(_) => true
  }

  /** `obj[key]` is truthy: a missing property reads as `undefined`, which is falsy. */
  predicate TruthyOpt(v: Option<Json>) {
    v.Some? && Truthy(v.value)
  }

  /** The value of the first member named `key`, when there is one. */
  function Lookup(members: seq<(string, Json)>, key: string): (r: Option<Json>)
    ensures r.Some? <==> exists k :: 0 <= k < |members| && members[k].0 == key
    ensures r.Some? ==> exists k :: 0 <= k < |members| && members[k] == (key, r.value)
    decreases |members|
  {
    if members == [] then None
    else if members[0].0 == key then Some(members[0].1)
    else
      var r := Lookup(members[1..], key);
      assert forall k :: 1 <= k < |members| ==> members[k] == members[1..][k - 1];
      r
  }

  /**
   * `obj.key` for the keys the script reads. Only objects have such own
   * properties; on anything else the lookup is `undefined`.
   */
  function Get(j: Json, key: string): (r: Option<Json>)
    ensures !j.JObj? ==> r.None?
  {
    match j
    case JObj(ms) => Lookup(ms, key)
    case _ => None
  }

  /**
   * `Object.entries(value)`: an object's members; an array's or a string's
   * elements under their decimal indices; nothing for other values.
   */
  function Entries(j: Json): (es: seq<(string, Json)>)
    ensures j.JObj? ==> es == j.members
    ensures j.JArr? ==> |es| == |j.items|
                        && forall i :: 0 <= i < |es| ==> es[i] == (Strings.NatToDecimal(i), j.items[i])
    ensures j.JStr? ==> |es| == |j.s|
                        && forall i :: 0 <= i < |es| ==> es[i] == (Strings.NatToDecimal(i), JStr([j.s[i]]))
    ensures (j.JNull? || j.JBool? || j.JNum?) ==> es == []
  {
    match j
    case JObj(ms) => ms
    case JArr(xs) => seq(|xs|, i requires 0 <= i < |xs| => (Strings.NatToDecimal(i), xs[i]))
    case JStr(s) => seq(|s|, i requires 0 <= i < |s| => (Strings.NatToDecimal(i), JStr([s[i]])))
    case _ => []
  }
}
