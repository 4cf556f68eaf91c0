/**
 * The JavaScript values the handlers see after `JSON.parse`, the handful of
 * language rules they depend on (property access, truthiness, numeric
 * coercion), and the runtime primitives the model treats as opaque:
 * `JSON.parse`, `JSON.stringify`, `Number(string)`, HMAC-SHA-256 and SHA-256.
 *
 * Opaque primitives are fields of a `Runtime` value that callers pass in.
 * What the proofs need of them is stated as predicates over that value
 * (`ParseInvertsStringify`, `StringifyKeepsAscii`) and appears as a
 * precondition of the lemmas that use it.
 */
module Js {
  import opened Wrappers
  import opened Text

  /** A JSON value; numbers are integers in this model. */
  datatype Json =
    | JNull
    | JBool(b: bool)
    | JNum(n: int)
    | JStr(s: string)
    | JArr(items: seq<Json>)
    | JObj(fields: seq<(string, Json)>)

  /** A JavaScript number as produced by arithmetic on coerced values. */
  datatype JsNum = Num(n: int) | NaN

  datatype Runtime = Runtime(
    parse: string -> Option<Json>,          // JSON.parse; None where it throws
    stringify: Json -> string,              // JSON.stringify
    numberOf: string -> Option<int>,        // Number(s); None for NaN
    hmac: (seq<byte>, seq<byte>) -> seq<byte>, // HMAC-SHA-256(key, message)
    sha256: seq<byte> -> seq<byte>)          // SHA-256 digest

  /** The last field named `key` (a later duplicate key wins in `JSON.parse`). */
  function Lookup(fields: seq<(string, Json)>, key: string): (r: Option<Json>)
    ensures r.Some? ==> exists i :: 0 <= i < |fields| && fields[i] == (key, r.value)
    ensures r.None? ==> forall i :: 0 <= i < |fields| ==> fields[i].0 != key
    decreases |fields|
  {
    if |fields| == 0 then None
    else if fields[|fields| - 1].0 == key then Some(fields[|fields| - 1].1)
    else Lookup(fields[..|fields| - 1], key)
  }

  /** `v.key` for a value that is not `null` (on `null` it throws): undefined unless `v` is an object. */
  function Prop(v: Json, key: string): Option<Json>
    requires !v.JNull?
  {
    if v.JObj? then Lookup(v.fields, key) else None
  }

  /** JavaScript truthiness of a parsed value. */
  predicate Truthy(v: Json) {
    match v
    case JNull => false
    case JBool(b) => b
    case JNum(n) => n != 0
    case JStr(s) => s != ""
    case _ => true
  }

  /** Numeric coercion, as `*` applies it; `None` is `undefined`. Arrays are taken as NaN (see README). */
  function ToNumber(rt: Runtime, v: Option<Json>): JsNum {
    match v
    case None => NaN
    case Some(JNull) => Num(0)
    case Some(JBool(b)) => Num(if b then 1 else 0)
    case Some(JNum(n)) => Num(n)
    case Some(JStr(s)) => (match rt.numberOf(s) case Some(n) => Num(n) case None => NaN)
    case Some(_) => NaN
  }

  predicate IsPrimitive(v: Json) {
    v.JNull? || v.JBool? || v.JNum? || v.JStr?
  }

  /** A key that `JSON.parse` would move to the front (an array index). */
  predicate IsIndexLike(k: string) {
    |k| > 0 && forall i :: 0 <= i < |k| ==> '0' <= k[i] <= '9'
  }

  /** Distinct, non-index keys and primitive values: the shape of every token segment. */
  predicate FlatFields(fields: seq<(string, Json)>) {
    && (forall i, j :: 0 <= i < j < |fields| ==> fields[i].0 != fields[j].0)
    && (forall i :: 0 <= i < |fields| ==> !IsIndexLike(fields[i].0) && IsPrimitive(fields[i].1))
  }

  predicate Flat(v: Json) {
    v.JObj? && FlatFields(v.fields)
  }

  /** Every key and every string value is ASCII. */
  predicate AsciiFields(fields: seq<(string, Json)>) {
    forall i :: 0 <= i < |fields| ==>
      IsAscii(fields[i].0) && (fields[i].1.JStr? ==> IsAscii(fields[i].1.s))
  }

  predicate AsciiObject(v: Json) {
    v.JObj? && AsciiFields(v.fields)
  }

  /** Appending a new key keeps an object flat. */
  lemma FlatSnoc(fields: seq<(string, Json)>, k: string, v: Json)
    requires FlatFields(fields) && !IsIndexLike(k) && IsPrimitive(v)
    requires forall i :: 0 <= i < |fields| ==> fields[i].0 != k
    ensures FlatFields(fields + [(k, v)])
  {
  }

  /** `JSON.parse(JSON.stringify(v))` gives `v` back for flat objects. */
  ghost predicate ParseInvertsStringify(rt: Runtime) {
    forall v :: Flat(v) ==> rt.parse(rt.stringify(v)) == Some(v)
  }

  /** `JSON.stringify` escapes nothing into non-ASCII: ASCII content gives ASCII text. */
  ghost predicate StringifyKeepsAscii(rt: Runtime) {
    forall v :: Flat(v) && AsciiObject(v) ==> IsAscii(rt.stringify(v))
  }
}
