/**
 * The JavaScript values the browser scripts keep in their option objects, JavaScript
 * truthiness, and object spread `{...a, ...b}` on such objects.
 */
module JsValues {

  /** A primitive JavaScript value; numbers are integers here. */
  datatype JsValue = JsBool(b: bool) | JsNumber(n: int) | JsString(s: string) | JsNull | JsUndefined

  /** An object literal: property names to values. */
  type JsObject = map<string, JsValue>

  /** JavaScript truthiness: `false`, `0`, `""`, `null` and `undefined` are falsy. */
  predicate Truthy(v: JsValue)
  {
    match v
    case JsBool(b) => b
    case JsNumber(n) => n != 0
    case JsString(s) => s != ""
    case JsNull => false
    case JsUndefined => false
  }

  /** `a || b`. */
  function Or(a: JsValue, b: JsValue): (r: JsValue)
    ensures Truthy(a) ==> r == a
    ensures !Truthy(a) ==> r == b
  {
    if Truthy(a) then a else b
  }

  /** Reading a property: a missing one is `undefined`. */
  function Get(o: JsObject, key: string): (v: JsValue)
    ensures key !in o ==> v == JsUndefined
    ensures key in o ==> v == o[key]
  {
    if key in o then o[key] else JsUndefined
  }

  /**
   * `{...a, ...b}`: every property of either object, the later object winning. A property `b`
   * holds explicitly, even `undefined`, replaces the one of `a`.
   */
  function Spread(a: JsObject, b: JsObject): (r: JsObject)
    ensures r.Keys == a.Keys + b.Keys
    ensures forall k :: k in b ==> r[k] == b[k]
    ensures forall k :: k in a && k !in b ==> r[k] == a[k]
  {
    a + b
  }
}
