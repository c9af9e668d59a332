/** The JavaScript values the resolution code handles: a decoded JSON value,
    `undefined` (a property that is not there), and the one inherited method a
    property read on a JSON value can reach here. */
module JsValue {
  import opened Json

  /** `NativeLinkMethod` is String.prototype.link (section B.2.3.10 of
      ECMA-262, 6th edition), which `s.link` yields for any string `s`: of the property names
      this code reads (title, picture, thumbnail, links, url, link) it is the only
      one found on a prototype of a JSON value. */
  datatype JsValue = Undefined | Value(json: Json) | NativeLinkMethod

  /** ToBoolean (section 7.1.2 of ECMA-262, 6th edition). A decoded number is
      never NaN. The falsy values are exactly undefined, null, false, 0 and "". */
  predicate Truthy(x: JsValue): (b: bool)
    ensures !b <==> x.Undefined? || x == Value(JNull) || x == Value(JBool(false))
                    || x == Value(JNumber(0)) || x == Value(JString(""))
  {
    match x
    case Undefined => false
    case NativeLinkMethod => true
    case Value(j) =>
      match j
      case JNull => false
      case JBool(b) => b
      case JNumber(n) => n != 0
      case JString(s) => s != []
      case JArray(_) => true
      case JObject(_) => true
  }

  /** The `typeof` operator (section 12.5.6 of ECMA-262, 6th edition): null,
      arrays and objects are all "object". */
  function TypeOf(x: JsValue): (t: string)
    ensures t == "object" <==> x == Value(JNull) || (x.Value? && (x.json.JArray? || x.json.JObject?))
    ensures t == "undefined" <==> x.Undefined?
    ensures t == "function" <==> x.NativeLinkMethod?
  {
    match x
    case Undefined => "undefined"
    case NativeLinkMethod => "function"
    case Value(j) =>
      match j
      case JNull => "object"
      case JBool(_) => "boolean"
      case JNumber(_) => "number"
      case JString(_) => "string"
      case JArray(_) => "object"
      case JObject(_) => "object"
  }

  /** Array.isArray: true exactly for a decoded array. */
  predicate IsArray(x: JsValue): (b: bool)
    ensures b <==> exists items :: x == Value(JArray(items))
  {
    x.Value? && x.json.JArray?
  }

  /** The value of the first field named `key`, if any. */
  function Lookup(fields: seq<Field>, key: string): (r: JsValue)
    ensures r.Undefined? <==> forall k | 0 <= k < |fields| :: fields[k].key != key
    ensures r.Value? ==> exists k | 0 <= k < |fields| :: fields[k] == Field(key, r.json)
    ensures !r.NativeLinkMethod?
  {
    if fields == [] then Undefined
    else if fields[0].key == key then Value(fields[0].value)
    else Lookup(fields[1..], key)
  }

  /** The property read `x.key` for the property names this code reads; null
      is excluded because reading a property of null throws. */
  function Get(x: Json, key: string): (r: JsValue)
    requires !x.JNull?
    ensures x.JObject? ==> r == Lookup(x.fields, key)
    ensures r.NativeLinkMethod? <==> x.JString? && key == "link"
    ensures !x.JObject? && !x.JString? ==> r == Undefined
    ensures x.JString? && key != "link" ==> r == Undefined
  {
    match x
    case JObject(fields) => Lookup(fields, key)
    case JString(_) => if key == "link" then NativeLinkMethod else Undefined
    case _ => Undefined
  }

  /** The optional chain `x?.key`: `undefined` when `x` is null or undefined. */
  function OptionalGet(x: JsValue, key: string): (r: JsValue)
    ensures x.Undefined? || x == Value(JNull) ==> r == Undefined
  {
    match x
    case Undefined => Undefined
    case NativeLinkMethod => Undefined
    case Value(j) => if j.JNull? then Undefined else Get(j, key)
  }

  /** The element read `items[i]`: `undefined` past the end. */
  function At(items: seq<Json>, i: nat): (r: JsValue)
    ensures i < |items| <==> r.Value?
    ensures i < |items| ==> r == Value(items[i])
  {
    if i < |items| then Value(items[i]) else Undefined
  }

  /** The logical OR `a || b` (section 12.12.3 of ECMA-262, 6th edition): `a` when it is
      truthy, otherwise `b`. */
  function Or(a: JsValue, b: JsValue): (r: JsValue)
    ensures r == a || r == b
    ensures Truthy(r) <==> Truthy(a) || Truthy(b)
  {
    if Truthy(a) then a else b
  }
}
