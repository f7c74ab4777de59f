/** JavaScript values as they arrive in request bodies and form state, with
    the coercions the handlers apply to them: truthiness, `||`, `??`,
    `String(v)` and property access, and where `String(v)` throws.
    Numbers are integers here. */
module Js {
  import opened Seqs
  import opened Text

  /** A parsed JSON value, plus `undefined` for a property that is absent. */
  datatype JsValue =
    | Undefined
    | Null
    | Bool(b: bool)
    | Num(n: int)
    | Str(s: string)
    | Arr(items: seq<JsValue>)
    | Obj(fields: map<string, JsValue>)

  predicate Truthy(v: JsValue) {
    match v
    case Undefined => false
    case Null => false
    case Bool(b) => b
    case Num(n) => n != 0
    case Str(s) => |s| > 0
    case Arr(_) => true
    case Obj(_) => true
  }

  predicate Nullish(v: JsValue) {
    v.Undefined? || v.Null?
  }

  /** `a || b`. */
  function Or(a: JsValue, b: JsValue): JsValue {
    if Truthy(a) then a else b
  }

  /** `a ?? b`. */
  function Coalesce(a: JsValue, b: JsValue): JsValue {
    if Nullish(a) then b else a
  }

  /** Whether `String(v)` throws a `TypeError`. An object with its own
      `toString` property does: no JSON value is callable, so conversion
      falls back to the inherited `valueOf`, which gives back the object
      itself. An array does when one of its elements does, since its text
      joins its elements' texts. Every other value converts. */
  predicate StringThrows(v: JsValue)
    decreases v
  {
    match v
    case Obj(f) => "toString" in f
    case Arr(items) => exists i :: 0 <= i < |items| && StringThrows(items[i])
    case _ => false
  }

  /** `String(v)` where it does not throw (see `StringThrows`); an array is
      joined with "," and its `null` and `undefined` elements become empty
      text. */
  function ToJsString(v: JsValue): string
    decreases v
  {
    match v
    case Undefined => "undefined"
    case Null => "null"
    case Bool(b) => if b then "true" else "false"
    case Num(n) => IntToString(n)
    case Str(s) => s
    case Arr(items) =>
      Join(seq(|items|, i requires 0 <= i < |items| =>
             if Nullish(items[i]) then "" else ToJsString(items[i])), ",")
    case Obj(_) => "[object Object]"
  }

  /** `v[key]`, or `None` where the access throws a `TypeError` (reading a
      property of `null` or `undefined`). Properties inherited from a
      prototype are not modelled: they read as `undefined`. */
  function Get(v: JsValue, key: string): Option<JsValue> {
    match v
    case Undefined => None
    case Null => None
    case Obj(f) => Some(if key in f then f[key] else Undefined)
    case _ => Some(Undefined)
  }

  /** `String(v || "")`: falsy values give empty text, any other value its
      string form. */
  function TextOr(v: JsValue): (r: string)
    ensures !Truthy(v) ==> r == ""
    ensures v.Str? ==> r == v.s
  {
    ToJsString(Or(v, Str("")))
  }
}
