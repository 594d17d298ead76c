/**
 * The part of JavaScript's value semantics that the controller and the dashboard
 * depend on: JSON-shaped values, truthiness (what `!x` tests) and reading an own
 * property (`x.key`).
 */
module Js {

  /**
   * A value as it arrives in a parsed JSON request body or in browser storage.
   * Numbers are integers here: the only numeric test the code performs is
   * truthiness, for which `NaN` and fractions make no difference that is modelled.
   */
  datatype JsValue =
    | Undefined
    | Null
    | Bool(b: bool)
    | Num(n: int)
    | Str(s: string)
    | Arr(items: seq<JsValue>)
    | Obj(fields: map<string, JsValue>)

  /** JavaScript's ToBoolean: `!v` holds exactly when this is false. */
  predicate Truthy(v: JsValue) {
    match v
    case Undefined => false
    case Null => false
    case Bool(b) => b
    case Num(n) => n != 0
    case Str(s) => s != ""
    case Arr(_) => true
    case Obj(_) => true
  }

  /** `null` or `undefined`: reading a property of such a value throws a TypeError. */
  predicate Nullish(v: JsValue) {
    v.Undefined? || v.Null?
  }

  /**
   * `v.key` on a value that is not nullish: the own property of an object, and
   * `undefined` for every other value (JSON arrays and primitives carry no
   * named own properties of the kind the code reads).
   */
  function Get(v: JsValue, key: string): JsValue {
    if v.Obj? && key in v.fields then v.fields[key] else Undefined
  }

  /** The own enumerable properties that `{...v}` copies; none for non-objects. */
  function OwnFields(v: JsValue): map<string, JsValue> {
    if v.Obj? then v.fields else map[]
  }

}
