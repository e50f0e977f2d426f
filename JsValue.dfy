/**
 * The JSON-shaped values that flow through the application: documents read by the
 * chain builder, request bodies checked by the payload validators and the bulk
 * operations the server dispatches. Numbers are integers only.
 */
module JsValue {

  datatype Value =
    | Undefined                            // a missing JavaScript property
    | Null                                 // JSON null, Python None
    | Bool(b: bool)
    | Num(n: int)
    | Str(s: string)
    | Arr(items: seq<Value>)
    | Obj(props: map<string, Value>)

  /** A JSON object's fields. */
  type Record = map<string, Value>

  /** JavaScript's `typeof v === 'object'`: true of null, arrays and objects. */
  predicate TypeofObject(v: Value) {
    v.Null? || v.Arr? || v.Obj?
  }

  /** JavaScript truthiness (there is no NaN among the modelled numbers). */
  predicate Truthy(v: Value) {
    match v
    case Undefined => false
    case Null => false
    case Bool(b) => b
    case Num(n) => n != 0
    case Str(s) => s != ""
    case Arr(_) => true
    case Obj(_) => true
  }

  /** `typeof v === 'object' && v !== null`: an array or an object. */
  predicate IsNonNullObject(v: Value) {
    v.Arr? || v.Obj?
  }

  /**
   * Reading the named property of a value that is not null or undefined: an
   * object's own field or `undefined` when it has none. The properties read by
   * the modelled code are never array indices, `length` or inherited names.
   */
  function Get(v: Value, key: string): Value
  {
    if v.Obj? && key in v.props then v.props[key] else Undefined
  }

  /** The `in` operator on a non-null object: whether it has the property. */
  predicate Has(v: Value, key: string) {
    v.Obj? && key in v.props
  }
}
