/** The few JavaScript runtime notions the blog code relies on: optional values,
    thrown exceptions, and which values are truthy. */
module JsCore {

  /** An optional value: `undefined` or a present value. */
  datatype Option<+T> = None | Some(value: T) {
    /** `x ?? fallback` */
    function GetOr(fallback: T): T {
      match this
      case Some(v) => v
      case None => fallback
    }
  }

  /** What a thrown exception carries: a plain `Error` with its message, or the
      HTTP error that the web framework's `error(status, body)` throws. The body
      of the latter is reduced to the set of field names that had a validation
      issue (the JSON formatting of the messages is not modelled). */
  datatype Exception =
    | JsError(message: string)
    | HttpError(status: int, fieldErrors: set<string>)

  /** The completion of a call that may throw: a returned value or a thrown exception. */
  datatype Outcome<+T> = Return(value: T) | Throw(exception: Exception)

  /** A JavaScript value, as far as truthiness is concerned. Numbers are reals
      (so `-0` and `0` coincide); NaN is its own case. */
  datatype JsValue =
    | Undefined
    | Null
    | Boolean(b: bool)
    | Number(x: real)
    | NaN
    | BigInt(i: int)
    | Str(s: string)
    | Object

  /** ECMAScript ToBoolean: the falsy values are undefined, null, false, 0, NaN, 0n and "". */
  predicate Truthy(v: JsValue) {
    match v
    case Undefined => false
    case Null => false
    case Boolean(b) => b
    case Number(x) => x != 0.0
    case NaN => false
    case BigInt(i) => i != 0
    case Str(s) => s != ""
    case Object => true
  }
}
