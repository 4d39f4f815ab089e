/** JavaScript values as they arrive in a parsed JSON request body, and the
    JavaScript tests the handlers apply to them. */
module Js {

  /** A request-body field. Arrays are the role lists, whose elements are
      strings; numbers are whole numbers. */
  datatype JsValue =
    | Undefined
    | Null
    | Bool(b: bool)
    | Num(n: int)
    | Str(s: string)
    | Arr(items: seq<string>)
    | Obj

  /** `typeof v === "string" && v.length > 0` */
  predicate IsNonEmptyString(v: JsValue) {
    v.Str? && |v.s| > 0
  }

  /** `typeof v === "boolean"` */
  predicate IsBoolean(v: JsValue) {
    v.Bool?
  }

  /** `Array.isArray(v) && v.length` */
  predicate IsNonEmptyArray(v: JsValue) {
    v.Arr? && |v.items| > 0
  }
}
