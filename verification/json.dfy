/** Parsed JSON values, as the locale files hold them, and JavaScript truthiness. */
module JsonValue {

  /**
   A value produced by `JSON.parse`. An object's members are listed in the
   order `Object.keys` reports them; numbers are kept as exact reals.
   */
  datatype Json =
    | JNull
    | JBool(b: bool)
    | JNum(n: real)
    | JStr(s: string)
    | JArr(items: seq<Json>)
    | JObj(fields: seq<(string, Json)>)
  {
    /** lodash `_.isObject`: true of objects and of arrays, false of `null` and of every scalar. */
    predicate IsObject() {
      JArr? || JObj?
    }
  }

  /** What `if (v)` tests: the empty string, zero, `false` and `null` are falsy; objects and arrays are truthy. */
  predicate Truthy(v: Json) {
    match v
    case JNull => false
    case JBool(b) => b
    case JNum(n) => n != 0.0
    case JStr(s) => |s| > 0
    case JArr(_) => true
    case JObj(_) => true
  }
}
