/** Request-body values as the JSON body parser hands them to a route handler,
    and the JavaScript notions the handlers apply to them. */
module Values {

  /** A value that may be missing: a parse that gave NaN, a patch field
      that was not supplied, a user without a profile row. */
  datatype Option<T> = None | Some(value: T)

  /** One field of `req.body`: absent, `null`, or a JSON scalar.
      JSON numbers are never NaN, so `Num` carries an ordinary real. */
  datatype Value = Undefined | Null | Bool(b: bool) | Num(n: real) | Str(s: string)

  /** JavaScript truthiness of a scalar: `undefined`, `null`, `false`, `0` and
      the empty string are falsy; every other value is truthy. */
  predicate Truthy(v: Value) {
    match v
    case Undefined => false
    case Null => false
    case Bool(b) => b
    case Num(n) => n != 0.0
    case Str(s) => s != ""
  }

  /** `v` is nullish: the left operand of `??` that selects the right one. */
  predicate Nullish(v: Value) {
    v.Undefined? || v.Null?
  }
}
