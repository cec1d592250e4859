/** The part of JavaScript's dynamic typing that the validators branch on:
    a request-body field is absent, null, a boolean, a number, a string or
    some other object. Numbers are exact reals (no NaN, no rounding). */
module JsValues {

  datatype Value = Undefined | Null | Bool(b: bool) | Num(n: real) | Str(s: string) | Obj

  /** JavaScript truthiness (`if (v)`, `!v`, `v && ...`). */
  predicate Truthy(v: Value)
  {
    match v
    case Undefined => false
    case Null => false
    case Bool(b) => b
    case Num(n) => n != 0.0
    case Str(s) => |s| > 0
    case Obj => true
  }

  /** `v !== undefined && v !== null`: the validators' "field supplied". */
  predicate IsSupplied(v: Value)
  {
    !v.Undefined? && !v.Null?
  }

  /** `Number.isInteger(n)` for a finite number. */
  predicate IsInteger(n: real)
  {
    n == n.Floor as real
  }

  /** Absent, null or a string. */
  predicate IsText(v: Value)
  {
    v.Undefined? || v.Null? || v.Str?
  }

  /** The only shapes a description, due date or parent reference takes
      when it reaches the data layer in this model. */
  type TextValue = v: Value | IsText(v) witness Undefined
}
