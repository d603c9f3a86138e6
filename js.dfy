/**
 * The slice of JavaScript's value semantics that the catalog view relies on:
 * the primitive values a record read from JSON can hold in a field, their
 * truthiness, and the two ways an expression can complete.
 */
module Js {

  /** A field value. A field the record does not have reads as `Undefined`.
      Numbers are integers: the catalog's ids and prices are whole numbers. */
  datatype Value = Undefined | Null | Bool(b: bool) | Num(n: int) | Str(s: string)

  /** ToBoolean (section 7.1.2 of ECMA-262) on the values above: `undefined`,
      `null`, `false`, `0` and `""` are falsy, everything else is truthy.
      On these primitives `===` is the structural equality `==` of `Value`. */
  predicate Truthy(v: Value): (r: bool)
    ensures !r <==> v == Undefined || v == Null || v == Bool(false) || v == Num(0) || v == Str("")
  {
    match v
    case Undefined => false
    case Null => false
    case Bool(b) => b
    case Num(n) => n != 0
    case Str(s) => s != []
  }

  /** `undefined` or `null`: the values on which `?.` short-circuits. */
  predicate Nullish(v: Value)
  {
    v.Undefined? || v.Null?
  }

  /** How an evaluation ends: with a value, or by throwing a TypeError
      (calling a method the value does not have). */
  datatype Completion<T> = Normal(value: T) | TypeError

  datatype Option<T> = None | Some(value: T)
}
