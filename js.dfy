/** JavaScript values as the extractor handles them: nullable strings, truthiness,
    the `||` operator and the errors it throws. */
module Js {

  /** `string | null` (and `undefined`): None stands for both. */
  datatype Option<+T> = None | Some(value: T)

  /** A call that either returns a value or throws. */
  datatype Result<+T, +E> = Success(value: T) | Failure(error: E)

  /** The two kinds of exception the extractor can raise, each with its message. */
  datatype JsError = Error(message: string) | RangeError(message: string)

  /** `if (x)` on a nullable string: null and "" are falsy, any other string is truthy. */
  predicate Truthy(x: Option<string>)
  {
    x.Some? && x.value != ""
  }

  /** `a || b` on nullable strings: the left operand when truthy, else the right one. */
  function Or(a: Option<string>, b: Option<string>): (r: Option<string>)
    ensures Truthy(r) <==> Truthy(a) || Truthy(b)
    ensures Truthy(a) ==> r == a
    ensures !Truthy(a) ==> r == b
  {
    if Truthy(a) then a else b
  }

  /** `a || fallback` where the fallback is a string literal. */
  function OrElse(a: Option<string>, fallback: string): (r: string)
    ensures Truthy(a) ==> r == a.value
    ensures !Truthy(a) ==> r == fallback
  {
    if Truthy(a) then a.value else fallback
  }
}
