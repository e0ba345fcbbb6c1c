/** Optional values and results shared by the whole model: an optional value
    (a SQL row that may be absent, a JavaScript value that may be `undefined`
    or `null`) and a result that is either a value or a raised error. */
module Wrappers {

  datatype Option<+T> = None | Some(value: T)

  datatype Result<+T, +E> = Success(value: T) | Failure(error: E)

  /** JavaScript truthiness of an optional string: `undefined` and the empty
      string are both falsy, every other string is truthy. */
  predicate Truthy(s: Option<string>) {
    s.Some? && s.value != ""
  }
}
