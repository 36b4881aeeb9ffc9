/** JavaScript values the handlers inspect: `undefined`-or-value, and the truthiness of strings. */
module Js {

  /** A value that may be `undefined` (`None`). */
  datatype Option<T> = None | Some(value: T)

  /** JavaScript truthiness of a value that is either `undefined` or a string:
      only a defined, non-empty string is truthy. */
  predicate Truthy(v: Option<string>)
  {
    v.Some? && v.value != ""
  }
}
