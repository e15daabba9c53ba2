/** Option and Result: the values Python expresses with None and exceptions. */
module Wrappers {

  datatype Option<+T> = None | Some(value: T)

  datatype Result<+R, +E> = Ok(value: R) | Err(error: E)

  /** Python truthiness of an optional string: None and "" are both false. */
  predicate Truthy(s: Option<string>) {
    s.Some? && s.value != ""
  }
}
