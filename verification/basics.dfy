/** Failure-carrying values shared by every module of the model. */
module Basics {

  /** A value that may be absent: a NULL column, a missing dictionary key. */
  datatype Option<T> = None | Some(value: T) {
    /** The value, or `default` when absent (Python's `dict.get(key, default)`). */
    function GetOr(default: T): T {
      match this
      case Some(v) => v
      case None => default
    }
  }

  /** The outcome of an operation the source can abandon by raising an exception. */
  datatype Result<T, E> = Ok(value: T) | Err(error: E)

  /** Python's truthiness of an optional string: absent and empty are both false. */
  predicate Truthy(s: Option<string>) {
    s.Some? && s.value != ""
  }

  /** The smaller of two integers (Python's `min`). */
  function Min(a: int, b: int): int {
    if a <= b then a else b
  }
}
