/** Optional values and error results, standing in for Java's nulls, Optionals and exceptions. */
module Wrappers {

  datatype Option<+T> = None | Some(value: T) {
    function GetOr(default: T): T {
      match this
      case Some(v) => v
      case None => default
    }
  }

  datatype Result<+R, +E> = Ok(value: R) | Err(error: E)

  /** A result that carries no value: the outcome of a call made only for its effect. */
  datatype Outcome<+E> = Pass | Fail(error: E)
}
