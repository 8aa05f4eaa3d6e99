/** Option, Result, Min and Max, shared by the whole model. */
module Wrappers {

  /** A value that may be absent (JavaScript's `null`/`undefined` results). */
  datatype Option<+T> = None | Some(value: T) {
    function GetOr(default: T): T {
      match this
      case Some(v) => v
      case None => default
    }
  }

  /** The result of an operation that can throw: `Err` carries the thrown message. */
  datatype Result<+R> = Ok(value: R) | Err(message: string)

  function Min(a: int, b: int): int {
    if a <= b then a else b
  }

  function Max(a: int, b: int): int {
    if a >= b then a else b
  }
}
