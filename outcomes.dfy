/** Optional values and the failures the scraper can raise. */
module Outcomes {

  datatype Option<+T> = None | Some(value: T) {
    function GetOr(default: T): T {
      match this
      case Some(v) => v
      case None => default
    }
  }

  /** The Python exceptions the extractors let escape. */
  datatype Error =
    | IndexError                   // `split(...)[1]` on a text without the separator
    | ValueError                   // `int(...)` on a text that is not an integer literal
    | AssertionError(message: string)  // a required page region is missing

  datatype Result<+T> = Success(value: T) | Failure(error: Error) {
    predicate IsFailure() {
      Failure?
    }

    function PropagateFailure<U>(): Result<U>
      requires Failure?
    {
      Failure(error)
    }

    function Extract(): T
      requires Success?
    {
      value
    }
  }
}
