/** Failure-carrying datatypes shared by the rest of the model. */
module Wrappers {

  /** JavaScript's `undefined`/`null` on one side, a present value on the other. */
  datatype Option<+T> = None | Some(value: T) {

    /** The value when present, `default` otherwise. */
    function GetOr(default: T): T {
      match this
      case Some(v) => v
      case None => default
    }
  }

  /** An operation that either returns a value or throws an error. */
  datatype Result<+R, +E> = Success(value: R) | Failure(error: E)
}
