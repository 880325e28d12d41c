/** Option and Result, the shapes the loader's Rust code returns. */
module Wrappers {

  datatype Option<+T> = None | Some(value: T) {
    /** Turns a missing value into a failure carrying `error`. */
    function OrFail<E>(error: E): Result<T, E> {
      match this
      case Some(v) => Success(v)
      case None => Failure(error)
    }
  }

  datatype Result<+T, +E> = Success(value: T) | Failure(error: E) {
    predicate IsFailure() {
      Failure?
    }

    function PropagateFailure<U>(): Result<U, E>
      requires Failure?
    {
      Failure(error)
    }

    function Extract(): T
      requires Success?
    {
      value
    }
  }
}
