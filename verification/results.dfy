/** Option and Result values, used where the C++ returns a null pointer or throws. */
module Results {

  /** A value that may be missing: the model of a pointer that may be null. */
  datatype Option<+T> = None | Some(value: T)

  /** The outcome of a step that may throw: a value, or the error it raised. */
  datatype Result<+T, +E> = Success(value: T) | Failure(error: E) {

    predicate IsFailure() {
      Failure?
    }

    function PropagateFailure<U>(): Result<U, E>
      requires Failure?
    {
      Failure(error)
    }

    function Extract(): T
      requires Success?
    {
      value
    }
  }
}
