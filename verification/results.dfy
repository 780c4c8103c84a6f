/** The two wrappers the model's partial operations return. An absent header
    capture, condition or RMSE value is an `Option`; an operation that can raise
    in Python (`float()` on a bad capture, a missing DataFrame column) returns a
    `Result` whose `Failure` carries what went wrong. */
module Results {

  datatype Option<+T> = None | Some(value: T)

  /** `var x :- r;` stops at the first `Failure`, the way an exception leaves the
      loop it was raised in. */
  datatype Result<+R, +E> = Success(value: R) | Failure(error: E) {

    predicate IsFailure() {
      Failure?
    }

    function PropagateFailure<U>(): Result<U, E>
      requires Failure?
    {
      Failure(error)
    }

    function Extract(): R
      requires Success?
    {
      value
    }
  }
}
