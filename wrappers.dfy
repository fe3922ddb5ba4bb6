/** Failure-compatible result types shared by the model. A Go function that
    returns `(value, error)` or panics is modelled as returning a `Result`. */
module Wrappers {

  datatype Option<+T> = None | Some(value: T)

  /** `Failure` carries the error text that the Go code would return or panic with. */
  datatype Result<+T> = Success(value: T) | Failure(error: string) {

    predicate IsFailure() {
      Failure?
    }

    function PropagateFailure<U>(): Result<U>
      requires Failure?
    {
      Failure(error)
    }

    function Extract(): T
      requires Success?
    {
      value
    }
  }
}
