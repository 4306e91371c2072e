/** Option and Result datatypes used for lookups, panics and recoverable errors. */
module Wrappers {

  /** An optional value: `None` also stands for a panic of the modelled code. */
  datatype Option<+T> = None | Some(value: T) {
    predicate IsFailure() {
      None?
    }

    function PropagateFailure<U>(): Option<U>
      requires None?
    {
      None
    }

    function Extract(): T
      requires Some?
    {
      value
    }
  }

  /** A success value or an error value. */
  datatype Result<+R, +E> = Success(value: R) | Failure(error: E)
}
