/** The two outcome types of the solver model: `Option` for the scans that
    may find nothing (`find_uncovered`, the star and prime searches of steps
    3 and 4), and `Result` for `solve`, whose faults stand for the exceptions
    and assertion failures of the source. `Result` supports `:-`, so a fault
    in padding or substitution ends the computation as the exception does. */
module Wrappers {

  datatype Option<+T> = None | Some(value: T)

  datatype Result<+R, +E> = Success(value: R) | Failure(error: E) {

    predicate IsFailure() {
      Failure?
    }

    function PropagateFailure<U>(): Result<U, E>
      requires Failure?
    {
      Failure(error)
    }

    function Extract(): R
      requires Success?
    {
      value
    }
  }
}
