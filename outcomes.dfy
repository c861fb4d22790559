/**
 * Failure outcomes of the solver library. The C++ code throws
 * std::invalid_argument and std::out_of_range; here a failing operation
 * returns a Failure value carrying the kind of exception instead.
 */
module Outcomes {

  /** The exception classes the core throws. */
  datatype Error = InvalidArgument | OutOfRange

  datatype Result<+T> = Success(value: T) | Failure(error: Error)

  datatype Option<+T> = None | Some(value: T)
}
