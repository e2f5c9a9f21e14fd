// Shared value wrappers: an optional value, and the outcome of an
// operation that in the library may throw one of its exception types.
module Wrappers {

  datatype Option<T> = None | Some(value: T)

  /** The exception classes thrown by the data-structure library. */
  datatype Error =
    | InvalidArgument   // std::invalid_argument
    | LogicError        // std::logic_error
    | OutOfRange        // std::out_of_range
    | RuntimeError      // std::runtime_error
    | KeyNotFound       // KeyNotFoundException of the map classes
    | MapError          // MapException of the map classes

  /** The value an operation returns, or the exception it throws. */
  datatype Result<T> = Ok(value: T) | Err(error: Error)

  /** An operation without a return value that may throw. */
  datatype Outcome = Pass | Fail(error: Error)
}
