/** Results of operations that may throw. */
module Outcomes {
  datatype Option<+T> = None | Some(value: T)

  datatype Error = DomainError | InvalidArgument | DataTooLong | LengthError

  datatype Result<+T> = Success(value: T) | Failure(error: Error)
}
