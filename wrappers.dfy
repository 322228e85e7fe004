/** Absent-or-present and success-or-failure values, standing in for the
    `O.Option` helpers and the thrown errors of the TypeScript code. */
module Wrappers {

  datatype Option<+T> = None | Some(value: T)

  datatype Result<+T, +E> = Success(value: T) | Failure(error: E)
}
