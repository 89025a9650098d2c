/** Option and error-carrying results used by every handle model.

    The library reports failures by throwing `std::runtime_error` (with one of a
    few fixed messages) or `filesystem_error`; here each distinct failure is a
    constructor of `Error`, and a throwing operation returns a `Result` or an
    `Outcome` instead. */
module Outcomes {

  datatype Option<+T> = None | Some(value: T)

  /** One constructor per exception the library can raise. */
  datatype Error =
    | EmptyPath       // "Attempt to create a file from empty path"
    | CouldNotCreate  // "Could not create temp file" (the exclusive open failed)
    | FailedToCreate  // "Failed to create temp file" (the path is missing after the open)
    | NotRegularFile  // "Temp file was not a regular file ..."
    | RemoveFailed    // `filesystem_error` thrown by `remove`

  /** A value, or the error that was thrown instead. */
  datatype Result<+T> = Ok(value: T) | Err(error: Error)

  /** Completion of a `void` operation, or the error that was thrown. */
  datatype Outcome = Pass | Fail(error: Error)
}
