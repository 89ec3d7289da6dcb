/** The kernel's error codes and its value-or-error result. */
module Errors {
  datatype Error = NoError | Io | NoMem | Invalid | NotFound | BadFs | Exists | NotEmpty
                 | Busy | NoDevice | NotSupported | Full

  datatype Result<+T> = Success(value: T) | Failure(error: Error)

  datatype Option<+T> = None | Some(value: T)
}
