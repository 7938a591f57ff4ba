/**
 * The value-or-error results of the library, and the portable error codes.
 */
module Results {
  datatype Option<+T> = None | Some(value: T)

  datatype Result<+T> = Ok(value: T) | Err(error: Errc)

  datatype Errc =
    | Unknown
    | NotSupported
    | PermissionDenied
    | NotFound
    | TemporarilyUnavailable
    | MalformedData
    | IoError
    | InvalidEncoding
    | ValueTooLarge
    | ResourceExhausted
    | InvalidArgument
}
