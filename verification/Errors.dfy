/** Result values and the error codes of the storage layers. */
module Errors {

  /** Rust's `Result`; failure-compatible, so that `:-` plays the part of `?`. */
  datatype Result<+T, +E> = Ok(value: T) | Err(error: E) {
    predicate IsFailure() { Err? }

    function PropagateFailure<U>(): Result<U, E>
      requires Err?
    {
      Err(error)
    }

    function Extract(): T
      requires Ok?
    {
      value
    }
  }

  datatype Option<+T> = None | Some(value: T)

  datatype FsError =
    | NoSuchFile
    | AlreadyExists
    | FilesystemFull
    | FilenameTooLong
    | FileTooLarge
    | ReadOnly
    | InvalidFilename
    | PermissionDenied

  /** `Panicked` stands for a slice bound or a sum that a checked build would panic on. */
  datatype DiskError =
    | OutOfBounds
    | BufferTooSmall
    | DeviceError
    | FormatError
    | CorruptedData
    | DiskFull
    | FileNotFound
    | FilesystemError(cause: FsError)
    | Panicked
}
