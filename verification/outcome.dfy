/** Failure-compatible result type shared by the whole model.
    An exception thrown by the server code is an `Err` carrying the reason;
    bytes written before the throw are not modelled (the connection is
    closed by the caller in every case). */
module Outcome {

  /** Reasons for which an operation of the server throws. */
  datatype Error =
    | FenceUnsupported
    | FencePayloadTooLarge
    | UnknownFenceFlags
    | ContinuousUpdatesUnsupported
    | ContinuousUpdatesNotAllowed
    | CursorPositionUnsupported
    | DesktopResizeUnsupported
    | ExtendedDesktopResizeUnsupported
    | DesktopRenameUnsupported
    | LocalCursorUnsupported
    | LedStateUnsupported
    | LedStateUnknown
    | QemuKeyEventUnsupported
    | RectsOutOfSync
    | NoValidId
    | ConnectionRequired
    | FfmpegRequired
    | UnresolvableHost
    | MaskNotSupported
    | InvalidPrefixLength
    | UnknownAddressFamily
    | InvalidAction

  /** An optional value. */
  datatype Option<T> = None | Some(value: T)

  datatype Result<+T> = Ok(value: T) | Err(error: Error) {
    predicate IsFailure() {
      Err?
    }

    function PropagateFailure<U>(): Result<U>
      requires Err?
    {
      Err(error)
    }

    function Extract(): T
      requires Ok?
    {
      value
    }
  }
}
