/** The exception taxonomy of tap/Utility/Exceptions.hpp, as values.
    A `throw` in the source becomes an `Err` here; `throwIf` becomes `ThrowIf`. */
module Errors {

  datatype Error =
    | IncompleteReadError
    | InvalidBufferSize
    | InvalidFrameSizeError
    | InvalidEthernetFrameError
    | InvalidArpPacketError
    | InvalidIp4PacketError
    | InvalidCli
    | InvalidFileDescriptor

  datatype Option<+T> = None | Some(value: T)

  /** A value, or the exception that was thrown instead of returning it. */
  datatype Result<+T> = Ok(value: T) | Err(error: Error)

  /** A call that returns nothing, or the exception it threw. */
  datatype Outcome = Pass | Fail(error: Error)

  /** `throwIf<exception>(b)`: throws `e` exactly when `b` holds. */
  function ThrowIf(b: bool, e: Error): (r: Outcome)
    ensures r.Fail? <==> b
    ensures r.Fail? ==> r.error == e
  {
    if b then Fail(e) else Pass
  }
}
