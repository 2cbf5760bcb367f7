/** The failures the frame codecs raise, and the wrappers that carry them. */
module Errors {

  /** The exceptions of the codec and of the buffers it works on. */
  datatype Error =
    | IllegalArgument        // a caller passed an out-of-contract value (request n below 1)
    | ProtocolViolation      // the frame header names a different frame type
    | IndexOutOfBounds       // a read or skip ran past the readable bytes
    | IllegalReferenceCount  // retain, release or access of an already released object

  datatype Option<+T> = None | Some(value: T)

  datatype Result<+T> = Ok(value: T) | Err(error: Error)

  /** The result of an operation that returns nothing but may fail. */
  datatype Outcome = Pass | Fail(error: Error)
}
