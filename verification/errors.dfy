/** The exceptions the core raises, as values, and the result types that
    carry them in place of Python's raise. */
module Errors {

  datatype Error =
    | IncompleteRead          // asyncio.IncompleteReadError: end of stream first
    | LimitOverrun            // asyncio.LimitOverrunError: more than STREAM_BUFSIZE accumulated
    | EmptySeparator          // ValueError from bytes.split with an empty separator
    | Protocol(protocol: string, part: string)  // ProtocolError(protocol, part)
    | StructError             // struct.error: wrong buffer length or a value out of range
    | TooManyValues           // ValueError: a tuple unpacked into too few names
    | DigitLimit              // ValueError: int() of more digits than sys.int_max_str_digits
    | InvalidAddress          // socket.inet_pton refusing the host
    | IndexError              // indexing past the end of a buffer
    | InvalidHeader           // RuntimeError('invalid trojan header')
    | InvalidPassword         // RuntimeError('invalid trojan password')
    | InvalidTag              // cryptography.exceptions.InvalidTag from AES-GCM

  datatype Result<+T> = Ok(value: T) | Err(error: Error)

  datatype Option<+T> = None | Some(value: T)

  /** The outcome of an operation that returns nothing. */
  datatype Outcome = Pass | Fail(error: Error)
}
