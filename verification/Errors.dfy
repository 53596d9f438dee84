/** The errors the codecs report, and results that carry them. */
module Errors {
  import opened RustInt

  datatype ProtocolError =
    | InvalidLength(expected: nat, actual: nat)
    | InvalidChecksum(expected: nat, actual: nat)
    | InvalidHeader(byte: Byte)
    | StringTooLong(length: nat, max: nat)
    | InvalidCharacter(ch: char, position: nat)
    | InvalidMessageType(msgType: Byte)
    | BufferTooSmall(required: nat, actual: nat)

  datatype Result<T> = Ok(value: T) | Err(error: ProtocolError)
}
