// The errors `encode_hex`, `decode` and `decode_hex` report.

module Errors {

  /** Why a hashid did not decode: a segment that is not a value, or a malformed hashid. */
  datatype DecodeError = Value | Hash

  /** A hex string that is not hexadecimal, or a hashid that does not decode. */
  datatype Error = Hex | Decode(kind: DecodeError)
}
