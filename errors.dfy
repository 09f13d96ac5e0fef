/** The ways a BITM conversion fails, and the result type that carries them. */
module Errors {

  datatype Error =
    | TruncatedHeader  // `struct.unpack('<I', ...)` on fewer than 4 bytes raises `struct.error`
    | InvalidMagic     // `ValueError("Invalid magic code ...")`
    | TruncatedData    // `array.fromfile` finding fewer bytes than the word count asks for raises `EOFError`

  datatype Result<+T> = Ok(value: T) | Err(error: Error)
}
