/** The typed errors of the model. The source reports these through
    `io::Error` and `error_chain`, or aborts the process; here every one of
    them is a value handed back to the caller. */
module Errors {
  import opened Bytes

  datatype Error =
      /** The length prefix is below the 18-byte minimum: the byte stream can
          no longer be trusted (the source panics). */
    | FrameTooShort(len: nat)
      /** The flags byte has a bit outside the known set. */
    | InvalidFlags(flags: uint8)
      /** No message is registered under this discriminator byte. */
    | UnsupportedDiscriminator(discriminator: uint8)
      /** A credential field is not UTF-8 (`io::ErrorKind::InvalidData`). */
    | InvalidUtf8
      /** The input ended before a declared length was satisfied
          (`io::ErrorKind::UnexpectedEof` from `read_u8` / `read_exact`). */
    | Truncated
      /** A credential field of 255 bytes or more (the source asserts). */
    | ValueTooLong
      /** A write-events response whose result code is missing or
          contradictory, or whose event numbers overflow (the source panics). */
    | Malformed
}
