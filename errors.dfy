/** The failures a decode can report, and the result type that carries them. */
module Errors {

  datatype Error =
    | TruncatedLengthPrefix  // fewer bytes than the length prefix's size class needs
    | TruncatedBody          // fewer bytes than the body of the announced length needs
    | NonZeroPadding         // strict decoding only: a storage bit past the length is set
    | LengthOverflow         // the announced length cannot be sized without overflowing usize

  datatype Result<+T> = Ok(value: T) | Err(error: Error)
}
