/** What the decoder can reject, and results that carry it. */
module Results {
  datatype Error =
    | InvalidMagic
    | InvalidLevel
    | Truncated
    | CrcMismatch
    | RandomizedBlock
    | InvalidHuffman
    | InvalidBlock
    | BlockOverflow

  datatype Option<+T> = None | Some(value: T)

  datatype Result<+T> = Ok(value: T) | Err(error: Error)

  /** A value and the number of bits it was read from, or the error that reading ran into. */
  datatype Parsed<+T> = Done(value: T, used: nat) | Fail(error: Error)
}
