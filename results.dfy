/** Failure-carrying return values shared by the escrow program and the bot. */
module Results {

  /** A value or the error that stopped the computation producing it. */
  datatype Result<+T, +E> = Ok(value: T) | Err(error: E)

  /** A value that may be absent (a JavaScript `undefined`, a Rust `None`). */
  datatype Option<+T> = None | Some(value: T)
}
