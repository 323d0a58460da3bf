/** Small shared vocabulary: optional values, results and bytes. */
module Common {

  /** Rust's `Option<T>`. */
  datatype Option<+T> = None | Some(value: T)

  /** Rust's `Result<T, E>`. */
  datatype Result<+T, +E> = Ok(value: T) | Err(error: E)

  /** An octet, as carried by response bodies. */
  newtype byte = b: int | 0 <= b < 0x100
}
