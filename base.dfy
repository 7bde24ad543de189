/** Machine integers, bytes and the Option/Result wrappers the registry is written with. */
module Base {

  const U64_LIMIT: int := 0x1_0000_0000_0000_0000
  const I32_MIN: int := -0x8000_0000
  const I32_MAX: int := 0x7fff_ffff

  /** Rust's `u64`: unbounded arithmetic below is guarded so it never leaves this range. */
  type u64 = x: int | 0 <= x < U64_LIMIT

  /** Rust's `i32`. */
  type i32 = x: int | I32_MIN <= x <= I32_MAX

  /** Rust's `u8`. */
  newtype byte = x: int | 0 <= x < 256

  datatype Option<T> = None | Some(value: T)

  datatype Result<T, E> = Ok(value: T) | Err(error: E)
}
