/** Fixed-width integer types, an optional value and a result, shared by
    every module. */
module Primitives {

  /** An unsigned 8-bit integer (Rust `u8`). */
  type u8 = x: int | 0 <= x < 0x100

  /** A raw byte of a buffer or a datagram. */
  type byte = u8

  /** An unsigned 16-bit integer (Rust `u16`). */
  type u16 = x: int | 0 <= x < 0x1_0000

  /** An unsigned 32-bit integer (Rust `u32`). */
  type u32 = x: int | 0 <= x < 0x1_0000_0000

  const U32_MAX: u32 := 0xFFFF_FFFF

  datatype Option<+T> = None | Some(value: T)

  /** Rust's `Result`: a value or an error. */
  datatype Result<+T, +E> = Ok(value: T) | Err(error: E)
}
