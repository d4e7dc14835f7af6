/** Failure-carrying wrappers used by the resolver and the wire codec. */
module Wrappers {

  /** Rust's `Option`: a value that may be absent. */
  datatype Option<+T> = None | Some(value: T)

  /** Rust's `Result`: a value, or the error that prevented it. */
  datatype Result<+T, +E> = Ok(value: T) | Err(error: E)
}

/** The fixed-width integer types the source uses, as bounded subsets of `int`. */
module Ints {

  const U16_MAX: int := 0xFFFF
  const I32_MIN: int := -0x8000_0000
  const I32_MAX: int := 0x7FFF_FFFF

  /** `u8`: one byte of a stream. */
  type byte = x: int | 0 <= x < 0x100

  /** `u16`: SRV priorities, weights and ports, and the handshake's port. */
  type u16 = x: int | 0 <= x <= U16_MAX

  /** `i32`: the value range of a VarInt. */
  type i32 = x: int | I32_MIN <= x <= I32_MAX

  function Min(a: int, b: int): (m: int)
    ensures m <= a && m <= b && (m == a || m == b)
  {
    if a <= b then a else b
  }
}
