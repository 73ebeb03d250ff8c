/** Machine integer widths used by the installer. */
module Ints {

  const U32_MAX: int := 0xFFFF_FFFF

  /** Rust's `u32`: ports and process ids. */
  type u32 = x: int | 0 <= x <= U32_MAX

  /** Rust's `u8`: file contents and hardware addresses. */
  type byte = x: int | 0 <= x < 256
}
