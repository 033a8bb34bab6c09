/** The fixed-width unsigned integers of Rust that appear in the core's
    types. */
module RustInts {
  /** A Rust `u16`. */
  type U16 = x: int | 0 <= x < 0x1_0000

  /** A Rust `u32`. */
  type U32 = x: int | 0 <= x < 0x1_0000_0000

  /** A Rust `u64`. */
  type U64 = x: int | 0 <= x < 0x1_0000_0000_0000_0000
}
