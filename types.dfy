/** The fixed-width integers of the Rust interface, as ranges of `int`. */
module RustInts {

  /** The range of Rust's `u32`. */
  type U32 = x: int | 0 <= x < 0x1_0000_0000

  /** The range of Rust's `u8`. */
  type Byte = x: int | 0 <= x < 0x100
}
