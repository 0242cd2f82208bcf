/** The fixed-width integers of the source. */
module Integers {

  predicate IsI64(x: int) {
    -0x8000_0000_0000_0000 <= x < 0x8000_0000_0000_0000
  }

  type i64 = x: int | IsI64(x)

  type u8 = x: nat | x < 0x100

  type u32 = x: nat | x < 0x1_0000_0000
}
