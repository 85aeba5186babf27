/** The fixed-width integers of the Rust source. Arithmetic on them is checked, as in a debug build. */
module Ints {
  const U32_MAX: int := 0xffff_ffff
  const I32_MIN: int := -0x8000_0000
  const I32_MAX: int := 0x7fff_ffff

  newtype u32 = x: int | 0 <= x <= U32_MAX
  newtype i32 = x: int | I32_MIN <= x <= I32_MAX
}
