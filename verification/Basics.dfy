/**
 Fixed-width integer ranges and the two failure-carrying datatypes shared by
 every module of the model. Arithmetic is over mathematical integers; a value
 of one of these types is a proof that the number fits the machine width.
 */
module Basics {

  type u8 = x: int | 0 <= x < 0x100
  type u16 = x: int | 0 <= x < 0x1_0000
  type u32 = x: int | 0 <= x < 0x1_0000_0000
  type u64 = x: int | 0 <= x < 0x1_0000_0000_0000_0000
  type u128 = x: int | 0 <= x < 0x1_0000_0000_0000_0000_0000_0000_0000_0000

  const U64_MAX: int := 0xFFFF_FFFF_FFFF_FFFF
  const U128_MAX: int := 0xFFFF_FFFF_FFFF_FFFF_FFFF_FFFF_FFFF_FFFF
  const I64_MAX: int := 0x7FFF_FFFF_FFFF_FFFF
  const I128_MAX: int := 0x7FFF_FFFF_FFFF_FFFF_FFFF_FFFF_FFFF_FFFF
  const I128_MIN: int := -0x8000_0000_0000_0000_0000_0000_0000_0000

  datatype Option<+T> = None | Some(value: T)

  datatype Result<+T, +E> = Ok(value: T) | Err(error: E)

  function Min(a: int, b: int): int {
    if a <= b then a else b
  }

  function Max(a: int, b: int): int {
    if a >= b then a else b
  }

  /** `saturating_sub` on unsigned integers. */
  function SaturatingSub(a: nat, b: nat): nat {
    if a >= b then a - b else 0
  }
}
