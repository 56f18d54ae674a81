/**
Rust's fixed-width integers. Each width is a subset type, so a value stored at a
width carries the proof that it fits; narrowing and saturation are explicit.
*/
module MachineInts {
  const U64_MAX: int := 0xFFFF_FFFF_FFFF_FFFF
  const I64_MAX: int := 0x7FFF_FFFF_FFFF_FFFF
  const I128_MAX: int := 0x7FFF_FFFF_FFFF_FFFF_FFFF_FFFF_FFFF_FFFF

  type u16 = n: int | 0 <= n < 0x1_0000
  type u32 = n: int | 0 <= n < 0x1_0000_0000
  type u64 = n: int | 0 <= n < 0x1_0000_0000_0000_0000
  type u128 = n: int | 0 <= n < 0x1_0000_0000_0000_0000_0000_0000_0000_0000
  type i64 = n: int | -0x8000_0000_0000_0000 <= n < 0x8000_0000_0000_0000
  type i128 = n: int
    | -0x8000_0000_0000_0000_0000_0000_0000_0000 <= n < 0x8000_0000_0000_0000_0000_0000_0000_0000

  function Min(a: int, b: int): int {
    if a <= b then a else b
  }

  function Max(a: int, b: int): int {
    if a <= b then b else a
  }

  /** `u64::try_from(n).unwrap_or(u64::MAX)`. */
  function NarrowU64(n: nat): u64 {
    Min(n, U64_MAX)
  }

  function SaturatingAdd(a: u64, b: u64): u64 {
    Min(a + b, U64_MAX)
  }

  function SaturatingSub(a: u64, b: u64): u64 {
    Max(a - b, 0)
  }

  function SaturatingAddI128(a: i128, b: i128): i128 {
    Max(-I128_MAX - 1, Min(a + b, I128_MAX))
  }

  function Clamp(n: int, low: int, high: int): int {
    Max(low, Min(n, high))
  }

  datatype Option<+T> = None | Some(value: T)

  datatype Result<+T, +E> = Ok(value: T) | Err(error: E)
}
