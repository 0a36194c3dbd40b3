/** Shared vocabulary: optional values, bytes, and the fixed-width arithmetic of the gateway's counters. */
module Prelude {

  datatype Option<+T> = None | Some(value: T)

  type byte = x: int | 0 <= x < 256
  type Bytes = seq<byte>

  const U32_MAX: nat := 0xFFFF_FFFF
  const U64_MAX: nat := 0xFFFF_FFFF_FFFF_FFFF
  /** On a 64-bit target. */
  const USIZE_MAX: nat := U64_MAX

  function Min(x: int, y: int): int {
    if x <= y then x else y
  }

  function Max(x: int, y: int): int {
    if x <= y then y else x
  }

  /** Saturating `u64` addition. */
  function SatAdd(x: nat, y: nat): nat {
    Min(x + y, U64_MAX)
  }

  /** Saturating `u64` subtraction. */
  function SatSub(x: nat, y: nat): nat {
    Max(x - y, 0)
  }

  /** Saturating `u32` increment. */
  function Increment(n: nat): nat {
    Min(n + 1, U32_MAX)
  }
}
