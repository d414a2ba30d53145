/** Small shared vocabulary: optional values, results, bytes and machine-word bounds. */
module Base {

  datatype Option<+T> = None | Some(value: T)

  datatype Result<+T, +E> = Ok(value: T) | Err(error: E)

  type byte = x: int | 0 <= x < 0x100

  type Bytes = seq<byte>

  const U16_LIMIT: int := 0x1_0000
  const U32_LIMIT: int := 0x1_0000_0000
  const U64_LIMIT: int := 0x1_0000_0000_0000_0000
  const U64_MAX: int := U64_LIMIT - 1

  /** Rust's `saturating_add(1)` on `u64`. */
  function SaturatingInc(x: nat): nat {
    if x >= U64_MAX then U64_MAX else x + 1
  }
}
