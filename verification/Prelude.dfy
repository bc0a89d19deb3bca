/** Small value types shared by every component of the model. */
module Prelude {

  datatype Option<+T> = None | Some(value: T)

  datatype Result<+T, +E> = Ok(value: T) | Err(error: E)

  const I64_MAX: int := 0x7FFF_FFFF_FFFF_FFFF
  const I64_MIN: int := -0x8000_0000_0000_0000

  /** A value the node keeps in a signed 64-bit integer. */
  type Int64 = x: int | I64_MIN <= x <= I64_MAX

  predicate FitsI64(x: int) {
    I64_MIN <= x <= I64_MAX
  }

  function Max(a: int, b: int): int {
    if a < b then b else a
  }
}
