/** Types shared by every module: optional values, results, bytes. */
module Basics {

  datatype Option<+T> = None | Some(value: T)

  datatype Result<+T> = Ok(value: T) | Err

  type Byte = b: int | 0 <= b < 256

  type Bytes = seq<Byte>

  /** Exclusive bound of the 32-bit unsigned integers used for heights and lengths. */
  const U32_LIMIT: int := 0x1_0000_0000

  function Min(a: int, b: int): int {
    if a <= b then a else b
  }

  /** Subtraction that stops at zero. */
  function SaturatingSub(a: nat, b: nat): nat {
    if a >= b then a - b else 0
  }
}
