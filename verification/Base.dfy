/** Small shared vocabulary: optional values, results, and the integer cast the store relies on. */
module Base {

  datatype Option<+T> = None | Some(value: T)

  datatype Result<+T, +E> = Ok(value: T) | Err(error: E)

  function Max(a: int, b: int): int { if a >= b then a else b }

  function Min(a: int, b: int): int { if a <= b then a else b }

  const TWO_31: int := 0x8000_0000
  const TWO_32: int := 0x1_0000_0000
  const TWO_63: int := 0x8000_0000_0000_0000
  const TWO_64: int := 0x1_0000_0000_0000_0000

  /** Rust's `x as i32` for an unsigned 64-bit `x`: keep the low 32 bits, read them as two's complement. */
  function ToI32(x: nat): int {
    var low := x % TWO_32;
    if low < TWO_31 then low else low - TWO_32
  }

  /** Rust's `x as u64` for an i32 `x`: a negative number is taken modulo 2^64. */
  function ToU64(x: int): nat
    requires -TWO_31 <= x < TWO_31
  {
    if x < 0 then TWO_64 + x else x
  }
}
