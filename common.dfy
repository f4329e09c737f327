/** Values shared by every module: Rust's Option, the integer widths the handlers use,
    and two's-complement wrap-around for i64 arithmetic. */
module Common {

  datatype Option<+T> = None | Some(value: T) {
    /** Rust's `unwrap_or` */
    function GetOr(default: T): T {
      match this
      case Some(v) => v
      case None => default
    }
  }

  const I64_MIN: int := -0x8000_0000_0000_0000
  const I64_MAX: int := 0x7fff_ffff_ffff_ffff
  const I32_MIN: int := -0x8000_0000
  const I32_MAX: int := 0x7fff_ffff

  type i64 = x: int | I64_MIN <= x <= I64_MAX
  type i32 = x: int | I32_MIN <= x <= I32_MAX

  /** An ASCII decimal digit: what `to_string` writes and what `char::is_digit(10)` accepts,
      whatever the script. */
  predicate IsDigit(c: char) {
    '0' <= c <= '9'
  }

  function Min(a: int, b: int): int {
    if a <= b then a else b
  }

  /** The i64 that an unbounded integer wraps to, as Rust's release profile computes
      `+`, `-` and `*` on i64 (two's complement, modulo 2^64). */
  function Wrap64(x: int): (r: i64)
    ensures (r - x) % 0x1_0000_0000_0000_0000 == 0
    ensures I64_MIN <= x <= I64_MAX ==> r == x
  {
    if I64_MIN <= x <= I64_MAX then x else (x - I64_MIN) % 0x1_0000_0000_0000_0000 + I64_MIN
  }
}
