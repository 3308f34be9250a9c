/** Small shared definitions: an optional value and the 16-bit unsigned
    integers the terminal engine uses for every coordinate and size. */
module Util {

  /** Rust's `Option<T>`. */
  datatype Option<+T> = None | Some(value: T) {
    /** `unwrap_or(default)` */
    function GetOr(default: T): (r: T) {
      match this
      case Some(v) => v
      case None => default
    }
  }

  const U16_LIMIT: int := 0x1_0000

  /** Rust's `u16`. Arithmetic that leaves its range panics in debug builds
      and wraps in release builds; the model excludes both by requiring that
      every value assigned to this type is in range. */
  type u16 = x: int | 0 <= x < 0x1_0000

  function Min(a: int, b: int): (r: int) { if a <= b then a else b }

  function Max(a: int, b: int): (r: int) { if a >= b then a else b }
}
