/** Small value types shared by every module of the model. */
module Wrappers {

  /** Rust's `Option<T>`. */
  datatype Option<+T> = None | Some(value: T)

  /** How a call of the source ends: it returns a value, it panics (an
      `expect`/`unwrap` that fails, or arithmetic overflow in a debug build),
      or it calls `std::process::exit` with a code. */
  datatype Outcome<+T> = Value(value: T) | Panic | Exit(code: nat)

  /** The largest value of Rust's `u64`. */
  const U64_MAX: int := 0xFFFF_FFFF_FFFF_FFFF

  /** Rust's `u64`. */
  type u64 = x: int | 0 <= x <= U64_MAX

  /** Rust's derived ordering on `Option<T>`: `None` sorts before every
      `Some(_)`, and two `Some`s compare by their contents. */
  predicate OptionLess(a: Option<int>, b: Option<int>)
  {
    match (a, b)
    case (None, None) => false
    case (None, Some(_)) => true
    case (Some(_), None) => false
    case (Some(x), Some(y)) => x < y
  }
}
