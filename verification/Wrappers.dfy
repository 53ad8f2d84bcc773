/** Types shared by all parts. */
module Wrappers {
  datatype Option<+T> = None | Some(value: T)

  /** A byte for code that works on its bits. */
  type byte = bv8

  /** A byte for code that works on its value. */
  type octet = x: int | 0 <= x < 256

  /** `n` times the same value. */
  function Repeat<T>(x: T, n: nat): (s: seq<T>)
    ensures |s| == n
  {
    seq(n, _ => x)
  }
}
