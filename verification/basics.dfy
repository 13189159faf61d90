/** Go primitive types and the failure-compatible wrappers the stores use. */
module Basics {

  /** A Go `byte`. */
  type byte = x: int | 0 <= x < 256

  const MinInt64: int := -0x8000_0000_0000_0000
  const MaxInt64: int := 0x7fff_ffff_ffff_ffff
  const TwoTo64: int := 0x1_0000_0000_0000_0000

  /** A Go `int64` (and `int`, which is 64 bits wide on the platforms the service targets). */
  type int64 = x: int | -0x8000_0000_0000_0000 <= x < 0x8000_0000_0000_0000

  /** Two's-complement wrap-around of an unbounded integer into `int64`, as Go's
      fixed-width arithmetic does on overflow. */
  function Wrap64(x: int): (r: int64)
    ensures (r - x) % TwoTo64 == 0
    ensures MinInt64 <= x <= MaxInt64 ==> r == x
  {
    var m := (x - MinInt64) % TwoTo64;
    m + MinInt64
  }

  datatype Option<+T> = None | Some(value: T)

  /** The result of a Go call returning `(T, error)`: a value, or a non-nil error. */
  datatype Result<+T, +E> = Ok(value: T) | Err(error: E) {

    predicate IsFailure() {
      Err?
    }

    function PropagateFailure<U>(): Result<U, E>
      requires Err?
    {
      Err(error)
    }

    function Extract(): T
      requires Ok?
    {
      value
    }
  }
}
