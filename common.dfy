/** Value types shared by every module: Go's byte, a nil-able value and an error return. */
module Common {

  /** Go's `byte`. */
  type byte = x: int | 0 <= x < 256

  /** A Go pointer that may be nil, or an `error` that may be nil. */
  datatype Option<+T> = None | Some(value: T)

  /** A Go `(value, error)` pair where exactly one side is meaningful. */
  datatype Result<+T, +E> = Ok(value: T) | Err(error: E)

  /** `n` zero bytes, as Go's `make([]byte, n)` yields. */
  function Zeros(n: nat): (r: seq<byte>)
    ensures |r| == n
    ensures forall i :: 0 <= i < n ==> r[i] == 0
  {
    seq(n, _ => 0)
  }
}
