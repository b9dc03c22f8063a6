/** Shared value types of the data primitives: Go's fixed-width integers,
    and the Option / Result / Outcome wrappers used for the error paths. */
module Base {

  const MinInt32: int := -0x8000_0000
  const MaxInt32: int := 0x7fff_ffff
  const MinInt64: int := -0x8000_0000_0000_0000
  const MaxInt64: int := 0x7fff_ffff_ffff_ffff

  /** Go's int32 and int64, as ranges of the mathematical integers. */
  type int32 = x: int | MinInt32 <= x <= MaxInt32
  type int64 = x: int | MinInt64 <= x <= MaxInt64

  datatype Option<+T> = None | Some(value: T)

  /** A Go function returning (T, error), or one that panics on bad input. */
  datatype Result<+T, +E> = Success(value: T) | Failure(error: E)

  /** A Go function returning only an error. */
  datatype Outcome<+E> = Pass | Fail(error: E)

  /** Go's `a + b` on int64: two's-complement wrap-around on overflow. */
  function WrapAdd64(a: int64, b: int64): (r: int64)
    ensures (r - (a + b)) % 0x1_0000_0000_0000_0000 == 0
    ensures MinInt64 <= a + b <= MaxInt64 ==> r == a + b
  {
    var s := a + b;
    if s > MaxInt64 then s - 0x1_0000_0000_0000_0000
    else if s < MinInt64 then s + 0x1_0000_0000_0000_0000
    else s
  }

  /** Adding one always yields a different int64, even at MaxInt64, where
      Go's addition wraps round to MinInt64. */
  lemma IncrementChanges(i: int64)
    ensures WrapAdd64(i, 1) != i
    ensures i == MaxInt64 ==> WrapAdd64(i, 1) == MinInt64
  {
  }
}
