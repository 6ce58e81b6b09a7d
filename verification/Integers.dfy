/** The 64-bit signed arithmetic of Go's `int` and `time.Duration`. */
module Integers {

  const MIN64 := -0x8000_0000_0000_0000
  const MAX64 := 0x7FFF_FFFF_FFFF_FFFF

  predicate Int64(x: int) {
    MIN64 <= x <= MAX64
  }

  type int64 = x: int | Int64(x) witness 0

  /** What is left of a result that may not fit. */
  function Wrap64(x: int): (r: int64)
    ensures Int64(x) ==> r == x
    ensures MAX64 < x <= MAX64 + 0x1_0000_0000_0000_0000 ==> r == x - 0x1_0000_0000_0000_0000
  {
    (x - MIN64) % 0x1_0000_0000_0000_0000 + MIN64
  }

  /** Only multiples of 2^64 are lost. */
  lemma WrapsByMultiples(x: int)
    ensures exists k :: Wrap64(x) == x + k * 0x1_0000_0000_0000_0000
  {
    assert Wrap64(x) == x + -((x - MIN64) / 0x1_0000_0000_0000_0000) * 0x1_0000_0000_0000_0000;
  }

  function Smaller(x: int, y: int): int {
    if x < y then x else y
  }

  function Larger(x: int, y: int): int {
    if x > y then x else y
  }
}
