/** 17.14 fixed-point arithmetic (threads/fixedpoint.h).  Values are exact integers; a computation
    is within C's `int` when every value it produces satisfies Int32. */
module FixedPoint {
  import opened IntegerDivision

  const F: int := 16384

  predicate Int32(x: int) {
    -0x8000_0000 <= x < 0x8000_0000
  }

  function IntToFp(n: int): int { n * F }

  function FpToInt(x: int): int { TruncDiv(x, F) }

  function FpToIntRound(x: int): int {
    if x >= 0 then TruncDiv(x + F / 2, F) else TruncDiv(x - F / 2, F)
  }

  function AddFp(x: int, y: int): int { x + y }

  function AddInt(x: int, n: int): int { x + n * F }

  function SubFp(x: int, y: int): int { x - y }

  function MultFp(x: int, y: int): int { TruncDiv(x * y, F) }

  function MultInt(x: int, n: int): int { x * n }

  function DivFp(x: int, y: int): int
    requires y != 0
  {
    TruncDiv(x * F, y)
  }

  function DivInt(x: int, n: int): int
    requires n != 0
  {
    TruncDiv(x, n)
  }

  lemma TruncNonNegative(n: int, d: int)
    requires n >= 0 && d > 0
    ensures TruncDiv(n, d) == n / d >= 0
  {
  }

  lemma TruncNegative(n: int, d: int)
    requires n < 0 && d > 0
    ensures TruncDiv(n, d) == -(-n / d) <= 0
  {
  }

  /** Conversion to fixed point loses nothing, and rounding is to the nearest integer, halves away from zero. */
  lemma ConversionRoundTrip(n: int)
    ensures FpToInt(IntToFp(n)) == n && FpToIntRound(IntToFp(n)) == n
  {
    if n >= 0 {
      TruncNonNegative(IntToFp(n), F);
      TruncNonNegative(IntToFp(n) + F / 2, F);
    } else {
      TruncNegative(IntToFp(n), F);
      TruncNegative(IntToFp(n) - F / 2, F);
    }
  }

  lemma RoundToNearest(x: int)
    ensures var r := FpToIntRound(x);
            2 * Abs(x - IntToFp(r)) <= F && (2 * Abs(x - IntToFp(r)) == F ==> Abs(IntToFp(r)) > Abs(x))
  {
    if x >= 0 {
      TruncNonNegative(x + F / 2, F);
    } else {
      TruncNegative(x - F / 2, F);
    }
  }
}
