/** 64-bit division built from the 32-bit divide instruction (lib/arithmetic.c).
    Unsigned 32- and 64-bit values are naturals below W32 and W64; every wrap-around is written out. */
module Division64 {
  import opened Power2
  import opened IntegerDivision
  import opened Vaddr

  const W64: int := 0x1_0000_0000_0000_0000
  const HALF: int := 0x8000_0000_0000_0000

  /** Truncation to a 64-bit unsigned integer. */
  function U64(x: int): (r: int)
    ensures 0 <= x < W64 ==> r == x
    ensures -W64 <= x < 0 ==> r == x + W64
    ensures 0 <= r < W64
  {
    x % W64
  }

  /** The intermediate values of udiv64. */
  function Carried(n: nat, d: nat): (c: int)
    requires 0 < d
    ensures c >= 0
  {
    W32 * (n / W32 % d) + n % W32
  }

  function Leading(d: nat, s: nat): int {
    U64(ShiftLeft(d, s)) / W32
  }

  function PastFirst(n: nat, d: nat, est: int): int {
    U64(n - (est - 1) * d)
  }

  /** The DIVL instruction.  It traps unless the quotient fits in 32 bits, so that is its precondition. */
  method Divl(n: nat, d: nat) returns (q: nat)
    requires n < W64 && 0 < d < W32 && Quotient(n, d) < W32
    ensures q == Quotient(n, d)
  {
    q := n / d;
  }

  lemma ShiftPowers()
    ensures Pow2(0) == 1 && Pow2(1) == 2 && Pow2(2) == 4 && Pow2(4) == 16 && Pow2(8) == 0x100 && Pow2(16) == 0x10000
  {
    Pow2Add(4, 4);
    Pow2Add(8, 8);
  }

  function ShiftLeft(x: nat, n: nat): int {
    x * Pow2(n)
  }

  lemma ShiftMore(x: nat, n: nat, k: nat, m: nat)
    requires m == Pow2(k)
    ensures ShiftLeft(x, n + k) == ShiftLeft(x, n) * m
  {
    Pow2Add(n, k);
    assert x * Pow2(n) * Pow2(k) == x * (Pow2(n) * Pow2(k));
  }

  lemma NotShifted(x: nat)
    ensures ShiftLeft(x, 0) == x
  {
  }

  /** Number of leading zeros of a nonzero 32-bit x0: the shift that brings its top bit to bit 31. */
  method Nlz(x0: nat) returns (n: nat)
    requires 0 < x0 < W32
    ensures n <= 31
    ensures W32 / 2 <= ShiftLeft(x0, n) < W32
  {
    hide Pow2, ShiftLeft, U32, U64;
    ShiftPowers();
    NotShifted(x0);
    var x := x0;
    n := 0;
    if x <= 0x0000FFFF {
      ShiftMore(x0, n, 16, 0x10000);
      n := n + 16;
      x := U32(x * 0x10000);
    }
    if x <= 0x00FFFFFF {
      ShiftMore(x0, n, 8, 0x100);
      n := n + 8;
      x := U32(x * 0x100);
    }
    if x <= 0x0FFFFFFF {
      ShiftMore(x0, n, 4, 0x10);
      n := n + 4;
      x := U32(x * 0x10);
    }
    if x <= 0x3FFFFFFF {
      ShiftMore(x0, n, 2, 4);
      n := n + 2;
      x := U32(x * 4);
    }
    if x <= 0x7FFFFFFF {
      ShiftMore(x0, n, 1, 2);
      n := n + 1;
    }
  }

  /** The quotient by a 32-bit divisor, digit by digit: the high digit's remainder is carried
      into the low digit, whose quotient then fits in 32 bits. */
  lemma ShortDivision(n: nat, d: nat)
    requires n < W64 && 0 < d < W32
    ensures Carried(n, d) < W64 && Quotient(Carried(n, d), d) < W32
    ensures Quotient(Carried(n, d), d) + W32 * Quotient(n / W32, d) == Quotient(n, d)
  {
    var n1 := n / W32;
    var t, c := n1 / d, Carried(n, d);
    assert n1 == t * d + n1 % d;
    MulLeq(n1 % d + 1, d, W32);
    var q := c / d;
    DivBounds(c, d);
    assert c < W32 * d;
    CancelLess(q, W32, d);
    CarryIn(n, d, W32 * t, c, q);
  }

  lemma CarryIn(n: int, d: int, high: int, c: int, q: int)
    requires d > 0 && n == high * d + c && q * d <= c < (q + 1) * d
    ensures n / d == q + high
  {
    assert (q + high) * d == q * d + high * d;
    assert (q + high + 1) * d == (q + 1) * d + high * d;
    DivUnique(n, d, q + high);
  }

  lemma EstimateSmall(n: nat, D: nat, q: nat, P: nat, R: nat)
    requires n < W64 && P * R == W32 / 2 && q * D <= n && W32 * R <= D && R > 0
    ensures q < 2 * P
  {
    MulLeq(W32 * R, D, q);
    assert D * q == q * D;
    assert W32 * R * q == W32 * (q * R);
    assert q * R < W32;
    assert 2 * P * R == W32;
    CancelLess(q, 2 * P, R);
  }

  lemma EstimateError(D: nat, e: nat, q: nat, P: nat, R: nat)
    requires P * R == W32 / 2 && W32 * R <= D && e < 2 * R && 0 < q < 2 * P && R > 0
    ensures (q - 1) * e <= D
  {
    MulLeq(e, 2 * R - 1, q - 1);
    MulLeq(q - 1, 2 * P - 2, 2 * R - 1);
    assert (2 * P - 2) * (2 * R - 1) == 4 * (P * R) - 2 * P - 4 * R + 2;
    assert (q - 1) * e == e * (q - 1) && (q - 1) * (2 * R - 1) == (2 * R - 1) * (q - 1);
    if R == 1 {
      assert P == W32 / 2;
    }
  }

  /** Hacker's Delight: dividing by the divisor rounded down to its 32 leading bits, here D,
      overshoots the true quotient by at most one.  P == 2^s and R == 2^(31-s). */
  lemma EstimateClose(n: nat, d: nat, D: nat, P: nat, R: nat)
    requires n < W64 && P * R == W32 / 2 && R > 0
    requires W32 * R <= D <= d < D + 2 * R
    ensures n / d <= n / D <= n / d + 1
  {
    EstimateLow(n, d, D);
    if n / D > 0 {
      EstimateHigh(n, d, D, P, R);
    }
  }

  lemma EstimateLow(n: nat, d: nat, D: nat)
    requires 0 < D <= d
    ensures n / d <= n / D
  {
    var q, t := n / D, n / d;
    DivBounds(n, D);
    DivBounds(n, d);
    MulLeq(D, d, t);
    CancelLess(t, q + 1, D);
  }

  lemma EstimateHigh(n: nat, d: nat, D: nat, P: nat, R: nat)
    requires n < W64 && P * R == W32 / 2 && R > 0
    requires W32 * R <= D <= d < D + 2 * R && n / D > 0
    ensures n / D <= n / d + 1
  {
    var q := n / D;
    DivBounds(n, D);
    EstimateSmall(n, D, q, P, R);
    EstimateError(D, d - D, q, P, R);
    assert (q - 1) * d <= n by {
      assert (q - 1) * d == q * D - D + (q - 1) * (d - D);
    }
    DivAtLeast(n, d, q - 1);
  }

  /** What the normalised divisor stands for. */
  lemma Normalised(d: nat, P: nat, R: nat)
    requires W32 <= d < W64 && P * R == W32 / 2 && P > 0 && R > 0
    requires W32 / 2 <= (d / W32) * P < W32
    ensures W64 / 2 <= d * P < W64
  {
    var d1 := d / W32;
    MulLeq(d1 * W32, d, P);
    assert d1 * W32 * P == (d1 * P) * W32;
    MultipleBelow(d1, P, R);
    MulLeq(d + 1, (d1 + 1) * W32, P);
    assert (d1 + 1) * W32 * P == (d1 * P + P) * W32;
    assert (d + 1) * P == d * P + P;
  }

  lemma LeadingBits(d: nat, v: nat, P: nat, R: nat)
    requires P * R == W32 / 2 && P > 0 && R > 0 && v == d * P / W32 && W64 / 2 <= d * P < W64
    ensures W32 / 2 <= v < W32
    ensures W32 * R <= v * (2 * R) <= d < v * (2 * R) + 2 * R
  {
    DivBounds(d * P, W32);
    assert v * W32 == (v * (2 * R)) * P by {
      assert (v * (2 * R)) * P == v * (2 * (R * P));
    }
    assert (v + 1) * W32 == ((v + 1) * (2 * R)) * P by {
      assert ((v + 1) * (2 * R)) * P == (v + 1) * (2 * (R * P));
    }
    CancelLeq(v * (2 * R), d, P);
    CancelLess(d, (v + 1) * (2 * R), P);
    MulLeq(W32 / 2, v, 2 * R);
  }

  lemma MultipleBelow(d1: nat, P: nat, R: nat)
    requires P * R == W32 / 2 && P > 0 && R > 0 && d1 * P < W32
    ensures d1 * P + P <= W32
  {
    if d1 >= 2 * R {
      MulLeq(2 * R, d1, P);
    }
    MulLeq(d1 + 1, 2 * R, P);
  }

  /** Unsigned quotient.  Both branches call Divl within its precondition, so it never traps. */
  method UDiv64(n: nat, d: nat) returns (q: nat)
    requires n < W64 && 0 < d < W64
    ensures q == Quotient(n, d)
  {
    hide Pow2, ShiftLeft, U64, Quotient, Carried, Leading, PastFirst;
    if d / W32 == 0 {
      ShortDivision(n, d);
      var n1, n0 := n / W32, n % W32;
      var low := Divl(Carried(n, d), d);
      q := low + W32 * Quotient(n1, d);
    } else if n < d {
      BelowDivisor(n, d);
      q := 0;
    } else {
      var d1 := d / W32;
      var s := Nlz(d1);
      WideEstimate(n, d, s);
      var q1 := Divl(n / 2, Leading(d, s));
      var est := Quotient(q1, Pow2(31 - s));
      q := if PastFirst(n, d, est) < d then est - 1 else est;
    }
  }

  lemma BelowDivisor(n: nat, d: nat)
    requires n < d
    ensures Quotient(n, d) == 0
  {
    DivUnique(n, d, 0);
  }

  /** The wide branch: Divl is within its precondition, the estimate is exact or one too large,
      and the final comparison tells which. */
  lemma WideEstimate(n: nat, d: nat, s: nat)
    requires W32 <= d <= n < W64 && s <= 31
    requires W32 / 2 <= ShiftLeft(d / W32, s) < W32
    ensures 0 < Leading(d, s) < W32 && Quotient(n / 2, Leading(d, s)) < W32
    ensures var est := Quotient(Quotient(n / 2, Leading(d, s)), Pow2(31 - s));
            Quotient(n, d) <= est <= Quotient(n, d) + 1 &&
            (if PastFirst(n, d, est) < d then est - 1 else est) == Quotient(n, d)
  {
    hide Pow2;
    var P, R := Pow2(s), Pow2(31 - s);
    PowersAre(s);
    Normalised(d, P, R);
    var v := d * P / W32;
    assert v == Leading(d, s);
    LeadingBits(d, v, P, R);
    HalfQuotient(n, v);
    ThreeDivs(n, v, R);
    EstimateClose(n, d, v * (2 * R), P, R);
    CorrectedIs(n, d, n / 2 / v / R);
  }

  lemma HalfQuotient(n: nat, v: nat)
    requires n < W64 && W32 / 2 <= v
    ensures n / 2 / v < W32
  {
    DivBounds(n / 2, v);
    MulLeq(W32 / 2, v, W32);
    CancelLess(n / 2 / v, W32, v);
  }

  lemma PowersAre(s: nat)
    requires s <= 31
    ensures Pow2(s) * Pow2(31 - s) == W32 / 2
  {
    Pow2Add(s, 31 - s);
    assert Pow2(31) == W32 / 2 by {
      Pow2Add(16, 15);
      Pow2Add(1, 15);
      ShiftPowers();
    }
  }

  lemma ThreeDivs(n: nat, v: nat, R: nat)
    requires v > 0 && R > 0
    ensures v * (2 * R) > 0 && n / 2 / v / R == n / (v * (2 * R))
  {
    DivDiv(n, 2, v);
    DivDiv(n, 2 * v, R);
    assert 2 * v * R == v * (2 * R);
  }

  /** The last line of udiv64, in 64-bit wrap-around arithmetic, picks the right one of the two candidates. */
  lemma CorrectedIs(n: nat, d: nat, est: nat)
    requires n < W64 && 0 < d <= n && n / d <= est <= n / d + 1
    ensures est >= 1 && (if PastFirst(n, d, est) < d then est - 1 else est) == n / d
  {
    var t := n / d;
    DivBounds(n, d);
    DivAtLeast(n, d, 1);
    MulLeq(est - 1, t, d);
    MulLeq(0, est - 1, d);
    if est == t {
      assert (est - 1) * d == t * d - d;
    }
  }

  /** Reading a value modulo 2^64 as a signed integer. */
  function S64(x: int): (r: int)
    ensures -HALF <= r < HALF
    ensures -HALF <= x < HALF ==> r == x
    ensures HALF <= x < W64 ==> r == x - W64
  {
    var u := U64(x);
    if u < HALF then u else u - W64
  }

  function S32(x: int): (r: int)
    ensures -0x8000_0000 <= r < 0x8000_0000
    ensures -0x8000_0000 <= x < 0x8000_0000 ==> r == x
  {
    var u := U32(x);
    if u < 0x8000_0000 then u else u - W32
  }

  /** Signed quotient.  It truncates toward zero except where the true quotient is 2^63. */
  method SDiv64(n: int, d: int) returns (q: int)
    requires -HALF <= n < HALF && -HALF <= d < HALF && d != 0
    ensures q == TruncDiv(n, d) <==> !(n == -HALF && d == -1)
    ensures n == -HALF && d == -1 ==> q == -HALF
  {
    hide Quotient, U64, S64;
    var nAbs := if n >= 0 then n else U64(-U64(n));
    var dAbs := if d >= 0 then d else U64(-U64(d));
    assert nAbs == Abs(n) && dAbs == Abs(d);
    var qAbs := UDiv64(nAbs, dAbs);
    QuotientBounds(nAbs, dAbs);
    q := if (n < 0) == (d < 0) then S64(qAbs) else S64(-S64(qAbs));
  }

  lemma QuotientBounds(n: nat, d: nat)
    requires d > 0
    ensures Quotient(n, d) <= n
    ensures d == 1 ==> Quotient(n, d) == n
    ensures d > 1 && n > 0 ==> Quotient(n, d) < n
  {
    if d == 1 {
      DivUnique(n, 1, n);
    } else if n == 0 {
      DivUnique(0, d, 0);
    } else {
      DivBounds(n, d);
      MulLeq(2, d, n / d);
    }
  }

  /** Unsigned remainder, returned through a 32-bit type: right exactly when the remainder fits. */
  method UMod64(n: nat, d: nat) returns (r: nat)
    requires n < W64 && 0 < d < W64
    ensures r == n % d <==> n % d < W32
  {
    var q := UDiv64(n, d);
    assert n - d * q == n % d;
    RemainderBound(n, d);
    r := U32(U64(n - U64(d * q)));
  }

  /** Signed remainder, returned through a 32-bit type: right exactly when the remainder fits. */
  method SMod64(n: int, d: int) returns (r: int)
    requires -HALF <= n < HALF && -HALF <= d < HALF && d != 0
    ensures var exact := n - d * TruncDiv(n, d);
            r == exact <==> -0x8000_0000 <= exact < 0x8000_0000
  {
    hide Quotient, U64, S64, U32, S32;
    var q := SDiv64(n, d);
    ghost var exact := n - d * TruncDiv(n, d);
    TruncDivIs(n, d);
    if n == -HALF && d == -1 {
      OverflowingRemainder();
    }
    r := S32(S64(n - S64(d * q)));
  }

  lemma OverflowingRemainder()
    ensures TruncDiv(-HALF, -1) == HALF
  {
  }
}
