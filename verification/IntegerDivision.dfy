/** Facts about integer division, and the truncating division that C's `/` means. */
module IntegerDivision {
  /** The quotient of naturals, under a name that can be hidden from a proof. */
  function Quotient(n: int, d: int): (q: int)
    requires n >= 0 && d > 0
    ensures q >= 0
  {
    n / d
  }

  lemma MulLeq(a: int, b: int, c: int)
    requires a <= b && 0 <= c
    ensures a * c <= b * c
  {
  }

  lemma DivUnique(n: int, d: int, q: int)
    requires d > 0 && q * d <= n < (q + 1) * d
    ensures n / d == q
  {
    var r := n / d;
    assert r * d <= n < (r + 1) * d;
    if r < q { MulLeq(r + 1, q, d); }
    if r > q { MulLeq(q + 1, r, d); }
  }

  lemma DivBounds(n: int, d: int)
    requires d > 0
    ensures n / d * d <= n < (n / d + 1) * d
  {
  }

  /** Dividing in two steps is dividing by the product. */
  lemma DivDiv(n: int, a: int, b: int)
    requires a > 0 && b > 0
    ensures a * b > 0 && n / a / b == n / (a * b)
  {
    var q := n / a;
    var r := q / b;
    DivBounds(n, a);
    DivBounds(q, b);
    MulLeq(r * b, q, a);
    MulLeq(q + 1, (r + 1) * b, a);
    assert r * b * a == r * (a * b) && (r + 1) * b * a == (r + 1) * (a * b);
    DivUnique(n, a * b, r);
  }

  lemma CancelLeq(a: int, b: int, p: int)
    requires p > 0 && a * p <= b * p
    ensures a <= b
  {
    if a > b { MulLeq(b + 1, a, p); }
  }

  lemma CancelLess(a: int, b: int, p: int)
    requires p > 0 && a * p < b * p
    ensures a < b
  {
    if a >= b { MulLeq(b, a, p); }
  }

  lemma DivAtLeast(n: int, d: int, q: int)
    requires d > 0 && q * d <= n
    ensures q <= n / d
  {
    DivBounds(n, d);
    CancelLess(q, n / d + 1, d);
  }

  function Abs(x: int): (r: int)
    ensures r >= 0
  {
    if x < 0 then -x else x
  }

  /** Division that truncates toward zero, which is what C's `/` means. */
  function TruncDiv(n: int, d: int): int
    requires d != 0
  {
    if (n < 0) == (d < 0) then Quotient(Abs(n), Abs(d)) else -Quotient(Abs(n), Abs(d))
  }

  /** The defining property of truncating division: the remainder has the sign of the
      dividend and is smaller than the divisor. */
  lemma TruncDivIs(n: int, d: int)
    requires d != 0
    ensures var r := n - d * TruncDiv(n, d);
            Abs(r) < Abs(d) && (n >= 0 ==> r >= 0) && (n <= 0 ==> r <= 0)
  {
    hide Quotient;
    var a, b := Abs(n), Abs(d);
    RemainderBound(a, b);
    SignedProduct(d, Quotient(a, b));
  }

  lemma SignedProduct(d: int, q: int)
    ensures d * -q == -(d * q)
    ensures d * q == if d < 0 then -(Abs(d) * q) else Abs(d) * q
  {
  }

  lemma RemainderBound(n: nat, d: nat)
    requires d > 0
    ensures d * Quotient(n, d) <= n && n - d * Quotient(n, d) == n % d < d
  {
  }
}
