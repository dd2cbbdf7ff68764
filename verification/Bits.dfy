/** The bits of natural numbers, and the bitwise operators by their effect on them. */
module Bits {
  import opened Power2
  import opened IntegerDivision

  function Bit(w: nat, k: nat): bool {
    if k == 0 then w % 2 == 1 else Bit(w / 2, k - 1)
  }

  function And(a: nat, b: nat): nat {
    if a == 0 || b == 0 then 0
    else 2 * And(a / 2, b / 2) + if a % 2 == 1 && b % 2 == 1 then 1 else 0
  }

  function Or(a: nat, b: nat): nat {
    if a == 0 then b else if b == 0 then a
    else 2 * Or(a / 2, b / 2) + if a % 2 == 1 || b % 2 == 1 then 1 else 0
  }

  function Xor(a: nat, b: nat): nat {
    if a == 0 then b else if b == 0 then a
    else 2 * Xor(a / 2, b / 2) + if a % 2 != b % 2 then 1 else 0
  }

  /** ~m, in n bits. */
  function Not(n: nat, m: nat): nat
    requires m < Pow2(n)
  {
    Pow2(n) - 1 - m
  }

  lemma {:induction false} BitZero(k: nat)
    ensures !Bit(0, k)
  {
    if k > 0 { BitZero(k - 1); }
  }

  lemma {:induction false} BitAnd(a: nat, b: nat, k: nat)
    ensures Bit(And(a, b), k) <==> Bit(a, k) && Bit(b, k)
    decreases k
  {
    BitZero(k);
    if a != 0 && b != 0 && k > 0 {
      assert And(a, b) / 2 == And(a / 2, b / 2);
      BitAnd(a / 2, b / 2, k - 1);
    }
  }

  lemma {:induction false} BitOr(a: nat, b: nat, k: nat)
    ensures Bit(Or(a, b), k) <==> Bit(a, k) || Bit(b, k)
    decreases k
  {
    BitZero(k);
    if a != 0 && b != 0 && k > 0 {
      assert Or(a, b) / 2 == Or(a / 2, b / 2);
      BitOr(a / 2, b / 2, k - 1);
    }
  }

  lemma {:induction false} BitXor(a: nat, b: nat, k: nat)
    ensures Bit(Xor(a, b), k) <==> Bit(a, k) != Bit(b, k)
    decreases k
  {
    BitZero(k);
    if a != 0 && b != 0 && k > 0 {
      assert Xor(a, b) / 2 == Xor(a / 2, b / 2);
      BitXor(a / 2, b / 2, k - 1);
    }
  }

  lemma {:induction false} BitPow2(i: nat, k: nat)
    ensures Bit(Pow2(i), k) <==> i == k
  {
    if i == 0 {
      if k > 0 { BitZero(k - 1); }
    } else if k > 0 {
      BitPow2(i - 1, k - 1);
    }
  }

  lemma {:induction false} BitNot(n: nat, m: nat, k: nat)
    requires m < Pow2(n) && k < n
    ensures Bit(Not(n, m), k) <==> !Bit(m, k)
    decreases k
  {
    assert Pow2(n) == 2 * Pow2(n - 1);
    if k > 0 {
      assert Not(n, m) / 2 == Not(n - 1, m / 2);
      BitNot(n - 1, m / 2, k - 1);
    }
  }

  /** Testing one bit by masking. */
  lemma {:induction false} AndPow2(w: nat, k: nat)
    ensures And(w, Pow2(k)) == if Bit(w, k) then Pow2(k) else 0
    decreases k
  {
    if w == 0 {
      BitZero(k);
    } else if k == 0 {
      assert Pow2(0) == 1;
    } else {
      AndPow2(w / 2, k - 1);
    }
  }

  /** What two numbers share is what their union lacks of their sum. */
  lemma {:induction false} OrAnd(a: nat, b: nat)
    ensures Or(a, b) + And(a, b) == a + b
  {
    if a > 0 && b > 0 {
      OrAnd(a / 2, b / 2);
    }
  }

  /** Setting a bit that is clear. */
  lemma OrPow2(w: nat, k: nat)
    requires !Bit(w, k)
    ensures Or(w, Pow2(k)) == w + Pow2(k)
  {
    AndPow2(w, k);
    OrAnd(w, Pow2(k));
  }

  /** The operators stay within their operands' width. */
  lemma {:induction false} OperatorsFit(n: nat, a: nat, b: nat)
    requires a < Pow2(n) && b < Pow2(n)
    ensures And(a, b) < Pow2(n) && Or(a, b) < Pow2(n) && Xor(a, b) < Pow2(n)
    decreases n
  {
    if n > 0 && a != 0 && b != 0 {
      OperatorsFit(n - 1, a / 2, b / 2);
    }
  }

  lemma AndStep(x: nat, p: nat)
    requires p > 0
    ensures And(x, 2 * p - 1) == 2 * And(x / 2, p - 1) + x % 2
  {
    assert (2 * p - 1) / 2 == p - 1 && (2 * p - 1) % 2 == 1;
  }

  /** Masking with 2^k - 1 is taking the remainder. */
  lemma {:induction false} AndLowMask(x: nat, k: nat)
    ensures And(x, Pow2(k) - 1) == x % Pow2(k)
    decreases k
  {
    hide And;
    if k == 0 {
      AndZero(x);
    } else {
      AndLowMask(x / 2, k - 1);
      AndStep(x, Pow2(k - 1));
      ModDouble(x, Pow2(k - 1));
    }
  }

  lemma AndZero(x: nat)
    ensures And(x, 0) == 0
  {
  }

  lemma ModDouble(x: nat, p: nat)
    requires p > 0
    ensures x % (2 * p) == 2 * (x / 2 % p) + x % 2
  {
    var q, r := x / 2 / p, x / 2 % p;
    assert x / 2 == q * p + r;
    assert x == 2 * (q * p + r) + x % 2;
    assert x == q * (2 * p) + (2 * r + x % 2);
    ModUnique(x, 2 * p, q, 2 * r + x % 2);
  }

  lemma ModUnique(x: nat, d: nat, q: nat, r: nat)
    requires d > 0 && r < d && x == q * d + r
    ensures x % d == r && x / d == q
  {
    assert (q + 1) * d == q * d + d;
    DivUnique(x, d, q);
    assert x == x / d * d + x % d;
  }
}
