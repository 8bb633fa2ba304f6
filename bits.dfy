/**
 * Python's bitwise operators on non-negative (unbounded) integers.
 *
 * The codec and the cipher work on Python `int`s, which never overflow. On a
 * non-negative integer `x << k` is `x * 2^k`, `x >> k` is `x / 2^k` and
 * `x & (2^k - 1)` is `x % 2^k`; the model writes those forms directly. Only
 * `^` and `|` need definitions of their own, given here bit by bit.
 */
module Bits {

  function Pow2(k: nat): (r: nat)
    ensures r >= 1
  {
    if k == 0 then 1 else 2 * Pow2(k - 1)
  }

  /** Python's `a ^ b` on non-negative integers. */
  function Xor(a: nat, b: nat): nat
    decreases a + b
  {
    if a == 0 && b == 0 then 0 else 2 * Xor(a / 2, b / 2) + (a + b) % 2
  }

  /** Python's `a | b` on non-negative integers. */
  function Or(a: nat, b: nat): nat
    decreases a + b
  {
    if a == 0 && b == 0 then 0
    else 2 * Or(a / 2, b / 2) + (if a % 2 == 1 || b % 2 == 1 then 1 else 0)
  }

  /** The exclusive or of two k-bit numbers is a k-bit number. */
  lemma {:induction false} XorBound(a: nat, b: nat, k: nat)
    requires a < Pow2(k) && b < Pow2(k)
    ensures Xor(a, b) < Pow2(k)
  {
    if k > 0 && !(a == 0 && b == 0) {
      XorBound(a / 2, b / 2, k - 1);
    }
  }

  lemma {:induction false} OrZero(a: nat)
    ensures Or(a, 0) == a && Or(0, a) == a
    decreases a
  {
    if a != 0 {
      OrZero(a / 2);
    }
  }

  lemma OrUnfold(a: nat, b: nat)
    ensures Or(a, b) == 2 * Or(a / 2, b / 2) + (if a % 2 == 1 || b % 2 == 1 then 1 else 0)
  {
    if a == 0 && b == 0 {
      OrZero(0);
    }
  }

  /** Bits of `a` below position k and bits of `b * 2^k` do not overlap, so `|` is `+`. */
  lemma {:induction false} OrDisjoint(a: nat, b: nat, k: nat)
    requires a < Pow2(k)
    ensures Or(a, b * Pow2(k)) == a + b * Pow2(k)
  {
    if k == 0 {
      OrZero(b);
    } else {
      var p := Pow2(k - 1);
      assert b * Pow2(k) == 2 * (b * p);
      OrUnfold(a, b * Pow2(k));
      OrDisjoint(a / 2, b, k - 1);
    }
  }

  lemma {:induction false} OrCommutes(a: nat, b: nat)
    ensures Or(a, b) == Or(b, a)
    decreases a + b
  {
    if !(a == 0 && b == 0) {
      OrCommutes(a / 2, b / 2);
    }
  }

  /** Euclidean division is unique: x = lo + m * hi with lo < m fixes quotient and remainder. */
  lemma DivModUnique(x: nat, lo: nat, hi: nat, m: nat)
    requires 0 < m && lo < m && x == lo + m * hi
    ensures x / m == hi && x % m == lo
  {
    var d := x / m - hi;
    assert m * d == lo - x % m;
    assert d >= 1 ==> m * d >= m;
    assert d <= -1 ==> m * d + m <= 0;
  }
}
