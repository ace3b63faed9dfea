/** Bitwise operators and shifts on non-negative big integers, defined bit by
    bit from the least significant end, as JavaScript BigInt computes them. */
module Bits {
  import opened ModArith

  /** a & b */
  function BitAnd(a: nat, b: nat): nat
    decreases a
  {
    if a == 0 || b == 0 then 0
    else 2 * BitAnd(a / 2, b / 2) + (if a % 2 == 1 && b % 2 == 1 then 1 else 0)
  }

  /** a | b */
  function BitOr(a: nat, b: nat): nat
    decreases a + b
  {
    if a == 0 then b
    else if b == 0 then a
    else 2 * BitOr(a / 2, b / 2) + (if a % 2 == 1 || b % 2 == 1 then 1 else 0)
  }

  /** a ^ b */
  function BitXor(a: nat, b: nat): nat
    decreases a + b
  {
    if a == 0 then b
    else if b == 0 then a
    else 2 * BitXor(a / 2, b / 2) + (if a % 2 != b % 2 then 1 else 0)
  }

  /** a << b for a BigInt shift amount b; a negative amount shifts right. */
  function ShiftLeft(a: nat, b: int): nat
  {
    if b >= 0 then
      MulMonotone(a, 0, Pow2(b));
      a * Pow2(b)
    else
      DivBelow(a, Pow2(-b));
      a / Pow2(-b)
  }

  /** a >> b for a BigInt shift amount b; a negative amount shifts left. */
  function ShiftRight(a: nat, b: int): nat
  {
    if b >= 0 then
      DivBelow(a, Pow2(b));
      a / Pow2(b)
    else
      MulMonotone(a, 0, Pow2(-b));
      a * Pow2(-b)
  }

  /** A right shift by k is division by 2^k rounded down: the result is
      the largest r with r * 2^k <= a. */
  lemma ShiftRightFloor(a: nat, k: int)
    ensures k >= 0 ==> ShiftRight(a, k) * Pow2(k) <= a < (ShiftRight(a, k) + 1) * Pow2(k)
  {
    if k >= 0 {
      var d, q := Pow2(k), a / Pow2(k);
      assert a == d * q + a % d;
      Distribute(d, q, 1);
    }
  }

  /** Masking with k one-bits keeps the value modulo 2^k. */
  lemma {:induction false} BitAndMask(x: nat, k: nat)
    ensures BitAnd(x, Pow2(k) - 1) == x % Pow2(k)
  {
    if k == 0 {
      DivModUnique(x, 1, x, 0);
    } else if x == 0 {
      SmallMod(0, Pow2(k));
    } else {
      var m := Pow2(k) - 1;
      assert m / 2 == Pow2(k - 1) - 1 && m % 2 == 1;
      BitAndMask(x / 2, k - 1);
      ModMulDiv(x, 2, Pow2(k - 1));
    }
  }

  /** Exclusive-or with k one-bits complements a value of at most k bits. */
  lemma {:induction false} BitXorMask(x: nat, k: nat)
    requires x < Pow2(k)
    ensures BitXor(x, Pow2(k) - 1) == Pow2(k) - 1 - x
  {
    if k > 0 && x > 0 {
      var m := Pow2(k) - 1;
      assert m / 2 == Pow2(k - 1) - 1 && m % 2 == 1;
      BitXorMask(x / 2, k - 1);
    }
  }
}
