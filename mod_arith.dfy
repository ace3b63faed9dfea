/** Exact integer arithmetic the field is built on: powers, reduction modulo
    a positive modulus, primes, the greatest common divisor and repeated
    squaring.  Dafny's `/` and `%` with a positive divisor are floor division
    and the non-negative remainder, which is what BigInt `>>` and `&` with a
    low-bit mask compute. */
module ModArith {

  /** b raised to the power e, as an exact integer. */
  function Exp(b: int, e: nat): int
  {
    if e == 0 then 1 else b * Exp(b, e - 1)
  }

  /** 2^k. */
  function Pow2(k: nat): (r: nat)
    ensures r >= 1
  {
    if k == 0 then 1 else 2 * Pow2(k - 1)
  }

  /** b^e reduced into [0, p): the value the field's `pow` computes. */
  function ModPow(b: int, e: nat, p: int): int
    requires p > 0
  {
    Exp(b, e) % p
  }

  /** Trial-division primality. */
  ghost predicate IsPrime(p: int)
  {
    p >= 2 && forall d :: 2 <= d < p ==> p % d != 0
  }

  /** The number of bits of p: the unique k with 2^(k-1) <= p < 2^k. */
  function BitLength(p: nat): (k: nat)
    requires p > 0
    ensures k >= 1 && Pow2(k - 1) <= p < Pow2(k)
  {
    if p == 1 then 1 else 1 + BitLength(p / 2)
  }

  lemma BitLengthUnique(p: nat, k: nat)
    requires k >= 1 && Pow2(k - 1) <= p < Pow2(k)
    ensures BitLength(p) == k
  {
    var j := BitLength(p);
    if j < k {
      Pow2Monotone(j, k - 1);
    } else if j > k {
      Pow2Monotone(k, j - 1);
    }
  }

  lemma {:induction false} Pow2Monotone(i: nat, j: nat)
    requires i <= j
    ensures Pow2(i) <= Pow2(j)
  {
    if i < j {
      Pow2Monotone(i, j - 1);
    }
  }

  // ---------------------------------------------------------------------
  // Division and remainder

  /** Quotient and remainder are determined by x == d*q + r with 0 <= r < d. */
  lemma DivModUnique(x: int, d: int, q: int, r: int)
    requires d > 0 && x == d * q + r && 0 <= r < d
    ensures x / d == q && x % d == r
  {
    var q0, r0 := x / d, x % d;
    var k := q - q0;
    assert d * q == d * q0 + d * k;
    assert d * k == r0 - r;
    if k >= 1 {
      MulMonotone(d, 1, k);
    } else if k <= -1 {
      MulMonotone(d, 1, -k);
    }
  }

  lemma MulAssoc(x: int, y: int, z: int)
    ensures x * (y * z) == (x * y) * z && y * (x * z) == x * (y * z)
  {
  }

  lemma Distribute(k: int, x: int, y: int)
    ensures k * (x + y) == k * x + k * y && (x + y) * k == x * k + y * k
  {
  }

  /** Multiplying by d >= 1 moves a number away from 0. */
  lemma MulAwayFromZero(d: int, q: int)
    requires d >= 1
    ensures q < 0 ==> d * q <= -d
    ensures q >= 0 ==> q <= d * q
  {
    if q < 0 {
      MulMonotone(d, q, -1);
    } else {
      MulMonotone(q, 1, d);
    }
  }

  /** Dividing a non-negative value by a positive number keeps it
      non-negative and does not increase it. */
  lemma DivBelow(a: nat, d: int)
    requires d >= 1
    ensures 0 <= a / d <= a
  {
    assert a == d * (a / d) + a % d;
    MulAwayFromZero(d, a / d);
  }

  lemma MulMonotone(a: int, x: int, y: int)
    requires a >= 0 && x <= y
    ensures a * x <= a * y
  {
    assert a * y - a * x == a * (y - x);
  }

  lemma ModAddMultiple(z: int, k: int, p: int)
    requires p > 0
    ensures (z + p * k) % p == z % p
  {
    assert z + p * k == p * (z / p + k) + z % p;
    DivModUnique(z + p * k, p, z / p + k, z % p);
  }

  lemma MulModL(x: int, y: int, p: int)
    requires p > 0
    ensures ((x % p) * y) % p == (x * y) % p
  {
    assert x * y == (x % p) * y + p * ((x / p) * y);
    ModAddMultiple((x % p) * y, (x / p) * y, p);
  }

  lemma MulModR(x: int, y: int, p: int)
    requires p > 0
    ensures (x * (y % p)) % p == (x * y) % p
  {
    MulModL(y, x, p);
  }

  lemma MulMod(x: int, y: int, p: int)
    requires p > 0
    ensures ((x % p) * (y % p)) % p == (x * y) % p
  {
    MulModL(x, y % p, p);
    MulModR(x, y, p);
  }

  lemma AddModL(x: int, y: int, p: int)
    requires p > 0
    ensures ((x % p) + y) % p == (x + y) % p
  {
    assert x + y == (x % p) + y + p * (x / p);
    ModAddMultiple((x % p) + y, x / p, p);
  }

  /** One conditional subtraction reduces a value below 2p. */
  lemma ReduceOnce(x: int, p: int)
    requires p > 0 && 0 <= x < 2 * p
    ensures (if x >= p then x - p else x) == x % p
  {
    if x >= p {
      DivModUnique(x, p, 1, x - p);
    } else {
      DivModUnique(x, p, 0, x);
    }
  }

  lemma SmallMod(x: int, p: int)
    requires 0 <= x < p
    ensures x % p == x
  {
    DivModUnique(x, p, 0, x);
  }

  lemma MultipleMod(p: int, k: int)
    requires p > 0
    ensures (p * k) % p == 0
  {
    DivModUnique(p * k, p, k, 0);
  }

  /** A positive multiple of a positive number is at least that number. */
  lemma DivisorBound(d: int, a: int)
    requires d > 0 && a > 0 && a % d == 0
    ensures d <= a
  {
    var k := a / d;
    assert a == d * k;
    assert k >= 1;
    MulMonotone(d, 1, k);
  }

  /** n == (a*b) * ((n / a) / b) + (a * ((n / a) % b) + n % a), the remainder in [0, a*b). */
  lemma MixedRadix(n: int, a: int, b: int)
    requires a > 0 && b > 0
    ensures n == (a * b) * ((n / a) / b) + (a * ((n / a) % b) + n % a)
    ensures 0 <= a * ((n / a) % b) + n % a < a * b
  {
    var q1, r1 := n / a, n % a;
    var q2, r2 := q1 / b, q1 % b;
    assert n == a * q1 + r1;
    assert q1 == b * q2 + r2;
    assert a * q1 == a * (b * q2) + a * r2;
    assert a * (b * q2) == (a * b) * q2;
    MulMonotone(a, r2, b - 1);
    MulMonotone(a, 0, r2);
    assert a * (b - 1) == a * b - a;
  }

  /** floor(floor(n / a) / b) == floor(n / (a*b)). */
  lemma DivDiv(n: int, a: int, b: int)
    requires a > 0 && b > 0
    ensures (n / a) / b == n / (a * b)
  {
    MixedRadix(n, a, b);
    DivModUnique(n, a * b, (n / a) / b, a * ((n / a) % b) + n % a);
  }

  /** n % (a*b) keeps the low part of n in base a. */
  lemma ModMulDiv(n: int, a: int, b: int)
    requires a > 0 && b > 0
    ensures n % (a * b) == a * ((n / a) % b) + n % a
  {
    MixedRadix(n, a, b);
    DivModUnique(n, a * b, (n / a) / b, a * ((n / a) % b) + n % a);
  }

  // ---------------------------------------------------------------------
  // Powers

  lemma {:induction false} ExpAdd(b: int, e1: nat, e2: nat)
    ensures Exp(b, e1 + e2) == Exp(b, e1) * Exp(b, e2)
  {
    if e1 > 0 {
      ExpAdd(b, e1 - 1, e2);
    }
  }

  lemma {:induction false} ExpMul(b: int, e1: nat, e2: nat)
    ensures Exp(b, e1 * e2) == Exp(Exp(b, e1), e2)
  {
    if e2 > 0 {
      calc {
        Exp(b, e1 * e2);
        { assert e1 * e2 == e1 * (e2 - 1) + e1; ExpAdd(b, e1 * (e2 - 1), e1); }
        Exp(b, e1 * (e2 - 1)) * Exp(b, e1);
        { ExpMul(b, e1, e2 - 1); }
        Exp(Exp(b, e1), e2 - 1) * Exp(b, e1);
      }
    }
  }

  lemma {:induction false} ExpModBase(b: int, e: nat, p: int)
    requires p > 0
    ensures Exp(b % p, e) % p == Exp(b, e) % p
  {
    if e > 0 {
      calc {
        Exp(b % p, e) % p;
        ((b % p) * Exp(b % p, e - 1)) % p;
        { MulModR(b % p, Exp(b % p, e - 1), p); }
        ((b % p) * (Exp(b % p, e - 1) % p)) % p;
        { ExpModBase(b, e - 1, p); }
        ((b % p) * (Exp(b, e - 1) % p)) % p;
        { MulMod(b, Exp(b, e - 1), p); }
        (b * Exp(b, e - 1)) % p;
      }
    }
  }

  // ---------------------------------------------------------------------
  // Greatest common divisor, Bezout and Euclid's lemma

  /** Euclid's algorithm. */
  function Gcd(a: nat, b: nat): nat
    decreases b
  {
    if b == 0 then a else Gcd(b, a % b)
  }

  /** x % d == 0 && y % d == 0 implies (k*x + y) % d == 0. */
  lemma DividesLinear(d: int, x: int, y: int, k: int)
    requires d > 0 && x % d == 0 && y % d == 0
    ensures (k * x + y) % d == 0
  {
    assert x == d * (x / d);
    assert y == d * (y / d);
    assert k * x + y == d * (k * (x / d) + y / d);
    MultipleMod(d, k * (x / d) + y / d);
  }

  lemma {:induction false} GcdDivides(a: nat, b: nat)
    requires a > 0 || b > 0
    ensures Gcd(a, b) > 0 && a % Gcd(a, b) == 0 && b % Gcd(a, b) == 0
    decreases b
  {
    if b == 0 {
      SmallMod(0, a);
      MultipleMod(a, 1);
    } else {
      GcdDivides(b, a % b);
      var g := Gcd(b, a % b);
      assert a == (a / b) * b + a % b;
      DividesLinear(g, b, a % b, a / b);
    }
  }

  lemma BezoutShift(a: int, b: int, q: int, x: int, y: int)
    ensures a * y + b * (x - q * y) == b * x + (a - q * b) * y
  {
    Distribute(b, x, -q * y);
    Distribute(y, a, -q * b);
    MulAssoc(b, -q, y);
  }

  /** The Bezout coefficients of Euclid's algorithm. */
  lemma {:induction false} Bezout(a: nat, b: nat) returns (x: int, y: int)
    ensures a * x + b * y == Gcd(a, b)
    decreases b
  {
    if b == 0 {
      x, y := 1, 0;
    } else {
      var x', y' := Bezout(b, a % b);
      var q := a / b;
      assert a % b == a - q * b;
      x, y := y', x' - q * y';
      BezoutShift(a, b, q, x', y');
    }
  }

  /** A prime shares no factor with a smaller positive number. */
  lemma GcdWithPrime(p: int, a: int)
    requires IsPrime(p) && 0 < a < p
    ensures Gcd(p, a) == 1
  {
    GcdDivides(p, a);
    var g := Gcd(p, a);
    DivisorBound(g, a);
  }

  /** If p * x + a0 * y == 1 and p divides a0 * b, then p divides b. */
  lemma CoprimeFactor(p: int, a0: int, b: int, x: int, y: int)
    requires p > 0 && p * x + a0 * y == 1 && (a0 * b) % p == 0
    ensures b % p == 0
  {
    calc {
      b;
      (p * x + a0 * y) * b;
      { Distribute(b, p * x, a0 * y); }
      (p * x) * b + (a0 * y) * b;
      { MulAssoc(p, x, b); MulAssoc(a0, y, b); }
      p * (x * b) + y * (a0 * b);
    }
    MultipleMod(p, x * b);
    DividesLinear(p, a0 * b, p * (x * b), y);
  }

  /** Euclid's lemma: a prime dividing a product divides one of its factors. */
  lemma EuclidLemma(p: int, a: int, b: int)
    requires IsPrime(p) && (a * b) % p == 0
    ensures a % p == 0 || b % p == 0
  {
    var a0 := a % p;
    if a0 != 0 {
      GcdWithPrime(p, a0);
      var x, y := Bezout(p, a0);
      MulModL(a, b, p);
      CoprimeFactor(p, a0, b, x, y);
    }
  }

  /** Modulo a prime, 1 has only the square roots 1 and p - 1. */
  lemma SquareRootOfOne(p: int, x: int)
    requires IsPrime(p) && 0 <= x < p && (x * x) % p == 1
    ensures x == 1 || x == p - 1
  {
    assert (x - 1) * (x + 1) == x * x - 1;
    assert ((x - 1) * (x + 1)) % p == 0 by {
      assert x * x == p * ((x * x) / p) + 1;
      assert x * x - 1 == p * ((x * x) / p);
      MultipleMod(p, (x * x) / p);
    }
    SmallMod(0, p);
    assert x != 0;
    EuclidLemma(p, x - 1, x + 1);
    if (x - 1) % p == 0 {
      SmallMod(x - 1, p);
    } else {
      DivisorBound(p, x + 1);
    }
  }

  // ---------------------------------------------------------------------
  // Repeated squaring

  /** x squared k times, reduced into [0, p) after each squaring. */
  function RepeatedSquare(x: int, k: nat, p: int): (r: int)
    requires p > 0
    ensures 0 <= r < p
  {
    if k == 0 then x % p
    else (RepeatedSquare(x, k - 1, p) * RepeatedSquare(x, k - 1, p)) % p
  }

  /** Squaring k times raises to the power 2^k. */
  lemma {:induction false} RepeatedSquareExp(x: int, k: nat, p: int)
    requires p > 0
    ensures RepeatedSquare(x, k, p) == Exp(x, Pow2(k)) % p
  {
    if k == 0 {
      assert Exp(x, 1) == x;
    } else {
      var y := Exp(x, Pow2(k - 1));
      RepeatedSquareExp(x, k - 1, p);
      MulMod(y, y, p);
      ExpAdd(x, Pow2(k - 1), Pow2(k - 1));
    }
  }

  lemma {:induction false} RepeatedSquareCompose(x: int, j: nat, k: nat, p: int)
    requires p > 0
    ensures RepeatedSquare(RepeatedSquare(x, j, p), k, p) == RepeatedSquare(x, j + k, p)
  {
    if k == 0 {
      SmallMod(RepeatedSquare(x, j, p), p);
    } else {
      RepeatedSquareCompose(x, j, k - 1, p);
    }
  }

  lemma {:induction false} RepeatedSquareMul(a: int, b: int, k: nat, p: int)
    requires p > 0
    ensures RepeatedSquare((a * b) % p, k, p)
         == (RepeatedSquare(a, k, p) * RepeatedSquare(b, k, p)) % p
  {
    if k == 0 {
      SmallMod((a * b) % p, p);
      MulMod(a, b, p);
    } else {
      RepeatedSquareMul(a, b, k - 1, p);
      SquareOfProduct(RepeatedSquare(a, k - 1, p), RepeatedSquare(b, k - 1, p), p);
    }
  }

  lemma SquareOfProduct(x: int, y: int, p: int)
    requires p > 0
    ensures (((x * y) % p) * ((x * y) % p)) % p == (((x * x) % p) * ((y * y) % p)) % p
  {
    MulMod(x * y, x * y, p);
    assert (x * y) * (x * y) == (x * x) * (y * y);
    MulMod(x * x, y * y, p);
  }

  /** Squaring b^e k times gives b^(e * 2^k). */
  lemma RepeatedSquarePow(b: int, e: nat, k: nat, p: int)
    requires p > 0
    ensures RepeatedSquare(Exp(b, e) % p, k, p) == Exp(b, e * Pow2(k)) % p
  {
    RepeatedSquareExp(Exp(b, e) % p, k, p);
    ExpModBase(Exp(b, e), Pow2(k), p);
    ExpMul(b, e, Pow2(k));
  }

  /** Squaring p - 1 gives 1. */
  lemma MinusOneSquared(p: int)
    requires p > 1
    ensures ((p - 1) * (p - 1)) % p == 1
  {
    assert (p - 1) * (p - 1) == p * (p - 2) + 1;
    DivModUnique((p - 1) * (p - 1), p, p - 2, 1);
  }
}
