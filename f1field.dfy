/** The prime field Z/pZ over big integers: parameter derivation, canonical
    arithmetic, the signed order, bitwise operators under the modulus and the
    Tonelli-Shanks square root (src/f1field_native.js). */
module F1Field {
  import opened Wrappers
  import opened ModArith
  import opened Bits
  import opened Fermat

  /** Euler's criterion for a quadratic non-residue: z^((p-1)/2) is p - 1 modulo p. */
  predicate IsNonResidue(z: int, p: int)
    requires p > 0
  {
    ModPow(z, (p - 1) / 2, p) == p - 1
  }

  /** Reducing modulo p keeps the congruence class. */
  lemma ReducedCongruent(x: int, p: int)
    requires p > 0
    ensures (x % p - x) % p == 0
  {
    assert x % p - x == p * -(x / p);
    MultipleMod(p, -(x / p));
  }

  lemma MulModAssoc(a: int, b: int, c: int, p: int)
    requires p > 0
    ensures (((a * b) % p) * c) % p == (a * ((b * c) % p)) % p
  {
    MulModL(a * b, c, p);
    MulModR(a, b * c, p);
    MulAssoc(a, b, c);
  }

  lemma MulModDistrib(a: int, b: int, c: int, p: int)
    requires p > 0
    ensures (a * ((b + c) % p)) % p == ((a * b) % p + (a * c) % p) % p
  {
    MulModR(a, b + c, p);
    Distribute(a, b, c);
    AddModL(a * b, (a * c) % p, p);
    AddModL(a * c, a * b, p);
  }

  /** The search for a non-residue moves past a residue q. */
  lemma NextCandidate(q: int, p: int)
    requires p > 0 && ModPow(q, (p - 1) / 2, p) != p - 1
    requires forall z :: 2 <= z < q ==> !IsNonResidue(z, p)
    ensures forall z :: 2 <= z < q + 1 ==> !IsNonResidue(z, p)
  {
  }

  /** Moving a factor 2 from an even number into the power of two. */
  lemma HalveEven(odd: int, twos: nat)
    requires odd >= 1 && odd % 2 == 0
    ensures odd / 2 >= 1 && odd * Pow2(twos) == (odd / 2) * Pow2(twos + 1)
  {
    var scale := Pow2(twos);
    assert Pow2(twos + 1) == 2 * scale;
    assert odd == 2 * (odd / 2);
    MulAssoc(odd / 2, 2, scale);
  }

  /** Only one value of [0, p) is the inverse of a. */
  lemma InverseModPrime(a: int, x: int, y: int, p: int)
    requires IsPrime(p) && 0 <= x < p && 0 <= y < p
    requires (a * x) % p == 1 && (a * y) % p == 1
    ensures x == y
  {
    assert a * x - a * y == a * (x - y);
    assert (a * (x - y)) % p == 0 by {
      assert a * x == p * ((a * x) / p) + 1;
      assert a * y == p * ((a * y) / p) + 1;
      assert a * (x - y) == p * ((a * x) / p - (a * y) / p);
      MultipleMod(p, (a * x) / p - (a * y) / p);
    }
    EuclidLemma(p, a, x - y);
    if a % p == 0 {
      MulModL(a, x, p);
      SmallMod(0, p);
    } else if x >= y {
      SmallMod(x - y, p);
    } else {
      DivModUnique(x - y, p, -1, p + x - y);
    }
  }

  /** n == odd * 2^twos, stated one halving at a time. */
  ghost predicate Halvings(n: int, twos: nat, odd: int)
    decreases twos
  {
    if twos == 0 then n == odd else n % 2 == 0 && Halvings(n / 2, twos - 1, odd)
  }

  lemma {:induction false} HalvingsProduct(n: int, twos: nat, odd: int)
    ensures Halvings(n, twos, odd) <==> n == odd * Pow2(twos)
    decreases twos
  {
    if twos > 0 {
      HalvingsProduct(n / 2, twos - 1, odd);
      MulAssoc(odd, 2, Pow2(twos - 1));
    }
  }

  /** An even number has at least one factor 2 beside its odd part. */
  lemma TwoAdicOfEven(n: int, odd: int, twos: nat)
    requires (n + 1) % 2 != 0 && odd % 2 != 0 && n == odd * Pow2(twos)
    ensures twos >= 1
  {
    DivModUnique(n + 1, 2, (n + 1) / 2, 1);
    assert Pow2(0) == 1;
  }

  /** The negative branch of `e`: nres is |a| reduced, and p - nres is congruent to a. */
  lemma NegLiteral(a: int, nres: int, p: int)
    requires p > 0 && a < 0 && nres == (if -a >= p then (-a) % p else -a)
    ensures nres == (-a) % p
    ensures (p - nres - a) % p == 0
    ensures a % p == 0 <==> nres == 0
  {
    if -a < p {
      SmallMod(-a, p);
    }
    var q := (-a) / p;
    assert -a == p * q + nres;
    assert p - nres - a == p * (1 + q);
    MultipleMod(p, 1 + q);
    if nres == 0 {
      assert a == p * (-q);
      MultipleMod(p, -q);
    } else {
      assert a == p * (-q - 1) + (p - nres);
      DivModUnique(a, p, -q - 1, p - nres);
    }
  }

  /** The non-negative branch of `e`. */
  lemma PosLiteral(a: int, p: int)
    requires p > 0 && a >= 0
    ensures ((if a >= p then a % p else a) - a) % p == 0
    ensures 0 <= (if a >= p then a % p else a) < p
  {
    var q := a / p;
    assert a == p * q + a % p;
    assert a % p - a == p * (-q);
    MultipleMod(p, -q);
    if a < p {
      SmallMod(a, p);
      SmallMod(0, p);
    }
  }

  /** The bookkeeping of one step of the extended Euclidean loop. */
  lemma EuclidStep(t: int, newt: int, r: int, newr: int, q: int,
                   k: int, newk: int, a0: int, p: int)
    requires 0 < newr < r <= p && q == r / newr
    requires t * a0 - r == k * p && newt * a0 - newr == newk * p
    requires Abs(t) * newr + Abs(newt) * r == p && t * newt <= 0
    ensures 0 <= r - q * newr < newr
    ensures Gcd(newr, r - q * newr) == Gcd(r, newr)
    ensures (t - q * newt) * a0 - (r - q * newr) == (k - q * newk) * p
    ensures Abs(newt) * (r - q * newr) + Abs(t - q * newt) * newr == p
    ensures newt * (t - q * newt) <= 0
    ensures 2 * Abs(newt) <= p
  {
    RemainderStep(r, newr, q);
    BezoutStep(t, newt, r, newr, q, k, newk, a0, p);
    CoefficientStep(t, newt, q);
    CoefficientBound(t, newt, r, newr, q, p);
  }

  lemma RemainderStep(r: int, newr: int, q: int)
    requires 0 < newr < r && q == r / newr
    ensures r - q * newr == r % newr
    ensures Gcd(newr, r - q * newr) == Gcd(r, newr)
  {
    assert r == newr * q + r % newr;
  }

  lemma BezoutStep(t: int, newt: int, r: int, newr: int, q: int,
                   k: int, newk: int, a0: int, p: int)
    requires t * a0 - r == k * p && newt * a0 - newr == newk * p
    ensures (t - q * newt) * a0 - (r - q * newr) == (k - q * newk) * p
  {
    calc {
      (t - q * newt) * a0 - (r - q * newr);
      (t * a0 - r) - q * (newt * a0 - newr);
      k * p - q * (newk * p);
      (k - q * newk) * p;
    }
  }

  /** A product of two positive numbers is positive. */
  lemma MulPositive(a: int, b: int)
    ensures a > 0 && b > 0 ==> a * b > 0
  {
    if a > 0 && b > 0 {
      MulMonotone(a, 1, b);
    }
  }

  /** The coefficients alternate in sign, so their magnitudes add up. */
  lemma CoefficientStep(t: int, newt: int, q: int)
    requires q >= 0 && t * newt <= 0
    ensures Abs(t - q * newt) == Abs(t) + q * Abs(newt)
    ensures newt * (t - q * newt) <= 0
  {
    var u := q * newt;
    MulPositive(newt, t);
    MulPositive(-newt, -t);
    assert (-newt) * (-t) == newt * t;
    if newt > 0 {
      MulMonotone(newt, 0, q);
      MulMonotone(newt, t - u, 0);
    } else if newt < 0 {
      MulMonotone(q, newt, 0);
      assert q * Abs(newt) == -u;
      MulMonotone(-newt, 0, t - u);
      assert (-newt) * (t - u) == -(newt * (t - u));
    }
  }

  lemma CoefficientBound(t: int, newt: int, r: int, newr: int, q: int, p: int)
    requires 0 < newr < r && q == r / newr
    requires Abs(t) * newr + Abs(newt) * r == p
    requires Abs(t - q * newt) == Abs(t) + q * Abs(newt)
    ensures Abs(newt) * (r - q * newr) + Abs(t - q * newt) * newr == p
    ensures 2 * Abs(newt) <= p
  {
    calc {
      Abs(newt) * (r - q * newr) + Abs(t - q * newt) * newr;
      Abs(newt) * (r - q * newr) + (Abs(t) + q * Abs(newt)) * newr;
      Abs(newt) * r - Abs(newt) * (q * newr) + Abs(t) * newr + (q * Abs(newt)) * newr;
      { assert Abs(newt) * (q * newr) == (q * Abs(newt)) * newr; }
      Abs(newt) * r + Abs(t) * newr;
    }
    MulMonotone(Abs(newt), 2, r);
    MulMonotone(Abs(t), 0, newr);
  }

  /** After the loop: gcd 1 makes t an inverse of a0, hence of a. */
  lemma InverseFromBezout(a: int, a0: int, t: int, k: int, p: int)
    requires p > 1 && a0 == a % p && t * a0 - 1 == k * p && 2 * Abs(t) <= p
    ensures 0 <= (if t < 0 then t + p else t) < p
    ensures (a * (if t < 0 then t + p else t)) % p == 1
  {
    var x := if t < 0 then t + p else t;
    if t < 0 {
      assert x * a0 == p * (k + a0) + 1;
      DivModUnique(x * a0, p, k + a0, 1);
    } else {
      assert x * a0 == p * k + 1;
      DivModUnique(x * a0, p, k, 1);
    }
    MulModL(a, x, p);
    assert (a0 * x) == x * a0;
  }

  /** Multiplying the quotient a * b^-1 back by b gives a. */
  lemma QuotientTimesDivisor(a: int, b: int, x: int, p: int)
    requires p > 1 && 0 <= a < p && (b * x) % p == 1
    ensures (((a * x) % p) * b) % p == a
  {
    MulModL(a * x, b, p);
    assert (a * x) * b == a * (b * x);
    MulModR(a, b * x, p);
    SmallMod(a, p);
  }

  /** 2^m >= 2m for m >= 1. */
  lemma {:induction false} Pow2Doubles(m: nat)
    requires m >= 1
    ensures Pow2(m) >= 2 * m
  {
    if m > 1 {
      Pow2Doubles(m - 1);
    }
  }

  /** x is a square root of n modulo p. */
  predicate IsRootOf(x: int, n: int, p: int)
    requires p > 0
  {
    (x * x) % p == n
  }

  /** Raising a reduced square to the power e is raising x to 2e. */
  lemma SquarePower(x: int, e: nat, p: int)
    requires p > 0
    ensures Exp((x * x) % p, e) % p == Exp(x, 2 * e) % p
  {
    assert Exp(x, 2) == x * x by {
      assert Exp(x, 1) == x * Exp(x, 0) == x;
    }
    ExpModBase(x * x, e, p);
    ExpMul(x, 2, e);
  }

  /** A square root of a non-zero residue is not a multiple of p. */
  lemma RootNonZero(x: int, n: int, p: int)
    requires p > 0 && 0 < n
    ensures IsRootOf(x, n, p) ==> x % p != 0
  {
    MulModL(x, x, p);
  }

  /** Euler's criterion in the direction the square-root test relies on:
      every non-zero square n passes it, n^((p-1)/2) = 1. */
  lemma EulerOfSquare(n: int, x: int, p: int)
    requires IsPrime(p) && p > 2 && 0 < n < p
    ensures IsRootOf(x, n, p) ==> ModPow(n, (p - 1) / 2, p) == 1
  {
    RootNonZero(x, n, p);
    if IsRootOf(x, n, p) {
      assert p % 2 != 0;
      SquarePower(x, (p - 1) / 2, p);
      FermatLittle(x, p);
    }
  }

  /** The starting values of Tonelli-Shanks satisfy the loop invariant. */
  lemma TonelliStart(n: int, z: int, s: nat, t: int, p: int)
    requires p > 2 && s >= 1 && t >= 1 && t % 2 == 1 && p - 1 == t * Pow2(s)
    ensures t + 1 < p && (t + 1) % p == t + 1
    ensures RepeatedSquare(ModPow(z, t, p), s - 1, p) == ModPow(z, (p - 1) / 2, p)
    ensures RepeatedSquare(ModPow(n, t, p), s - 1, p) == ModPow(n, (p - 1) / 2, p)
    ensures (ModPow(n, (t + 1) / 2, p) * ModPow(n, (t + 1) / 2, p)) % p
         == (n * ModPow(n, t, p)) % p
  {
    assert Pow2(s) == 2 * Pow2(s - 1);
    assert p - 1 == 2 * (t * Pow2(s - 1));
    assert (p - 1) / 2 == t * Pow2(s - 1);
    MulMonotone(t, 1, Pow2(s - 1));
    SmallMod(t + 1, p);
    RepeatedSquarePow(z, t, s - 1, p);
    RepeatedSquarePow(n, t, s - 1, p);
    var h := (t + 1) / 2;
    MulMod(Exp(n, h), Exp(n, h), p);
    ExpAdd(n, h, h);
    assert h + h == t + 1;
    MulModR(n, Exp(n, t), p);
  }

  /** r^2 == n * t survives r := r * b, t := t * b^2. */
  lemma RootStep(r: int, b: int, n: int, t: int, p: int)
    requires p > 0 && (r * r) % p == (n * t) % p
    ensures (((r * b) % p) * ((r * b) % p)) % p == (n * ((t * ((b * b) % p)) % p)) % p
  {
    var c := (b * b) % p;
    calc {
      (((r * b) % p) * ((r * b) % p)) % p;
      { MulMod(r * b, r * b, p); }
      ((r * b) * (r * b)) % p;
      { assert (r * b) * (r * b) == (r * r) * (b * b); }
      ((r * r) * (b * b)) % p;
      { MulMod(r * r, b * b, p); }
      (((r * r) % p) * c) % p;
      (((n * t) % p) * c) % p;
      { MulModL(n * t, c, p); }
      ((n * t) * c) % p;
      { assert (n * t) * c == n * (t * c); }
      (n * (t * c)) % p;
      { MulModR(n, t * c, p); }
      (n * ((t * c) % p)) % p;
    }
  }

  /** p - r has the same square as r. */
  lemma NegRootSquare(r: int, p: int)
    requires p > 0
    ensures ((p - r) * (p - r)) % p == (r * r) % p
  {
    assert (p - r) * (p - r) == r * r + p * (p - 2 * r);
    ModAddMultiple(r * r, p - 2 * r, p);
  }

  /** One round of Tonelli-Shanks: with i the least exponent such that t0
      squared i times is 1 and b = c0 squared m0 - i - 1 times, the new
      values c = b^2, t = t0 * c and r = r0 * b keep the loop invariant with
      m lowered to i. */
  lemma TonelliRound(n: int, c0: int, t0: int, r0: int, m0: nat, i: nat, b: int, p: int)
    requires IsPrime(p) && p > 2 && 1 <= i <= m0 - 1 && 0 <= t0 < p
    requires (r0 * r0) % p == (n * t0) % p
    requires RepeatedSquare(c0, m0 - 1, p) == p - 1
    requires RepeatedSquare(t0, i, p) == 1 && RepeatedSquare(t0, i - 1, p) != 1
    requires b == RepeatedSquare(c0, m0 - i - 1, p)
    ensures var c := (b * b) % p;
            (((r0 * b) % p) * ((r0 * b) % p)) % p == (n * ((t0 * c) % p)) % p &&
            RepeatedSquare(c, i - 1, p) == p - 1 &&
            RepeatedSquare((t0 * c) % p, i - 1, p) == 1
  {
    SquareRootOfOne(p, RepeatedSquare(t0, i - 1, p));
    var c := (b * b) % p;
    assert c == RepeatedSquare(c0, m0 - i, p);
    RepeatedSquareCompose(c0, m0 - i, i - 1, p);
    RepeatedSquareMul(t0, c, i - 1, p);
    MinusOneSquared(p);
    RootStep(r0, b, n, t0, p);
  }

  /** When t has reached 1, r is a root of n; if it lies above p / 2 its
      negation is the root in the lower half. */
  lemma LowerRoot(r: int, n: int, t: int, p: int)
    requires p > 2 && p % 2 == 1 && 0 <= r < p && 0 <= n < p && t == 1
    requires (r * r) % p == (n * t) % p
    ensures r <= p / 2 ==> (r * r) % p == n
    ensures r > p / 2 ==> 0 <= (-r) % p <= p / 2 && (((-r) % p) * ((-r) % p)) % p == n
  {
    SmallMod(n, p);
    if r > p / 2 {
      DivModUnique(-r, p, -1, p - r);
      NegRootSquare(r, p);
    }
  }

  /** Equal squares modulo p: p divides (x - y) * (x + y). */
  lemma SquaresCongruent(x: int, y: int, p: int)
    requires p > 0 && (x * x) % p == (y * y) % p
    ensures ((x - y) * (x + y)) % p == 0
  {
    var qx, qy := (x * x) / p, (y * y) / p;
    assert x * x == p * qx + (x * x) % p;
    assert y * y == p * qy + (y * y) % p;
    assert (x - y) * (x + y) == x * x - y * y;
    assert (x - y) * (x + y) == p * (qx - qy);
    MultipleMod(p, qx - qy);
  }

  /** Absolute value. */
  function Abs(x: int): nat
  {
    if x < 0 then -x else x
  }

  class ZqField {
    const p: int
    const half: int
    const bitLength: nat
    const mask: nat
    /** The smallest quadratic non-residue, at least 2. */
    const nqr: int
    /** p - 1 == t * 2^s with t odd. */
    const s: nat
    const t: int
    const nqrToT: int

    /** The parameters the constructor derives from p. */
    ghost predicate Valid()
    {
      IsPrime(p) && p > 2 &&
      half == p / 2 &&
      bitLength == BitLength(p) &&
      mask == Pow2(bitLength) - 1 &&
      2 <= nqr < p && IsNonResidue(nqr, p) &&
      (forall z :: 2 <= z < nqr ==> !IsNonResidue(z, p)) &&
      s >= 1 && t >= 1 && t % 2 == 1 && Halvings(p - 1, s, t) &&
      nqrToT == ModPow(nqr, t, p)
    }

    /** Derives the field parameters from the prime p.  The search for the
        non-residue stops because one exists below p. */
    constructor (p: int)
      requires IsPrime(p) && p > 2
      requires exists z :: 2 <= z < p && IsNonResidue(z, p)
      ensures this.p == p && Valid()
    {
      this.p := p;
      half := p / 2;
      var bits := BitLength(p);
      bitLength := bits;
      mask := Pow2(bits) - 1;

      var e := (p - 1) / 2;
      ghost var w :| 2 <= w < p && IsNonResidue(w, p);
      var q := 2;
      var r := ModPow(q, e, p);
      while r != p - 1
        invariant 2 <= q <= w
        invariant r == ModPow(q, e, p)
        invariant forall z :: 2 <= z < q ==> !IsNonResidue(z, p)
        decreases w - q
      {
        NextCandidate(q, p);
        q := q + 1;
        r := ModPow(q, e, p);
      }
      nqr := q;

      var twos, odd := 0, p - 1;
      while odd % 2 == 0
        invariant odd >= 1 && p - 1 == odd * Pow2(twos)
        decreases odd
      {
        HalveEven(odd, twos);
        twos := twos + 1;
        odd := odd / 2;
      }
      assert p % 2 != 0;
      TwoAdicOfEven(p - 1, odd, twos);
      HalvingsProduct(p - 1, twos, odd);
      s := twos;
      t := odd;
      nqrToT := ModPow(q, odd, p);
    }

    // -------------------------------------------------------------------
    // Literals

    /** `e(a)`: an integer literal brought into the field.  A negative
        multiple of p comes out as p itself rather than 0. */
    function E(a: int): (r: int)
      requires Valid()
      ensures (r - a) % p == 0
      ensures if a < 0 && a % p == 0 then r == p else 0 <= r < p
    {
      if a < 0 then
        var nres := if -a >= p then (-a) % p else -a;
        NegLiteral(a, nres, p);
        p - nres
      else
        PosLiteral(a, p);
        if a >= p then a % p else a
    }

    /** `normalize(a)`: the same reduction as `e`, written out again in the
        source. */
    function Normalize(a: int): (r: int)
      requires Valid()
      ensures r == E(a)
    {
      if a < 0 then
        var na := if -a >= p then (-a) % p else -a;
        p - na
      else
        if a >= p then a % p else a
    }

    /** The intended literal: the canonical representative of a. */
    function ECanonical(a: int): (r: int)
      requires Valid()
      ensures 0 <= r < p && (r - a) % p == 0
    {
      if a < 0 then
        var nres := if -a >= p then (-a) % p else -a;
        NegLiteral(a, nres, p);
        if nres == 0 then 0 else p - nres
      else
        PosLiteral(a, p);
        if a >= p then a % p else a
    }

    /** `e(-k*p)` is p, which lies outside [0, p) and differs from the
        canonical 0. */
    lemma ENegativeMultiple(k: int)
      requires Valid() && k >= 1
      ensures E(-k * p) == p && ECanonical(-k * p) == 0
    {
      assert -k * p == p * (-k);
      MultipleMod(p, -k);
    }

    /** Apart from negative multiples of p, `e` already is canonical. */
    lemma ECanonicalAgrees(a: int)
      requires Valid() && !(a < 0 && a % p == 0)
      ensures E(a) == ECanonical(a)
    {
      if a < 0 {
        NegLiteral(a, if -a >= p then (-a) % p else -a, p);
      }
    }

    // -------------------------------------------------------------------
    // Canonical arithmetic

    function Add(a: int, b: int): (r: int)
      requires Valid() && 0 <= a < p && 0 <= b < p
      ensures r == (a + b) % p
    {
      var res := a + b;
      ReduceOnce(res, p);
      if res >= p then res - p else res
    }

    function Sub(a: int, b: int): (r: int)
      requires Valid() && 0 <= a < p && 0 <= b < p
      ensures r == (a - b) % p
    {
      if a >= b then
        SmallMod(a - b, p);
        a - b
      else
        DivModUnique(a - b, p, -1, p - b + a);
        p - b + a
    }

    function Neg(a: int): (r: int)
      requires Valid() && 0 <= a < p
      ensures r == (-a) % p
    {
      if a != 0 then
        DivModUnique(-a, p, -1, p - a);
        p - a
      else
        SmallMod(0, p);
        a
    }

    function Mul(a: int, b: int): (r: int)
      requires Valid() && 0 <= a < p && 0 <= b < p
      ensures 0 <= r < p && (r - a * b) % p == 0
    {
      ReducedCongruent(a * b, p);
      (a * b) % p
    }

    /** Multiplication is commutative and associative, has 1 as identity
        and distributes over addition. */
    lemma MulLaws(a: int, b: int, c: int)
      requires Valid() && 0 <= a < p && 0 <= b < p && 0 <= c < p
      ensures Mul(a, b) == Mul(b, a) && Mul(a, 1) == a
      ensures Mul(Mul(a, b), c) == Mul(a, Mul(b, c))
      ensures Mul(a, Add(b, c)) == Add(Mul(a, b), Mul(a, c))
    {
      SmallMod(a, p);
      MulModAssoc(a, b, c, p);
      MulModDistrib(a, b, c, p);
    }

    /** `square(a)` repeats the expression of `mul(a, a)`. */
    function Square(a: int): (r: int)
      requires Valid() && 0 <= a < p
      ensures r == Mul(a, a)
    {
      (a * a) % p
    }

    /** `pow(b, e)` delegates to an exponentiation routine that is not part
        of this model; it is taken to compute b^e reduced modulo p. */
    function Pow(b: int, e: nat): (r: int)
      requires Valid()
      ensures 0 <= r < p
    {
      ModPow(b, e, p)
    }

    /** pow follows the exponent laws: b^0 = 1, b^(e1 + e2) = b^e1 * b^e2
        and (b^e1)^e2 = b^(e1 * e2). */
    lemma PowLaws(b: int, e1: nat, e2: nat)
      requires Valid()
      ensures Pow(b, 0) == 1
      ensures Pow(b, e1 + e2) == Mul(Pow(b, e1), Pow(b, e2))
      ensures Pow(Pow(b, e1), e2) == Pow(b, e1 * e2)
    {
      SmallMod(1, p);
      ExpAdd(b, e1, e2);
      MulMod(Exp(b, e1), Exp(b, e2), p);
      ExpModBase(Exp(b, e1), e2, p);
      ExpMul(b, e1, e2);
    }

    /** On canonical values, equality of representatives is equality in the field. */
    function Eq(a: int, b: int): (r: bool)
      requires Valid() && 0 <= a < p && 0 <= b < p
      ensures r <==> (a - b) % p == 0
    {
      CanonicalCongruent(a, b);
      a == b
    }

    function Neq(a: int, b: int): (r: bool)
      requires Valid() && 0 <= a < p && 0 <= b < p
      ensures r <==> (a - b) % p != 0
    {
      CanonicalCongruent(a, b);
      a != b
    }

    function IsZero(a: int): (r: bool)
      requires Valid() && 0 <= a < p
      ensures r <==> a % p == 0
    {
      SmallMod(a, p);
      a == 0
    }

    lemma CanonicalCongruent(a: int, b: int)
      requires Valid() && 0 <= a < p && 0 <= b < p
      ensures (a - b) % p == 0 <==> a == b
    {
      if a >= b {
        SmallMod(a - b, p);
      } else {
        DivModUnique(a - b, p, -1, p + a - b);
      }
    }

    lemma AddNeg(a: int)
      requires Valid() && 0 <= a < p
      ensures Neg(0) == 0 && Add(a, Neg(a)) == 0
    {
      if a != 0 {
        DivModUnique(p, p, 1, 0);
      } else {
        SmallMod(0, p);
      }
    }

    lemma SubAdd(a: int, b: int)
      requires Valid() && 0 <= a < p && 0 <= b < p
      ensures Sub(Add(a, b), b) == a
    {
      var c := Add(a, b);
      SmallMod(a, p);
      if a + b >= p {
        DivModUnique(a + b, p, 1, a + b - p);
      } else {
        SmallMod(a + b, p);
      }
    }


    // -------------------------------------------------------------------
    // Inverse and division

    /** `inv(a)`: extended Euclid on (p, a mod p).  The loop keeps
        t * a == r and newt * a == newr modulo p, and bounds |t| by p/2. */
    method Inv(a: int) returns (res: Result<int>)
      requires Valid() && a >= 0
      ensures res.Failure? <==> a == 0
      ensures res.Failure? ==> res.error == DivisionByZero
      ensures res.Success? ==> 0 <= res.value < p
      ensures res.Success? && a % p != 0 ==> (a * res.value) % p == 1
      ensures res.Success? && a % p == 0 ==> res.value == 0
    {
      if a == 0 {
        return Failure(DivisionByZero);
      }
      var a0 := a % p;
      var t, r, newt, newr := 0, p, 1, a0;
      ghost var k, newk := -1, 0;
      while newr != 0
        invariant 0 <= newr < r <= p
        invariant Gcd(r, newr) == Gcd(p, a0)
        invariant t * a0 - r == k * p && newt * a0 - newr == newk * p
        invariant Abs(t) * newr + Abs(newt) * r == p && t * newt <= 0
        invariant 2 * Abs(t) <= p
        invariant a0 == 0 ==> t == 0 && newr == 0
        decreases newr
      {
        var q := r / newr;
        EuclidStep(t, newt, r, newr, q, k, newk, a0, p);
        t, newt := newt, t - q * newt;
        r, newr := newr, r - q * newr;
        k, newk := newk, k - q * newk;
      }
      if a0 != 0 {
        GcdWithPrime(p, a0);
        InverseFromBezout(a, a0, t, k, p);
      }
      if t < 0 {
        t := t + p;
      }
      return Success(t);
    }

    /** `div(a, b)` multiplies by the inverse; the inverse's error propagates. */
    method Div(a: int, b: int) returns (res: Result<int>)
      requires Valid() && 0 <= a < p && 0 <= b < p
      ensures res.Failure? <==> b == 0
      ensures res.Failure? ==> res.error == DivisionByZero
      ensures res.Success? ==> 0 <= res.value < p && (res.value * b) % p == a
    {
      var inv := Inv(b);
      if inv.Failure? {
        return Failure(inv.error);
      }
      SmallMod(b, p);
      res := Success(Mul(a, inv.value));
      QuotientTimesDivisor(a, b, inv.value, p);
    }



    // -------------------------------------------------------------------
    // Bitwise operators under the mask

    /** Masking to bitLength bits followed by one conditional subtraction is
        a full reduction: the masked value is below 2^bitLength <= 2p. */
    lemma MaskedReduce(x: nat)
      requires Valid()
      ensures BitAnd(x, mask) == x % Pow2(bitLength)
      ensures (if BitAnd(x, mask) >= p then BitAnd(x, mask) - p else BitAnd(x, mask))
           == (x % Pow2(bitLength)) % p
    {
      BitAndMask(x, bitLength);
      assert Pow2(bitLength) == 2 * Pow2(bitLength - 1);
      ReduceOnce(x % Pow2(bitLength), p);
    }

    function Band(a: nat, b: nat): (r: nat)
      requires Valid()
      ensures r == (BitAnd(a, b) % Pow2(bitLength)) % p
    {
      var res := BitAnd(BitAnd(a, b), mask);
      MaskedReduce(BitAnd(a, b));
      if res >= p then res - p else res
    }

    function Bor(a: nat, b: nat): (r: nat)
      requires Valid()
      ensures r == (BitOr(a, b) % Pow2(bitLength)) % p
    {
      var res := BitAnd(BitOr(a, b), mask);
      MaskedReduce(BitOr(a, b));
      if res >= p then res - p else res
    }

    function Bxor(a: nat, b: nat): (r: nat)
      requires Valid()
      ensures r == (BitXor(a, b) % Pow2(bitLength)) % p
    {
      var res := BitAnd(BitXor(a, b), mask);
      MaskedReduce(BitXor(a, b));
      if res >= p then res - p else res
    }

    /** `bnot(a)` flips the low bitLength bits; it is canonical when a has at
        most bitLength bits. */
    function Bnot(a: nat): (r: int)
      requires Valid()
      ensures (r - BitXor(a, mask)) % p == 0
      ensures a < Pow2(bitLength) ==> r == (mask - a) % p
    {
      var res := BitXor(a, mask);
      MultipleMod(p, -1);
      SmallMod(0, p);
      ComplementReduces(a);
      if res >= p then res - p else res
    }

    lemma ComplementReduces(a: nat)
      requires Valid()
      ensures a < Pow2(bitLength) ==> BitXor(a, mask) == mask - a < 2 * p
      ensures a < Pow2(bitLength) ==>
        (if BitXor(a, mask) >= p then BitXor(a, mask) - p else BitXor(a, mask)) == (mask - a) % p
    {
      if a < Pow2(bitLength) {
        BitXorMask(a, bitLength);
        assert Pow2(bitLength) == 2 * Pow2(bitLength - 1);
        ReduceOnce(mask - a, p);
      }
    }

    /** `shl(a, b)`: for b below bitLength a masked and reduced left shift;
        otherwise b stands for the negative amount b - p, and p - b below
        bitLength gives an unmasked right shift by p - b. */
    function Shl(a: nat, b: int): (r: nat)
      requires Valid()
      ensures b < bitLength ==> r == (ShiftLeft(a, b) % Pow2(bitLength)) % p
      ensures bitLength <= b <= p && p - b < bitLength
              ==> r * Pow2(p - b) <= a < (r + 1) * Pow2(p - b)
      ensures bitLength <= b && bitLength <= p - b ==> r == 0
      ensures a < p && b <= p ==> r < p
    {
      if b < bitLength then
        var res := BitAnd(ShiftLeft(a, b), mask);
        MaskedReduce(ShiftLeft(a, b));
        if res >= p then res - p else res
      else
        var nb := p - b;
        if nb < bitLength then
          DivBelow(a, Pow2(if nb >= 0 then nb else 0));
          ShiftRightFloor(a, nb);
          ShiftRight(a, nb)
        else
          0
    }

    /** `shr(a, b)`: the mirror image of `shl`; the direct right shift is
        neither masked nor reduced. */
    function Shr(a: nat, b: int): (r: nat)
      requires Valid()
      ensures 0 <= b < bitLength ==> r <= a && r * Pow2(b) <= a < (r + 1) * Pow2(b)
      ensures bitLength <= b && p - b < bitLength
              ==> r == (ShiftLeft(a, p - b) % Pow2(bitLength)) % p
      ensures bitLength <= b && bitLength <= p - b ==> r == 0
      ensures a < p && 0 <= b ==> r < p
    {
      if b < bitLength then
        DivBelow(a, Pow2(if b >= 0 then b else 0));
        ShiftRightFloor(a, b);
        ShiftRight(a, b)
      else
        var nb := p - b;
        if nb < bitLength then
          var res := BitAnd(ShiftLeft(a, nb), mask);
          MaskedReduce(ShiftLeft(a, nb));
          if res >= p then res - p else res
        else
          0
    }

    /** A shift amount p - k encodes the shift by -k: shifting left by p - k
        is shifting right by k, and the other way round. */
    lemma ShiftWrapsThroughP(a: nat, k: int)
      requires Valid() && 0 <= k < bitLength
      ensures Shl(a, p - k) == Shr(a, k)
      ensures Shr(a, p - k) == Shl(a, k)
    {
      assert Pow2(1) == 2;
      Pow2Doubles(bitLength - 1);
      HalfOfOdd();
    }

    // -------------------------------------------------------------------
    // Boolean operators: non-zero is true, the result is 1 or 0

    function Land(a: int, b: int): (r: int)
      ensures r == 0 || r == 1
      ensures r == 1 <==> a != 0 && b != 0
    {
      if a != 0 && b != 0 then 1 else 0
    }

    function Lor(a: int, b: int): (r: int)
      ensures r == 0 || r == 1
      ensures r == 1 <==> a != 0 || b != 0
    {
      if a != 0 || b != 0 then 1 else 0
    }

    function Lnot(a: int): (r: int)
      ensures r == 0 || r == 1
      ensures r == 1 <==> a == 0
    {
      if a != 0 then 0 else 1
    }


    // -------------------------------------------------------------------
    // Square root

    /** `sqrt(n)` by Tonelli-Shanks.  The outer loop keeps r^2 == n * t,
        c squared m - 1 times equal to -1 and t squared m - 1 times equal to
        1; each round lowers m to the order exponent i of t. */
    method Sqrt(n: int) returns (res: Option<int>)
      requires Valid() && 0 <= n < p
      ensures n == 0 ==> res == Some(0)
      ensures n != 0 ==> (res.None? <==> Pow(n, (p - 1) / 2) != 1)
      ensures res.Some? ==> 0 <= res.value <= half && (res.value * res.value) % p == n
      ensures res.None? <==> forall x :: !IsRootOf(x, n, p)
    {
      if n == 0 {
        SmallMod(0, p);
        assert IsRootOf(0, n, p);
        return Some(0);
      }
      var euler := Pow(n, (p - 1) / 2);
      if euler != 1 {
        forall x
          ensures !IsRootOf(x, n, p)
        {
          EulerOfSquare(n, x, p);
        }
        return None;
      }
      HalvingsProduct(p - 1, s, this.t);
      TonelliStart(n, nqr, s, this.t, p);
      var m := s;
      var c := nqrToT;
      var t := Pow(n, this.t);
      var r := Pow(n, Add(this.t, 1) / 2);
      while t != 1
        invariant 1 <= m
        invariant 0 <= c < p && 0 <= t < p && 0 <= r < p
        invariant (r * r) % p == (n * t) % p
        invariant RepeatedSquare(c, m - 1, p) == p - 1
        invariant RepeatedSquare(t, m - 1, p) == 1
        decreases m
      {
        SmallMod(t, p);
        var sq := Square(t);
        var i := 1;
        while sq != 1
          invariant 1 <= i <= m - 1
          invariant sq == RepeatedSquare(t, i, p)
          invariant RepeatedSquare(t, i - 1, p) != 1
          decreases m - i
        {
          i := i + 1;
          sq := Square(sq);
        }

        // b = c ^ (2 ^ (m - i - 1))
        var b := c;
        SmallMod(c, p);
        for j := 0 to m - i - 1
          invariant b == RepeatedSquare(c, j, p)
        {
          b := Square(b);
        }

        TonelliRound(n, c, t, r, m, i, b, p);
        m := i;
        c := Square(b);
        t := Mul(t, c);
        r := Mul(r, b);
      }
      HalfOfOdd();
      LowerRoot(r, n, t, p);
      if r > p / 2 {
        r := Neg(r);
      }
      assert (r * r) % p == n;
      assert IsRootOf(r, n, p);
      return Some(r);
    }


    /** The root in the lower half is unique, so `sqrt` picks a definite root. */
    lemma SqrtUnique(x: int, y: int)
      requires Valid() && 0 <= x <= half && 0 <= y <= half
      requires (x * x) % p == (y * y) % p
      ensures x == y
    {
      HalfOfOdd();
      SquaresCongruent(x, y, p);
      EuclidLemma(p, x - y, x + y);
      if (x - y) % p == 0 {
        if x >= y {
          SmallMod(x - y, p);
        } else {
          DivModUnique(x - y, p, -1, p + x - y);
        }
      } else {
        SmallMod(x + y, p);
      }
    }

    // -------------------------------------------------------------------
    // Signed order: values above half stand for negative numbers

    function Signed(v: int): (sv: int)
      requires Valid() && 0 <= v < p
      ensures -half <= sv <= half && (sv - v) % p == 0
    {
      if v > half then
        DivModUnique(v - p - v, p, -1, 0);
        v - p
      else
        SmallMod(0, p);
        v
    }

    /** Negative values (the upper half) come before non-negative ones; within
        each half the order of the representatives is kept. */
    function Lt(a: int, b: int): (r: bool)
      requires Valid() && 0 <= a < p && 0 <= b < p
      ensures r <==> if a <= half then b <= half && a < b else b <= half || a < b
      ensures r <==> Signed(a) < Signed(b)
    {
      var aa := if a > half then a - p else a;
      var bb := if b > half then b - p else b;
      aa < bb
    }

    function Gt(a: int, b: int): (r: bool)
      requires Valid() && 0 <= a < p && 0 <= b < p
      ensures r <==> Lt(b, a)
      ensures r <==> Signed(a) > Signed(b)
    {
      var aa := if a > half then a - p else a;
      var bb := if b > half then b - p else b;
      aa > bb
    }

    function Leq(a: int, b: int): (r: bool)
      requires Valid() && 0 <= a < p && 0 <= b < p
      ensures r <==> !Gt(a, b)
      ensures r <==> Signed(a) <= Signed(b)
    {
      var aa := if a > half then a - p else a;
      var bb := if b > half then b - p else b;
      aa <= bb
    }

    function Geq(a: int, b: int): (r: bool)
      requires Valid() && 0 <= a < p && 0 <= b < p
      ensures r <==> !Lt(a, b)
      ensures r <==> Signed(a) >= Signed(b)
    {
      var aa := if a > half then a - p else a;
      var bb := if b > half then b - p else b;
      aa >= bb
    }

    /** The signed order is total: exactly one of a < b, a == b, a > b. */
    lemma SignedOrderTotal(a: int, b: int)
      requires Valid() && 0 <= a < p && 0 <= b < p
      ensures Lt(a, b) || a == b || Gt(a, b)
      ensures !(Lt(a, b) && Gt(a, b)) && !(a == b && (Lt(a, b) || Gt(a, b)))
    {
    }

    /** Field negation reflects the signed interpretation. */
    lemma SignedNeg(a: int)
      requires Valid() && 0 <= a < p
      ensures Signed(Neg(a)) == -Signed(a)
    {
      HalfOfOdd();
    }

    /** p is odd, so it is 2 * half + 1. */
    lemma HalfOfOdd()
      requires Valid()
      ensures p == 2 * half + 1
    {
      assert p % 2 != 0;
    }

    /** Negation reverses the signed order. */
    lemma NegReversesOrder(a: int, b: int)
      requires Valid() && 0 <= a < p && 0 <= b < p
      ensures Lt(a, b) <==> Lt(Neg(b), Neg(a))
    {
      SignedNeg(a);
      SignedNeg(b);
    }
  }
}
