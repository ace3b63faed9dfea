/** Fermat's little theorem, a^(p-1) = 1 modulo a prime p for a not
    divisible by p, by the classical counting argument: multiplying
    1, 2, ..., p-1 by a and reducing modulo p only reorders them, so the two
    products agree, and the factor a^(p-1) that separates them is 1. */
module Fermat {
  import opened ModArith

  /** The product of the entries of s. */
  function Product(s: seq<int>): int
  {
    if |s| == 0 then 1 else Product(s[..|s| - 1]) * s[|s| - 1]
  }

  /** [1, 2, ..., k] */
  function Range(k: nat): seq<int>
  {
    seq(k, i => i + 1)
  }

  /** [a * 1 mod p, a * 2 mod p, ..., a * k mod p] */
  function Scaled(a: int, k: nat, p: int): seq<int>
    requires p > 0
  {
    seq(k, i => (a * (i + 1)) % p)
  }

  predicate Distinct(s: seq<int>)
  {
    forall i, j :: 0 <= i < j < |s| ==> s[i] != s[j]
  }

  // ---------------------------------------------------------------------
  // Products do not depend on the order of the factors

  /** Taking out the factor at index j. */
  lemma {:induction false} ProductRemove(t: seq<int>, j: nat)
    requires j < |t|
    ensures Product(t) == t[j] * Product(t[..j] + t[j + 1..])
    decreases |t|
  {
    var n := |t| - 1;
    if j == n {
      assert t[..j] + t[j + 1..] == t[..n];
    } else {
      var init := t[..n];
      ProductRemove(init, j);
      var rest := init[..j] + init[j + 1..];
      assert t[..j] + t[j + 1..] == rest + [t[n]];
      assert (rest + [t[n]])[..|rest|] == rest;
      MulAssoc(t[j], Product(rest), t[n]);
    }
  }

  /** Rearranging the factors keeps the product. */
  lemma {:induction false} ProductPermutation(s: seq<int>, t: seq<int>)
    requires multiset(s) == multiset(t)
    ensures Product(s) == Product(t)
    decreases |s|
  {
    if |s| == 0 {
      assert |t| == |multiset(t)| == 0;
    } else {
      var n := |s| - 1;
      var x := s[n];
      assert x in multiset(t) by {
        assert s == s[..n] + [x];
      }
      var j :| 0 <= j < |t| && t[j] == x;
      var rest := t[..j] + t[j + 1..];
      assert t == t[..j] + [x] + t[j + 1..];
      assert s == s[..n] + [x];
      assert multiset(s) == multiset(s[..n]) + multiset{x};
      assert multiset(t) == multiset(t[..j]) + multiset{x} + multiset(t[j + 1..]);
      assert multiset(rest) == multiset(t[..j]) + multiset(t[j + 1..]);
      assert multiset(s[..n]) == multiset(s) - multiset{x};
      assert multiset(rest) == multiset(t) - multiset{x};
      ProductPermutation(s[..n], rest);
      ProductRemove(t, j);
    }
  }

  /** A sequence without repetitions holds each of its elements once. */
  lemma {:induction false} DistinctMultiplicity(s: seq<int>, x: int)
    requires Distinct(s)
    ensures multiset(s)[x] == if x in s then 1 else 0
    decreases |s|
  {
    if |s| > 0 {
      var n := |s| - 1;
      assert s == s[..n] + [s[n]];
      assert Distinct(s[..n]);
      DistinctMultiplicity(s[..n], x);
      assert s[n] !in s[..n];
    }
  }

  lemma DistinctSameElements(s: seq<int>, t: seq<int>)
    requires Distinct(s) && Distinct(t)
    requires forall x :: x in s <==> x in t
    ensures multiset(s) == multiset(t)
  {
    forall x
      ensures multiset(s)[x] == multiset(t)[x]
    {
      DistinctMultiplicity(s, x);
      DistinctMultiplicity(t, x);
    }
  }

  // ---------------------------------------------------------------------
  // Multiplying by a permutes the non-zero residues

  lemma RangeIsDistinct(k: nat)
    ensures Distinct(Range(k))
    ensures forall x :: x in Range(k) <==> 1 <= x <= k
  {
    var r := Range(k);
    forall x | 1 <= x <= k
      ensures x in r
    {
      assert r[x - 1] == x;
    }
  }

  /** a * i is not a multiple of p for 1 <= i < p. */
  lemma ScaledNonZero(a: int, i: int, p: int)
    requires IsPrime(p) && a % p != 0 && 1 <= i < p
    ensures 1 <= (a * i) % p < p
  {
    if (a * i) % p == 0 {
      EuclidLemma(p, a, i);
      SmallMod(i, p);
      assert false;
    }
  }

  /** Different i give different a * i modulo p. */
  lemma ScaledInjective(a: int, i: int, j: int, p: int)
    requires IsPrime(p) && a % p != 0 && 1 <= i < j < p
    ensures (a * i) % p != (a * j) % p
  {
    if (a * i) % p == (a * j) % p {
      var d := (a * j) / p - (a * i) / p;
      assert a * j - a * i == p * d;
      assert a * (j - i) == a * j - a * i;
      MultipleMod(p, d);
      EuclidLemma(p, a, j - i);
      SmallMod(j - i, p);
      assert false;
    }
  }

  /** Every non-zero residue y is a * i modulo p for some i in [1, p). */
  lemma ScaledHits(a: int, y: int, p: int) returns (i: int)
    requires IsPrime(p) && a % p != 0 && 1 <= y < p
    ensures 1 <= i < p && (a * i) % p == y
  {
    var a0 := a % p;
    GcdWithPrime(p, a0);
    var u, w := Bezout(p, a0);
    assert (a0 * w) % p == 1 by {
      ModAddMultiple(a0 * w, u, p);
      SmallMod(1, p);
    }
    MulModL(a, w, p);
    i := (y * w) % p;
    if i == 0 {
      EuclidLemma(p, y, w);
      SmallMod(y, p);
      MulModR(a, w, p);
      assert false;
    }
    calc {
      (a * i) % p;
      { MulModR(a, y * w, p); }
      (a * (y * w)) % p;
      { MulAssoc(y, a, w); }
      (y * (a * w)) % p;
      { MulModR(y, a * w, p); }
      (y * 1) % p;
      { SmallMod(y, p); }
      y;
    }
  }

  lemma ScaledIsDistinct(a: int, p: int)
    requires IsPrime(p) && a % p != 0
    ensures Distinct(Scaled(a, p - 1, p))
  {
    var s := Scaled(a, p - 1, p);
    forall i, j | 0 <= i < j < |s|
      ensures s[i] != s[j]
    {
      assert s[i] == (a * (i + 1)) % p && s[j] == (a * (j + 1)) % p;
      ScaledInjective(a, i + 1, j + 1, p);
    }
  }

  /** The scaled residues are exactly 1, ..., p - 1. */
  lemma ScaledElements(a: int, p: int, x: int)
    requires IsPrime(p) && a % p != 0
    ensures x in Scaled(a, p - 1, p) <==> 1 <= x < p
  {
    var s := Scaled(a, p - 1, p);
    if x in s {
      var i :| 0 <= i < |s| && s[i] == x;
      ScaledNonZero(a, i + 1, p);
    }
    if 1 <= x < p {
      var i := ScaledHits(a, x, p);
      assert s[i - 1] == x;
    }
  }

  lemma ScaledPermutesRange(a: int, p: int)
    requires IsPrime(p) && a % p != 0
    ensures multiset(Scaled(a, p - 1, p)) == multiset(Range(p - 1))
  {
    var s, r := Scaled(a, p - 1, p), Range(p - 1);
    RangeIsDistinct(p - 1);
    ScaledIsDistinct(a, p);
    forall x
      ensures x in s <==> x in r
    {
      ScaledElements(a, p, x);
    }
    DistinctSameElements(s, r);
  }

  // ---------------------------------------------------------------------
  // The two products

  /** Up to reduction, the scaled product is a^k * k!. */
  lemma {:induction false} ScaledProduct(a: int, k: nat, p: int)
    requires p > 0
    ensures Product(Scaled(a, k, p)) % p == (Exp(a, k) * Product(Range(k))) % p
  {
    if k > 0 {
      ScaledProduct(a, k - 1, p);
      var s, r := Scaled(a, k, p), Range(k);
      assert s[..k - 1] == Scaled(a, k - 1, p);
      assert r[..k - 1] == Range(k - 1);
      var ps, e, f := Product(Scaled(a, k - 1, p)), Exp(a, k - 1), Product(Range(k - 1));
      calc {
        Product(s) % p;
        (ps * ((a * k) % p)) % p;
        { MulModR(ps, a * k, p); }
        (ps * (a * k)) % p;
        { MulModL(ps, a * k, p); }
        ((ps % p) * (a * k)) % p;
        ((e * f) % p * (a * k)) % p;
        { MulModL(e * f, a * k, p); }
        ((e * f) * (a * k)) % p;
        { MulAssoc(e * f, a, k); MulAssoc(e, f, a); MulAssoc(a, e, f);
          MulAssoc(a * e, f, k); }
        ((a * e) * (f * k)) % p;
      }
    }
  }

  /** (p-1)! is not a multiple of p; nor is any k! with k < p. */
  lemma {:induction false} FactorialNonZero(k: nat, p: int)
    requires IsPrime(p) && k < p
    ensures Product(Range(k)) % p != 0
  {
    if k == 0 {
      SmallMod(1, p);
    } else {
      FactorialNonZero(k - 1, p);
      assert Range(k)[..k - 1] == Range(k - 1);
      if Product(Range(k)) % p == 0 {
        EuclidLemma(p, Product(Range(k - 1)), k);
        SmallMod(k, p);
        assert false;
      }
    }
  }

  /** Fermat's little theorem. */
  lemma FermatLittle(a: int, p: int)
    requires IsPrime(p) && a % p != 0
    ensures ModPow(a, p - 1, p) == 1
  {
    var f := Product(Range(p - 1));
    var e := Exp(a, p - 1);
    ScaledPermutesRange(a, p);
    ProductPermutation(Scaled(a, p - 1, p), Range(p - 1));
    ScaledProduct(a, p - 1, p);
    assert ((e - 1) * f) % p == 0 by {
      var d := (e * f) / p - f / p;
      assert e * f - f == p * d;
      assert (e - 1) * f == e * f - f;
      MultipleMod(p, d);
    }
    FactorialNonZero(p - 1, p);
    EuclidLemma(p, e - 1, f);
    assert e == 1 + p * ((e - 1) / p);
    ModAddMultiple(1, (e - 1) / p, p);
    SmallMod(1, p);
  }
}
