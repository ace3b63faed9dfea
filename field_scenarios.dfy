/** The field of the integers modulo 13, worked through the operations of
    F1Field: a client of the class that pins down concrete results. */
module FieldScenarios {
  import opened Wrappers
  import opened ModArith
  import opened Bits
  import opened F1Field

  lemma ThirteenIsPrime()
    ensures IsPrime(13)
  {
    forall d | 2 <= d < 13
      ensures 13 % d != 0
    {
      if d < 7 {
        DivModUnique(13, d, 13 / d, 13 % d);
      } else {
        DivModUnique(13, d, 1, 13 - d);
      }
    }
  }

  /** 2 is a quadratic non-residue modulo 13: 2^6 = 64 = 5 * 13 + 12. */
  lemma TwoIsNonResidue()
    ensures IsNonResidue(2, 13)
  {
    assert Exp(2, 6) == 64;
  }

  /** The only root of 4 in [0, 6] is 2. */
  lemma RootOfFour(f: ZqField, x: int)
    requires f.Valid() && f.p == 13 && 0 <= x <= f.half && (x * x) % 13 == 4
    ensures x == 2
  {
    f.SqrtUnique(x, 2);
  }

  /** Builds the field for p = 13 and evaluates add(7, 10), inv(6),
      sqrt(4), sqrt(2), band(9, 5), bnot(0) and shl(1, 2). */
  method ModThirteen() returns (sum: int, inverse: Result<int>, root: Option<int>,
                                noRoot: Option<int>, and: nat, not: int, shifted: nat)
    ensures sum == 4 && inverse == Success(11)
    ensures root == Some(2) && noRoot == None
    ensures and == 1 && not == 2 && shifted == 4
  {
    ThirteenIsPrime();
    TwoIsNonResidue();
    var f := new ZqField(13);
    assert f.bitLength == 4 by {
      BitLengthUnique(13, 4);
    }
    sum := f.Add(7, 10);
    inverse := f.Inv(6);
    InverseModPrime(6, inverse.value, 11, 13);
    assert Exp(4, 6) == 4096;
    root := f.Sqrt(4);
    RootOfFour(f, root.value);
    assert Exp(2, 6) == 64;
    noRoot := f.Sqrt(2);
    and := f.Band(9, 5);
    not := f.Bnot(0);
    shifted := f.Shl(1, 2);
  }
}
