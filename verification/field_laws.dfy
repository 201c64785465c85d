/** The field axioms for the overflow-free operations of Reduction, and the
    inverse property for every base that satisfies Fermat's little theorem
    (proved outright for the base 2). */
module FieldLaws {
  import opened Machine
  import opened PrimeField
  import opened Errors
  import opened Reduction

  lemma AddModCommutative(a: u64, b: u64)
    ensures AddMod(a, b) == AddMod(b, a)
  {
    ResidueUnique(AddMod(a, b) as int, AddMod(b, a) as int, a as int + b as int);
  }

  lemma AddModAssociative(a: u64, b: u64, c: u64)
    ensures AddMod(AddMod(a, b), c) == AddMod(a, AddMod(b, c))
  {
    SumsAssociate(a as int, b as int, c as int, AddMod(a, b) as int, AddMod(b, c) as int,
                  AddMod(AddMod(a, b), c) as int, AddMod(a, AddMod(b, c)) as int);
  }

  lemma SumsAssociate(x: int, y: int, z: int, xy: int, yz: int, left: int, right: int)
    requires IsResidue(xy, x + y) && IsResidue(yz, y + z)
    requires IsResidue(left, xy + z) && IsResidue(right, x + yz)
    ensures left == right
  {
    ResidueOfSum(left, x + y, z, xy, z);
    ResidueOfSum(right, x, y + z, x, yz);
    ResidueUnique(left, right, x + y + z);
  }

  lemma MulModCommutative(a: u64, b: u64)
    ensures MulMod(a, b) == MulMod(b, a)
  {
    ResidueUnique(MulMod(a, b) as int, MulMod(b, a) as int, a as int * b as int);
  }

  lemma MulModAssociative(a: u64, b: u64, c: u64)
    ensures MulMod(MulMod(a, b), c) == MulMod(a, MulMod(b, c))
  {
    var x, y, z := a as int, b as int, c as int;
    var ab, bc := MulMod(a, b) as int, MulMod(b, c) as int;
    var left, right := MulMod(MulMod(a, b), c) as int, MulMod(a, MulMod(b, c)) as int;
    ResidueOfProduct(left, x * y, z, ab, z);
    ResidueOfProduct(right, x, y * z, x, bc);
    MulAssociative(x, y, z);
    ResidueUnique(left, right, x * (y * z));
  }

  lemma MulModDistributes(a: u64, b: u64, c: u64)
    ensures MulMod(a, AddMod(b, c)) == AddMod(MulMod(a, b), MulMod(a, c))
  {
    ResiduesDistribute(a as int, b as int, c as int, AddMod(b, c) as int,
                       MulMod(a, b) as int, MulMod(a, c) as int,
                       MulMod(a, AddMod(b, c)) as int, AddMod(MulMod(a, b), MulMod(a, c)) as int);
  }

  lemma ResiduesDistribute(x: int, y: int, z: int, yz: int, xy: int, xz: int, left: int, right: int)
    requires IsResidue(yz, y + z) && IsResidue(xy, x * y) && IsResidue(xz, x * z)
    requires IsResidue(left, x * yz) && IsResidue(right, xy + xz)
    ensures left == right
  {
    ResidueOfProduct(left, x, y + z, x, yz);
    ResidueOfSum(right, x * y, x * z, xy, xz);
    MulDistributes(x, y, z);
    ResidueUnique(left, right, x * y + x * z);
  }

  /** 0 and 1 are identities, up to canonicalisation of the other operand. */
  lemma Identities(a: u64)
    ensures AddMod(a, 0) == Canonical(a)
    ensures MulMod(a, 1) == Canonical(a)
  {
    ResidueUnique(AddMod(a, 0) as int, Canonical(a) as int, a as int);
    ResidueUnique(MulMod(a, 1) as int, Canonical(a) as int, a as int);
  }

  lemma AddModNegIsZero(a: u64)
    ensures AddMod(a, NegMod(a)) == 0
  {
    var n := NegMod(a);
    CongruentAdd(a as int, a as int, n as int, -(a as int));
    assert IsResidue(0, a as int + n as int);
    ResidueUnique(AddMod(a, n) as int, 0, a as int + n as int);
  }

  lemma SubModIsAddNeg(a: u64, b: u64)
    ensures SubMod(a, b) == AddMod(a, NegMod(b))
  {
    var n := NegMod(b);
    CongruentAdd(a as int, a as int, n as int, -(b as int));
    ResidueOfCongruent(AddMod(a, n) as int, a as int + n as int, a as int - b as int);
    ResidueUnique(SubMod(a, b) as int, AddMod(a, n) as int, a as int - b as int);
  }

  /** Fermat's little theorem for the base `a`: a^(p-1) = 1. */
  predicate FermatHolds(a: u64) {
    Congruent(Exp(a as int, P - 1), 1)
  }

  /** A base that satisfies Fermat's little theorem is not zero, and a^(p-2)
      is its multiplicative inverse. */
  lemma InverseIsInverse(a: u64)
    requires FermatHolds(a)
    ensures InvMod(a).Ok?
    ensures MulMod(a, InvMod(a).value) == 1
  {
    var x := a as int;
    var e := Exp(x, INV_EXPONENT);
    assert Exp(x, INV_EXPONENT + 1) == x * e;
    if Congruent(x, 0) {
      ExpOfMultiple(x, P - 1);
      CongruentSymmetric(Exp(x, P - 1), 0);
      CongruentTransitive(0, Exp(x, P - 1), 1);
      assert false;
    }
    var v := InvMod(a).value as int;
    var m := MulMod(a, InvMod(a).value) as int;
    // m is the residue of x v, and v = x^(p-2), so m is the residue of x^(p-1) = 1
    CongruentSymmetric(e, v);
    ResidueOfProduct(m, x, e, x, v);
    ResidueOfCongruent(m, x * e, 1);
    ResidueUnique(m, 1, 1);
  }

  /** Division followed by multiplication recovers the dividend, for every
      divisor that satisfies Fermat's little theorem. */
  lemma DivThenMul(a: u64, b: u64)
    requires FermatHolds(b)
    ensures DivMod(a, b).Ok?
    ensures MulMod(DivMod(a, b).value, b) == Canonical(a)
  {
    InverseIsInverse(b);
    var x, y := a as int, b as int;
    var v := InvMod(b).value as int;
    var q := DivMod(a, b).value as int;
    var m := MulMod(DivMod(a, b).value, b) as int;
    var e := Exp(y, INV_EXPONENT);
    // q = x e = x v, so q y = x (v y) = x
    CongruentSymmetric(e, v);
    ResidueOfProduct(q, x, v, x, e);
    ResidueOfProduct(m, x * v, y, q, y);
    MulCommutative(v, y);
    MulAssociative(x, v, y);
    CongruentMul(x, x, y * v, 1);
    ResidueOfCongruent(m, x * (y * v), x);
    ResidueUnique(m, Canonical(a) as int, x);
  }

  lemma {:induction false} ExpOfTwo(n: nat)
    ensures Exp(2, n) == Pow2(n)
  {
    if n > 0 {
      ExpOfTwo(n - 1);
    }
  }

  /** 2^96 = -1 (mod p), so 2^192 = 1: 2^192 - 1 = (2^96 - 1)(2^32 + 1) p. */
  lemma TwoHasOrder192()
    ensures Congruent(Exp(2, 192), 1)
  {
    Pow2At64();
    Pow2Add(64, 32);
    assert Pow2(96) == 0x1_0000_0000_0000_0000_0000_0000;
    Pow2Add(96, 96);
    var x := Pow2(192);
    assert x == 0x1_0000_0000_0000_0000_0000_0000_0000_0000_0000_0000_0000_0000;
    ExpOfTwo(192);
    MultipleIsCongruent(x, 1, 0x1_0000_0000_ffff_ffff_ffff_fffe_ffff_ffff);
  }

  /** 192 divides p - 1, so 2^(p-1) = 1. */
  lemma FermatForTwo()
    ensures FermatHolds(2)
  {
    var k: nat := 96076792028200960;
    assert P - 1 == 192 * k;
    TwoHasOrder192();
    ExpMul(2, 192, k);
    ExpCongruent(Exp(2, 192), 1, k);
    ExpOfOne(k);
  }

  /** The inverse of 2 is (p + 1) / 2. */
  lemma InverseOfTwo()
    ensures InvMod(2) == Ok(0x7fff_ffff_8000_0001)
  {
    FermatForTwo();
    InverseIsInverse(2);
    var v := InvMod(2).value as int;
    var h := 0x7fff_ffff_8000_0001;
    // 2 v = 1 (mod p), so v is the residue of h
    assert IsResidue(1, 2 * v);
    HalfCancels(v, h);
    ResidueUnique(v, h, h);
  }

  /** 2 v = 1 (mod p) forces v = (p + 1) / 2. */
  lemma HalfCancels(v: int, h: int)
    requires 0 <= v < P && h == 0x7fff_ffff_8000_0001
    requires Congruent(2 * v, 1)
    ensures IsResidue(v, h)
  {
    CongruentMul(h, h, 2 * v, 1);
    MultipleIsCongruent(h * (2 * v), v, v);
    CongruentSymmetric(h * (2 * v), v);
    CongruentTransitive(v, h * (2 * v), h);
    CongruentSymmetric(v, h);
  }

  /** Scenarios for exponentiation and division: 2^3 = 8, 2^(p-1) = 1,
      4 / 2 = 2. */
  lemma PowAndDivExamples()
    ensures Pow(2, 3) == 8
    ensures Pow(2, P - 1) == 1
    ensures DivMod(4, 2) == Ok(2)
  {
    ResidueUnique(Pow(2, 3) as int, 8, Exp(2, 3));
    FermatForTwo();
    ResidueUnique(Pow(2, P - 1) as int, 1, Exp(2, P - 1));
    InverseOfTwo();
    var q := DivMod(4, 2).value as int;
    var h := 0x7fff_ffff_8000_0001;
    var e := Exp(2, INV_EXPONENT);
    // q = 4 e = 4 h = 2 p + 2
    CongruentSymmetric(e, h);
    ResidueOfProduct(q, 4, h, 4, e);
    MultipleIsCongruent(4 * h, 2, 2);
    ResidueOfCongruent(q, 4 * h, 2);
    ResidueUnique(q, 2, 2);
  }
}
