/** Arithmetic modulo the Goldilocks prime, stated over unbounded integers.
    This is the mathematical reference every machine-level operation is
    proved against. */
module PrimeField {
  import opened Machine

  /** p = 2^64 - 2^32 + 1. */
  const P: int := 0xffff_ffff_0000_0001

  /** The exponent of inversion by Fermat's little theorem: a^(p-2) is the
      inverse of every a not divisible by p. */
  const INV_EXPONENT: nat := 0xffff_ffff_0000_0001 - 2

  /** The same prime as the source's `u64` constant `MODULUS`. */
  const MODULUS: u64 := 0xffff_ffff_0000_0001

  /** x and y lie in the same residue class modulo p. */
  predicate Congruent(x: int, y: int) {
    (x - y) % P == 0
  }

  /** `r` is the canonical representative of the residue class of `x`:
      the unique integer in [0, p) congruent to `x`. */
  predicate IsResidue(r: int, x: int) {
    0 <= r < P && Congruent(x, r)
  }

  lemma MulAssociative(x: int, y: int, z: int)
    ensures (x * y) * z == x * (y * z)
  {
  }

  lemma MulCommutative(x: int, y: int)
    ensures x * y == y * x
  {
  }

  lemma MulDistributes(x: int, y: int, z: int)
    ensures x * (y + z) == x * y + x * z
  {
  }

  lemma MultipleIsCongruent(x: int, y: int, k: int)
    requires x - y == k * 0xffff_ffff_0000_0001
    ensures Congruent(x, y)
  {
  }

  lemma CongruentIsMultiple(x: int, y: int)
    requires Congruent(x, y)
    ensures x - y == ((x - y) / P) * 0xffff_ffff_0000_0001
  {
  }

  lemma CongruentSymmetric(x: int, y: int)
    requires Congruent(x, y)
    ensures Congruent(y, x)
  {
    CongruentIsMultiple(x, y);
    MultipleIsCongruent(y, x, -((x - y) / P));
  }

  lemma CongruentTransitive(x: int, y: int, z: int)
    requires Congruent(x, y) && Congruent(y, z)
    ensures Congruent(x, z)
  {
    CongruentIsMultiple(x, y);
    CongruentIsMultiple(y, z);
    MultipleIsCongruent(x, z, (x - y) / P + (y - z) / P);
  }

  /** Sums of congruent terms are congruent. */
  lemma CongruentAdd(a: int, b: int, c: int, d: int)
    requires Congruent(a, b) && Congruent(c, d)
    ensures Congruent(a + c, b + d)
  {
    CongruentIsMultiple(a, b);
    CongruentIsMultiple(c, d);
    MultipleIsCongruent(a + c, b + d, (a - b) / P + (c - d) / P);
  }

  /** Products of congruent factors are congruent. */
  lemma CongruentMul(a: int, b: int, c: int, d: int)
    requires Congruent(a, b) && Congruent(c, d)
    ensures Congruent(a * c, b * d)
  {
    var k1 := (a - b) / P;
    var k2 := (c - d) / P;
    CongruentIsMultiple(a, b);
    CongruentIsMultiple(c, d);
    calc {
      a * c - b * d;
      (a - b) * c + b * (c - d);
      (k1 * 0xffff_ffff_0000_0001) * c + b * (k2 * 0xffff_ffff_0000_0001);
      (k1 * c + b * k2) * 0xffff_ffff_0000_0001;
    }
    MultipleIsCongruent(a * c, b * d, k1 * c + b * k2);
  }

  /** The residue is unique, and it is what Dafny's (Euclidean) `%` gives. */
  lemma ResidueIsMod(r: int, x: int)
    requires IsResidue(r, x)
    ensures r == x % P
  {
    CongruentIsMultiple(x, r);
  }

  lemma ModIsResidue(x: int)
    ensures IsResidue(x % P, x)
  {
  }

  lemma ResidueUnique(r1: int, r2: int, x: int)
    requires IsResidue(r1, x) && IsResidue(r2, x)
    ensures r1 == r2
  {
    ResidueIsMod(r1, x);
    ResidueIsMod(r2, x);
  }

  /** Residues of congruent integers coincide. */
  lemma ResidueOfCongruent(r: int, x: int, y: int)
    requires IsResidue(r, x) && Congruent(x, y)
    ensures IsResidue(r, y)
  {
    CongruentSymmetric(x, y);
    CongruentTransitive(y, x, r);
  }

  /** A residue of r * s is a residue of every x * y with x = r and y = s. */
  lemma ResidueOfProduct(t: int, x: int, y: int, r: int, s: int)
    requires Congruent(x, r) && Congruent(y, s)
    requires IsResidue(t, r * s)
    ensures IsResidue(t, x * y)
  {
    CongruentMul(x, r, y, s);
    CongruentTransitive(x * y, r * s, t);
  }

  /** A residue of r + s is a residue of every x + y with x = r and y = s. */
  lemma ResidueOfSum(t: int, x: int, y: int, r: int, s: int)
    requires Congruent(x, r) && Congruent(y, s)
    requires IsResidue(t, r + s)
    ensures IsResidue(t, x + y)
  {
    CongruentAdd(x, r, y, s);
    CongruentTransitive(x + y, r + s, t);
  }

  /** Two residues coincide exactly when their integers are congruent. */
  lemma ResiduesMatch(r: int, s: int, x: int, y: int)
    requires IsResidue(r, x) && IsResidue(s, y)
    ensures r == s <==> Congruent(x, y)
  {
    if r == s {
      CongruentSymmetric(y, s);
      CongruentTransitive(x, r, y);
    }
    if Congruent(x, y) {
      ResidueOfCongruent(s, y, x);
      ResidueUnique(r, s, x);
    }
  }

  /** Mathematical exponentiation a^e. */
  function Exp(a: int, e: nat): int
  {
    if e == 0 then 1 else a * Exp(a, e - 1)
  }

  lemma {:induction false} ExpAdd(a: int, m: nat, n: nat)
    ensures Exp(a, m + n) == Exp(a, m) * Exp(a, n)
  {
    if m > 0 {
      ExpAdd(a, m - 1, n);
      assert Exp(a, m + n) == a * Exp(a, m - 1 + n);
    }
  }

  lemma {:induction false} ExpMul(a: int, m: nat, n: nat)
    ensures Exp(a, m * n) == Exp(Exp(a, m), n)
  {
    if n > 0 {
      calc {
        Exp(a, m * n);
        { assert m * n == m + m * (n - 1); }
        Exp(a, m + m * (n - 1));
        { ExpAdd(a, m, m * (n - 1)); }
        Exp(a, m) * Exp(a, m * (n - 1));
        { ExpMul(a, m, n - 1); }
        Exp(a, m) * Exp(Exp(a, m), n - 1);
      }
    }
  }

  lemma {:induction false} ExpOfOne(n: nat)
    ensures Exp(1, n) == 1
  {
    if n > 0 {
      ExpOfOne(n - 1);
    }
  }

  /** Powers of congruent bases are congruent. */
  lemma {:induction false} ExpCongruent(a: int, b: int, n: nat)
    requires Congruent(a, b)
    ensures Congruent(Exp(a, n), Exp(b, n))
  {
    if n > 0 {
      ExpCongruent(a, b, n - 1);
      CongruentMul(a, b, Exp(a, n - 1), Exp(b, n - 1));
    }
  }

  /** A positive power of a multiple of p is a multiple of p. */
  lemma {:induction false} ExpOfMultiple(a: int, n: nat)
    requires Congruent(a, 0) && n > 0
    ensures Congruent(Exp(a, n), 0)
  {
    ExpCongruent(a, 0, n);
    assert Exp(0, n) == 0 * Exp(0, n - 1);
  }
}
