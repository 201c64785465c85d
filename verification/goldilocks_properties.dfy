/** What the source's field operations promise, proved against the
    overflow-free reference arithmetic of Reduction and against the
    residue specification of PrimeField. */
module GoldilocksProperties {
  import opened Machine
  import opened PrimeField
  import opened Errors
  import opened Goldilocks
  import Reduction

  /** `from`, `new`, `from_u64` and `from_base_type` are one canonicalisation. */
  lemma ConstructorsAgree(a: u64)
    ensures From(a).value == New(a) == FromU64(a) == FromBaseType(a)
  {
    ResidueUnique(From(a).value as int, New(a) as int, a as int);
    ResidueUnique(New(a) as int, FromU64(a) as int, a as int);
    ResidueUnique(FromU64(a) as int, FromBaseType(a) as int, a as int);
  }

  /** Reducing twice is reducing once. */
  lemma FromU64Idempotent(x: u64)
    ensures FromU64(FromU64(x)) == FromU64(x)
  {
    var r := FromU64(x);
    ResidueOfCongruent(r as int, r as int, r as int);
    assert IsResidue(r as int, r as int);
    ResidueUnique(FromU64(r) as int, r as int, r as int);
  }

  /** An unreduced word is equal to its own residue. */
  lemma EqUnreducedResidue(x: u64)
    ensures Eq(x, FromU64(x))
  {
  }

  /** Re-creating an element from its representative gives the same element. */
  lemma FromRepresentativeRoundTrip(x: u64)
    ensures From(Representative(From(x).value)) == From(x)
  {
  }

  /** Within its overflow bound, `add` agrees with the total reference AddMod. */
  lemma AddAgrees(a: u64, b: u64)
    requires a as int + b as int < U64_LIMIT
    ensures Add(a, b) == Reduction.AddMod(a, b)
  {
    ResidueUnique(Add(a, b) as int, Reduction.AddMod(a, b) as int, a as int + b as int);
  }

  lemma SubAgrees(a: u64, b: u64)
    requires a as int + MODULUS as int < U64_LIMIT
    requires b as int <= a as int + MODULUS as int
    ensures Sub(a, b) == Reduction.SubMod(a, b)
  {
    ResidueUnique(Sub(a, b) as int, Reduction.SubMod(a, b) as int, a as int - b as int);
  }

  lemma NegAgrees(a: u64)
    requires a <= MODULUS
    ensures Neg(a) == Reduction.NegMod(a)
  {
    ResidueUnique(Neg(a) as int, Reduction.NegMod(a) as int, -(a as int));
  }

  lemma MulAgrees(a: u64, b: u64)
    requires a as int * b as int < U64_LIMIT
    ensures Mul(a, b) == Reduction.MulMod(a, b)
  {
    ResidueUnique(Mul(a, b) as int, Reduction.MulMod(a, b) as int, a as int * b as int);
  }

  /** Where the divisor's residue is non-zero and the product fits, `div`
      agrees with the total reference DivMod. */
  lemma DivAgrees(a: u64, b: u64)
    requires Inv(b).Ok?
    requires a as int * Inv(b).value as int < U64_LIMIT
    requires !Congruent(b as int, 0)
    ensures Reduction.DivMod(a, b) == Ok(Div(a, b))
  {
    var d := Reduction.DivMod(a, b);
    ResidueUnique(Div(a, b) as int, d.value as int, a as int * Exp(b as int, INV_EXPONENT));
  }

  lemma NegOfZero()
    ensures Neg(0) == 0
  {
  }

  /** a + neg(a) = 0 for every word `neg` accepts; the sum never overflows. */
  lemma AddNegIsZero(a: u64)
    requires a <= MODULUS
    ensures a as int + Neg(a) as int < U64_LIMIT
    ensures Add(a, Neg(a)) == 0
  {
    var n := Neg(a);
    CongruentAdd(a as int, a as int, -(a as int), n as int);
    assert IsResidue(0, a as int + n as int);
    ResidueUnique(Add(a, n) as int, 0, a as int + n as int);
  }

  /** `zero` and `one` are the additive and multiplicative identities, up to
      reduction of the other operand. */
  lemma Identities(a: u64)
    ensures Add(a, Zero()) == FromU64(a)
    ensures Mul(a, One()) == FromU64(a)
  {
    ResidueUnique(Add(a, Zero()) as int, FromU64(a) as int, a as int);
    ResidueUnique(Mul(a, One()) as int, FromU64(a) as int, a as int);
  }

  /** `inv` refuses the word 0, and the reference division refuses it as a
      divisor (the source's `div` panics there instead, see Findings). */
  lemma InvOfZeroFails(a: u64)
    ensures Inv(0) == Err(InvZeroError)
    ensures Reduction.DivMod(a, 0) == Err(InvZeroError)
  {
  }

  /** The concrete expectations of the source's tests of `add`, `sub` and
      `mul` (within the overflow bounds they respect), and neg(5) = p - 5,
      which no test asserts: the test named after `neg` calls `mul`. */
  lemma SourceTestExpectations()
    ensures Add(7, 10) == 17
    ensures Add(MODULUS - 1, 1) == 0
    ensures Sub(5, 3) == 2
    ensures Mul(5, 3) == 15
    ensures Neg(5) == MODULUS - 5
  {
  }
}
