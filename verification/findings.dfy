/** Inputs on which the source's operations leave their intended behaviour,
    each set beside the overflow-free operation that handles it. For the
    arithmetic, the release-build reading of each expression (every
    intermediate wrapped to 64 bits) is given too, to show the value that
    would come out instead of a panic. */
module Findings {
  import opened Machine
  import opened PrimeField
  import opened Errors
  import Goldilocks
  import Reduction
  import Codec
  import Hex
  import FieldLaws

  /** `(*a + *b) % MODULUS` with wrap-around. */
  function AddWrapping(a: u64, b: u64): (r: u64)
    ensures IsResidue(r as int, Wrap(a as int + b as int) as int)
  {
    ModIsResidue(Wrap(a as int + b as int) as int);
    Wrap(a as int + b as int) % MODULUS
  }

  /** `(*a + MODULUS - *b) % MODULUS` with wrap-around at each step. */
  function SubWrapping(a: u64, b: u64): (r: u64)
    ensures IsResidue(r as int, Wrap(Wrap(a as int + MODULUS as int) as int - b as int) as int)
  {
    ModIsResidue(Wrap(Wrap(a as int + MODULUS as int) as int - b as int) as int);
    Wrap(Wrap(a as int + MODULUS as int) as int - b as int) % MODULUS
  }

  /** `(MODULUS - *a) % MODULUS` with wrap-around. */
  function NegWrapping(a: u64): (r: u64)
    ensures IsResidue(r as int, Wrap(MODULUS as int - a as int) as int)
  {
    ModIsResidue(Wrap(MODULUS as int - a as int) as int);
    Wrap(MODULUS as int - a as int) % MODULUS
  }

  /** `(*a * *b) % MODULUS` with wrap-around. */
  function MulWrapping(a: u64, b: u64): (r: u64)
    ensures IsResidue(r as int, Wrap(a as int * b as int) as int)
  {
    ModIsResidue(Wrap(a as int * b as int) as int);
    Wrap(a as int * b as int) % MODULUS
  }

  /** Without overflow the release reading is the debug one. */
  lemma AddWrappingAgrees(a: u64, b: u64)
    requires a as int + b as int < U64_LIMIT
    ensures AddWrapping(a, b) == Goldilocks.Add(a, b)
  {
  }

  lemma SubWrappingAgrees(a: u64, b: u64)
    requires a as int + MODULUS as int < U64_LIMIT
    requires b as int <= a as int + MODULUS as int
    ensures SubWrapping(a, b) == Goldilocks.Sub(a, b)
  {
  }

  lemma NegWrappingAgrees(a: u64)
    requires a <= MODULUS
    ensures NegWrapping(a) == Goldilocks.Neg(a)
  {
  }

  lemma MulWrappingAgrees(a: u64, b: u64)
    requires a as int * b as int < U64_LIMIT
    ensures MulWrapping(a, b) == Goldilocks.Mul(a, b)
  {
    var x := a as int * b as int;
    assert Wrap(x) as int == x;
  }

  /** add(p-1, p-1): two canonical elements whose sum leaves `u64`. A debug
      build panics; a release build returns 2^64 - 2^33 instead of p - 2. */
  lemma AddOverflow()
    ensures (MODULUS - 1) as int + (MODULUS - 1) as int >= U64_LIMIT
    ensures AddWrapping(MODULUS - 1, MODULUS - 1) == 0xffff_fffe_0000_0000
    ensures Reduction.AddMod(MODULUS - 1, MODULUS - 1) == MODULUS - 2
  {
    ResidueUnique(Reduction.AddMod(MODULUS - 1, MODULUS - 1) as int, P - 2, 2 * (P - 1));
  }

  /** sub(p-1, 1): `a + MODULUS` already leaves `u64` for every a >= 2^32 - 1.
      A debug build panics; a release build returns 2^64 - 2^33 instead of
      p - 2. */
  lemma SubOverflow()
    ensures (MODULUS - 1) as int + MODULUS as int >= U64_LIMIT
    ensures SubWrapping(MODULUS - 1, 1) == 0xffff_fffe_0000_0000
    ensures Reduction.SubMod(MODULUS - 1, 1) == MODULUS - 2
  {
    ResidueUnique(Reduction.SubMod(MODULUS - 1, 1) as int, P - 2, P - 2);
  }

  /** neg(2^64 - 1): an unreduced word above the modulus makes `MODULUS - a`
      underflow. A release build returns 1 instead of the negation of
      2^64 - 1 = 2^32 - 2, which is 2^64 - 2^33 + 3. */
  lemma NegUnderflow()
    ensures 0xffff_ffff_ffff_ffff > MODULUS
    ensures NegWrapping(0xffff_ffff_ffff_ffff) == 1
    ensures Reduction.NegMod(0xffff_ffff_ffff_ffff) == 0xffff_fffe_0000_0003
  {
    ResidueUnique(Reduction.NegMod(0xffff_ffff_ffff_ffff) as int, 0xffff_fffe_0000_0003, -0xffff_ffff_ffff_ffff);
  }

  /** mul(p-1, p-1), the source's own test expecting 1: the product is
      2^128 - 2^97 + 2^64, far outside `u64`. A debug build panics; a
      release build wraps it to 0. */
  // m is a parameter fixed by the requires, rather than the literal p - 1,
  // so that the verifier does not unfold MulMod on a literal product.
  lemma MulOverflow(m: u64)
    requires m == MODULUS - 1
    ensures m as int * m as int >= U64_LIMIT
    ensures MulWrapping(m, m) == 0
    ensures Reduction.MulMod(m, m) == 1
  {
    var x := m as int * m as int;
    assert x == 0xffff_fffe_0000_0001 * U64_LIMIT;
    assert Wrap(x) == 0;
    var r := Reduction.MulMod(m, m) as int;
    // (p - 1)^2 - 1 = p (p - 2)
    MultipleIsCongruent(x, 1, P - 2);
    ResidueOfCongruent(r, x, 1);
    ResidueUnique(r, 1, 1);
  }

  /** div(4, 2) overflows the same way: the inverse of 2 is (p + 1) / 2,
      and four times it leaves `u64`. */
  lemma DivOverflow()
    ensures Goldilocks.Inv(2).Ok? && 4 * Goldilocks.Inv(2).value as int >= U64_LIMIT
  {
    FieldLaws.InverseOfTwo();
    assert Goldilocks.Inv(2) == Reduction.InvMod(2);
  }

  /** div(a, 0): `inv(0)` is an error, so `div`'s `unwrap` panics (its
      precondition excludes the divisor 0), where the reference division
      reports the error. */
  lemma DivByZeroPanics(a: u64)
    ensures !Goldilocks.Inv(0).Ok?
    ensures Reduction.DivMod(a, 0) == Err(InvZeroError)
  {
  }

  /** inv(MODULUS): the zero test looks at the raw word, so the unreduced
      zero p is accepted and, with the overflow-free power, "inverted" to 0,
      whose product with p is 0, not 1. The total inversion refuses it. */
  lemma InvOfModulus()
    ensures Goldilocks.Inv(MODULUS) == Ok(0)
    ensures Reduction.InvMod(MODULUS) == Err(InvZeroError)
  {
    ExpOfMultiple(P, INV_EXPONENT);
    ResidueUnique(Goldilocks.Inv(MODULUS).value as int, 0, Exp(P, INV_EXPONENT));
  }

  /** from_hex("1é"): three bytes, the third inside the two-byte 'é', so
      `&hex_string[..2]` panics. Comparing bytes instead reports the
      invalid string. */
  lemma FromHexPanics()
    ensures var s: seq<u8> := [0x31, 0xc3, 0xa9];
            |s| > 2 && !Hex.IsCharBoundary(s, 2) && Hex.FromHexChecked(s) == Err(InvalidHexString)
  {
    var s: seq<u8> := [0x31, 0xc3, 0xa9];
    assert !Hex.IsHexDigit(s[1]);
  }

  /** Decoding seven bytes: the slice `bytes[0..8]` panics, so the length
      error passed to `map_err` is never produced. The checked decoders
      return it. */
  lemma ShortInputPanics()
    ensures var bytes: seq<u8> := [0, 0, 0, 0, 0, 0, 0];
            |bytes| < 8
            && Codec.FromBytesBeChecked(bytes) == Err(FromBEBytesError)
            && Codec.FromBytesLeChecked(bytes) == Err(FromLEBytesError)
  {
  }
}
