/** The Goldilocks field element as the source writes it (src/u64_goldilocks.rs):
    the field operations work on raw `u64` words that may or may not be
    reduced, and each `+`, `-`, `*` is the plain 64-bit operator. Because
    `u64` is a bounded newtype, every operation below carries exactly the
    precondition under which its Rust expression does not overflow; outside
    it a debug build panics (and a release build wraps, see Findings).
    The one exception is `inv`: the exponentiation it calls is not in this
    file, and is modelled by the overflow-free `Reduction.Pow`. */
module Goldilocks {
  import opened Machine
  import opened PrimeField
  import opened Errors
  import Reduction

  /** The field element: one raw word, reduced only when a constructor or
      an operation reduces it. */
  datatype GoldilocksField = GoldilocksField(value: u64)

  /** `GoldilocksField::from`: canonicalise a raw word. */
  function From(a: u64): (f: GoldilocksField)
    ensures IsResidue(f.value as int, a as int)
    ensures a < MODULUS ==> f.value == a
  {
    if a >= MODULUS then GoldilocksField(a % MODULUS) else GoldilocksField(a)
  }

  /** `GoldilocksField::new`: the same canonicalisation, returning the word. */
  function New(a: u64): (r: u64)
    ensures IsResidue(r as int, a as int)
    ensures a < MODULUS ==> r == a
  {
    if a >= MODULUS then a % MODULUS else a
  }

  function Zero(): u64 {
    0
  }

  function One(): u64 {
    1
  }

  /** `from_u64`: reduction modulo p. */
  function FromU64(x: u64): (r: u64)
    ensures IsResidue(r as int, x as int)
  {
    x % MODULUS
  }

  /** `from_base_type`: the base type is `u64`, so this is `from_u64`. */
  function FromBaseType(x: u64): (r: u64)
    ensures IsResidue(r as int, x as int)
  {
    FromU64(x)
  }

  /** `representative`: the raw word, reduced or not. */
  function Representative(a: u64): u64 {
    a
  }

  /** `add`: `(a + b) % MODULUS`, which overflows once a + b reaches 2^64. */
  function Add(a: u64, b: u64): (r: u64)
    requires a as int + b as int < U64_LIMIT
    ensures IsResidue(r as int, a as int + b as int)
  {
    (a + b) % MODULUS
  }

  /** `sub`: `(a + MODULUS - b) % MODULUS`, evaluated left to right; the
      first addition overflows for every a >= 2^32 - 1. */
  function Sub(a: u64, b: u64): (r: u64)
    requires a as int + MODULUS as int < U64_LIMIT
    requires b as int <= a as int + MODULUS as int
    ensures IsResidue(r as int, a as int - b as int)
  {
    (a + MODULUS - b) % MODULUS
  }

  /** `neg`: `(MODULUS - a) % MODULUS`, which underflows for a raw a > MODULUS. */
  function Neg(a: u64): (r: u64)
    requires a <= MODULUS
    ensures IsResidue(r as int, -(a as int))
  {
    (MODULUS - a) % MODULUS
  }

  /** `mul`: `(a * b) % MODULUS`, which overflows once a * b reaches 2^64. */
  function Mul(a: u64, b: u64): (r: u64)
    requires a as int * b as int < U64_LIMIT
    ensures IsResidue(r as int, a as int * b as int)
  {
    ModIsResidue(a as int * b as int);
    (a * b) % MODULUS
  }

  /** `inv`: refuses only the raw word 0, then raises to the power p - 2. */
  function Inv(a: u64): (r: Result<u64, FieldError>)
    ensures r.Err? <==> a == 0
    ensures r.Err? ==> r.error == InvZeroError
    ensures r.Ok? ==> IsResidue(r.value as int, Exp(a as int, INV_EXPONENT))
  {
    if a == 0 then Err(InvZeroError) else Ok(Reduction.Pow(a, INV_EXPONENT))
  }

  /** `div`: `mul(a, inv(b).unwrap())`; the `unwrap` panics on b = 0 and the
      multiplication carries `mul`'s overflow bound. */
  function Div(a: u64, b: u64): (r: u64)
    requires Inv(b).Ok?
    requires a as int * Inv(b).value as int < U64_LIMIT
    ensures IsResidue(r as int, a as int * Exp(b as int, INV_EXPONENT))
  {
    var v := Inv(b).value;
    var r := Mul(a, v);
    CongruentMul(a as int, a as int, Exp(b as int, INV_EXPONENT), v as int);
    CongruentTransitive(a as int * Exp(b as int, INV_EXPONENT), a as int * v as int, r as int);
    r
  }

  /** `eq`: compare residues, so an unreduced word equals its reduction. */
  function Eq(a: u64, b: u64): (r: bool)
    ensures r <==> Congruent(a as int, b as int)
  {
    ResiduesMatch(FromU64(a) as int, FromU64(b) as int, a as int, b as int);
    FromU64(a) == FromU64(b)
  }

  /** `field_bit_size`: `(MODULUS - 1).ilog2() + 1`, the bits of p - 1. */
  function FieldBitSize(): (n: nat)
    ensures n == 64
  {
    Pow2At64();
    ILog2Unique(MODULUS - 1, 63);
    ILog2(MODULUS - 1) + 1
  }
}
