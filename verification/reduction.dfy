/** Overflow-free Goldilocks arithmetic on raw `u64` words: every operation
    accepts any 64-bit input, reduced or not, and returns the canonical
    residue. Every `+`, `-` and `*` below stays inside `u64` (the newtype
    makes Dafny check this); the one product that needs more room is formed
    in a 128-bit intermediate and folded back using
    2^64 = 2^32 - 1 and 2^96 = -1 (mod p). */
module Reduction {
  import opened Machine
  import opened PrimeField
  import opened Errors

  /** 2^32 - 1, which is 2^64 mod p. */
  const EPSILON: u64 := 0xffff_ffff

  /** One conditional subtraction suffices, since 2^64 < 2p. */
  function Canonical(a: u64): (r: u64)
    ensures IsResidue(r as int, a as int)
    ensures a < MODULUS ==> r == a
  {
    if a >= MODULUS then a - MODULUS else a
  }

  /** a + b mod p, without ever forming a + b: the sum wraps past p exactly
      when x >= p - y. */
  function AddMod(a: u64, b: u64): (r: u64)
    ensures IsResidue(r as int, a as int + b as int)
  {
    var x := Canonical(a);
    var y := Canonical(b);
    var r := if x >= MODULUS - y then x - (MODULUS - y) else x + y;
    CongruentAdd(a as int, x as int, b as int, y as int);
    ResidueOfCongruent(r as int, x as int + y as int, a as int + b as int);
    r
  }

  function SubMod(a: u64, b: u64): (r: u64)
    ensures IsResidue(r as int, a as int - b as int)
  {
    var x := Canonical(a);
    var y := Canonical(b);
    var r := if x >= y then x - y else x + (MODULUS - y);
    CongruentAdd(a as int, x as int, -(b as int), -(y as int));
    ResidueOfCongruent(r as int, x as int - y as int, a as int - b as int);
    r
  }

  function NegMod(a: u64): (r: u64)
    ensures IsResidue(r as int, -(a as int))
  {
    var x := Canonical(a);
    var r := if x == 0 then 0 else MODULUS - x;
    CongruentAdd(0, 0, -(a as int), -(x as int));
    ResidueOfCongruent(r as int, -(x as int), -(a as int));
    r
  }

  lemma MulMonotone(a: int, b: int, c: int)
    requires 0 <= a && b <= c
    ensures a * b <= a * c
  {
    assert a * c - a * b == a * (c - b);
  }

  lemma ProductBound(a: u64, b: u64)
    ensures 0 <= a as int * b as int < 0x1_0000_0000_0000_0000_0000_0000_0000_0000
  {
    var m := 0xffff_ffff_ffff_ffff;
    MulMonotone(a as int, 0, b as int);
    MulMonotone(a as int, b as int, m);
    MulMonotone(m, a as int, m);
    assert a as int * m == m * a as int;
    assert m * m < 0x1_0000_0000_0000_0000_0000_0000_0000_0000;
  }

  /** The 128-bit product lo + 2^64 (2^32 hiHi + hiLo) is congruent to
      lo - hiHi + (2^32 - 1) hiLo, the difference being
      ((2^32 + 1) hiHi + hiLo) p. */
  lemma FoldIsCongruent(x: int, lo: int, hiHi: int, hiLo: int)
    requires x == (hiHi * 0x1_0000_0000 + hiLo) * U64_LIMIT + lo
    ensures Congruent(x, lo - hiHi + hiLo * 0xffff_ffff)
  {
    MultipleIsCongruent(x, lo - hiHi + hiLo * 0xffff_ffff, hiHi * 0x1_0000_0001 + hiLo);
  }

  /** lo - hiHi + (2^32 - 1) hiLo in 64-bit arithmetic: each borrow or
      carry is corrected by one multiple of p, so the result is congruent
      though not necessarily below p. */
  function Fold(lo: u64, hiHi: u64, hiLo: u64): (t: u64)
    requires hiHi as int < 0x1_0000_0000 && hiLo as int < 0x1_0000_0000
    ensures Congruent(t as int, lo as int - hiHi as int + hiLo as int * EPSILON as int)
  {
    // on a borrow the wrapped difference is 2^64 too large; taking EPSILON
    // off leaves it p too large instead
    var t0 := if lo >= hiHi then lo - hiHi else Wrap(lo as int - hiHi as int) - EPSILON;
    var t1 := hiLo * EPSILON;
    // on a carry the wrapped sum is 2^64 too small; adding EPSILON leaves
    // it p too small instead
    if t0 as int + t1 as int < U64_LIMIT then t0 + t1 else Wrap(t0 as int + t1 as int) + EPSILON
  }

  /** Reduction of the 128-bit value hi 2^64 + lo: split hi into
      2^32 hiHi + hiLo, fold, and canonicalise. */
  function Reduce128(hi: u64, lo: u64): (r: u64)
    ensures IsResidue(r as int, hi as int * U64_LIMIT + lo as int)
  {
    var hiHi := hi / 0x1_0000_0000;
    var hiLo := hi % 0x1_0000_0000;
    var t := Fold(lo, hiHi, hiLo);
    var r := Canonical(t);
    FoldedResidue(hi as int * U64_LIMIT + lo as int, lo as int, hiHi as int, hiLo as int, t as int, r as int);
    r
  }

  /** The canonical residue of the folded word is that of the whole value. */
  lemma FoldedResidue(x: int, lo: int, hiHi: int, hiLo: int, t: int, r: int)
    requires x == (hiHi * 0x1_0000_0000 + hiLo) * U64_LIMIT + lo
    requires Congruent(t, lo - hiHi + hiLo * 0xffff_ffff)
    requires IsResidue(r, t)
    ensures IsResidue(r, x)
  {
    var f := lo - hiHi + hiLo * 0xffff_ffff;
    FoldIsCongruent(x, lo, hiHi, hiLo);
    CongruentSymmetric(t, f);
    CongruentTransitive(x, f, t);
    CongruentSymmetric(x, t);
    ResidueOfCongruent(r, t, x);
  }

  /** a * b mod p: the product is formed in a 128-bit intermediate, split
      into its high and low words, and reduced by the Goldilocks fold. */
  function MulMod(a: u64, b: u64): (r: u64)
    ensures IsResidue(r as int, a as int * b as int)
  {
    var x := a as int * b as int;
    ProductBound(a, b);
    Reduce128((x / U64_LIMIT) as u64, (x % U64_LIMIT) as u64)
  }

  /** a^e splits into the square of a^(e/2), times a when e is odd. */
  lemma ExpHalves(a: int, e: nat)
    ensures Exp(a, e) == Exp(a, e / 2) * Exp(a, e / 2) * (if e % 2 == 0 then 1 else a)
  {
    ExpAdd(a, e / 2, e / 2);
    if e % 2 == 1 {
      ExpAdd(a, e / 2 + e / 2, 1);
    }
  }

  /** a^e mod p by square-and-multiply over MulMod: one squaring per bit of
      the exponent, and one extra multiplication per set bit. */
  function Pow(a: u64, e: nat): (r: u64)
    ensures IsResidue(r as int, Exp(a as int, e))
    decreases e
  {
    if e == 0 then 1
    else
      var h := Pow(a, e / 2);
      var s := MulMod(h, h);
      var r := if e % 2 == 0 then s else MulMod(s, a);
      var half := Exp(a as int, e / 2);
      CongruentMul(half, h as int, half, h as int);
      CongruentTransitive(half * half, h as int * h as int, s as int);
      ExpHalves(a as int, e);
      if e % 2 == 0 then
        r
      else
        CongruentMul(half * half, s as int, a as int, a as int);
        CongruentTransitive(half * half * a as int, s as int * a as int, r as int);
        r
  }

  lemma CanonicalZero(a: u64)
    ensures Canonical(a) == 0 <==> Congruent(a as int, 0)
  {
    if Congruent(a as int, 0) {
      ResidueUnique(Canonical(a) as int, 0, a as int);
    }
  }

  /** Inversion by Fermat's little theorem, a^(p-2), refusing every input
      whose residue is zero (0 and p alike). */
  function InvMod(a: u64): (r: Result<u64, FieldError>)
    ensures r.Err? <==> Congruent(a as int, 0)
    ensures r.Err? ==> r.error == InvZeroError
    ensures r.Ok? ==> IsResidue(r.value as int, Exp(a as int, INV_EXPONENT))
  {
    CanonicalZero(a);
    if Canonical(a) == 0 then Err(InvZeroError) else Ok(Pow(a, INV_EXPONENT))
  }

  /** a / b = a * b^(p-2); fails exactly when b's residue is zero. */
  function DivMod(a: u64, b: u64): (r: Result<u64, FieldError>)
    ensures r.Err? <==> Congruent(b as int, 0)
    ensures r.Ok? ==> IsResidue(r.value as int, a as int * Exp(b as int, INV_EXPONENT))
  {
    match InvMod(b)
    case Err(e) => Err(e)
    case Ok(v) =>
      var r := MulMod(a, v);
      CongruentMul(a as int, a as int, Exp(b as int, INV_EXPONENT), v as int);
      CongruentTransitive(a as int * Exp(b as int, INV_EXPONENT), a as int * v as int, r as int);
      Ok(r)
  }
}
