/** `from_hex`: parse a hexadecimal string into a raw, unreduced word.
    A Rust `&str` is UTF-8, and both `len()` and the slice `[..2]` count
    bytes, so the string is modelled as its UTF-8 byte sequence. */
module Hex {
  import opened Machine
  import opened Errors

  const ASCII_ZERO: u8 := 0x30
  const ASCII_X: u8 := 0x78
  const ASCII_PLUS: u8 := 0x2b
  const ASCII_MINUS: u8 := 0x2d
  const ASCII_LOWER_F: u8 := 0x66

  /** The failure kinds of `u64::from_str_radix`. */
  datatype IntErrorKind = Empty | InvalidDigit | PosOverflow

  /** A byte `char::to_digit(16)` accepts: 0-9, a-f, A-F. */
  predicate IsHexDigit(b: u8) {
    (0x30 <= b <= 0x39) || (0x61 <= b <= 0x66) || (0x41 <= b <= 0x46)
  }

  function DigitValue(b: u8): (d: nat)
    requires IsHexDigit(b)
    ensures d < 16
  {
    if b <= 0x39 then (b - 0x30) as nat
    else if b >= 0x61 then (b - 0x61) as nat + 10
    else (b - 0x41) as nat + 10
  }

  predicate AllHexDigits(s: seq<u8>) {
    forall i :: 0 <= i < |s| ==> IsHexDigit(s[i])
  }

  /** The number a digit string denotes, most significant digit first,
      without any width limit. */
  function HexValue(s: seq<u8>): nat
    requires AllHexDigits(s)
  {
    if |s| == 0 then 0 else HexValue(s[..|s| - 1]) * 16 + DigitValue(s[|s| - 1])
  }

  /** Extending a digit string never makes its value smaller. */
  lemma {:induction false} HexValuePrefix(s: seq<u8>, k: nat)
    requires AllHexDigits(s) && k <= |s|
    ensures HexValue(s[..k]) <= HexValue(s)
    decreases |s|
  {
    if k < |s| {
      var t := s[..|s| - 1];
      assert t[..k] == s[..k];
      assert AllHexDigits(t);
      HexValuePrefix(t, k);
      assert HexValue(s) == HexValue(t) * 16 + DigitValue(s[|s| - 1]);
    } else {
      assert s[..k] == s;
    }
  }

  lemma PrefixBoundsValue(s: seq<u8>, k: nat)
    requires k <= |s| && AllHexDigits(s[..k])
    ensures AllHexDigits(s) ==> HexValue(s[..k]) <= HexValue(s)
  {
    if AllHexDigits(s) {
      HexValuePrefix(s, k);
    }
  }

  /** The digits `from_str_radix` reads: one leading '+' is accepted and
      skipped (a '-' is not, the type being unsigned). */
  function UnsignedDigits(s: seq<u8>): seq<u8> {
    if |s| > 0 && s[0] == ASCII_PLUS then s[1..] else s
  }

  /** `s` is a base-16 numeral of a `u64`. */
  predicate IsU64Numeral(s: seq<u8>) {
    var d := UnsignedDigits(s);
    |d| > 0 && AllHexDigits(d) && HexValue(d) < U64_LIMIT
  }

  /** The digit loop of `from_str_radix`: left to right, each step a checked
      multiplication by 16 and a checked addition of the digit; the first
      non-digit or overflow ends it. */
  function Accumulate(s: seq<u8>, i: nat, acc: u64): (r: Result<u64, IntErrorKind>)
    requires i <= |s|
    requires AllHexDigits(s[..i]) && acc as int == HexValue(s[..i])
    ensures r.Ok? <==> AllHexDigits(s) && HexValue(s) < U64_LIMIT
    ensures r.Ok? ==> r.value as int == HexValue(s)
    decreases |s| - i
  {
    if i == |s| then
      assert s[..i] == s;
      Ok(acc)
    else if !IsHexDigit(s[i]) then
      Err(InvalidDigit)
    else
      assert s[..i + 1][..i] == s[..i];
      assert AllHexDigits(s[..i + 1]);
      PrefixBoundsValue(s, i + 1);
      if acc as int * 16 >= U64_LIMIT then
        Err(PosOverflow)
      else if (acc * 16) as int + DigitValue(s[i]) >= U64_LIMIT then
        Err(PosOverflow)
      else
        Accumulate(s, i + 1, acc * 16 + DigitValue(s[i]) as u64)
  }

  /** `u64::from_str_radix(s, 16)`. */
  function FromStrRadix16(s: seq<u8>): (r: Result<u64, IntErrorKind>)
    ensures r.Ok? <==> IsU64Numeral(s)
    ensures r.Ok? ==> r.value as int == HexValue(UnsignedDigits(s))
  {
    if |s| == 0 then Err(Empty)
    else if (s[0] == ASCII_PLUS || s[0] == ASCII_MINUS) && |s| == 1 then Err(InvalidDigit)
    else
      assert s[..0] == [];
      Accumulate(UnsignedDigits(s), 0, 0)
  }

  /** Rust's `str::is_char_boundary`: index i does not fall inside a
      multi-byte UTF-8 sequence, i.e. the byte there is not a continuation
      byte (0x80-0xBF). */
  predicate IsCharBoundary(s: seq<u8>, i: nat) {
    i == 0 || i == |s| || (i < |s| && !(0x80 <= s[i] <= 0xbf))
  }

  /** The text `from_hex` hands to the parser: a leading "0x" is removed,
      but only from a string longer than two bytes. */
  function HexBody(s: seq<u8>): seq<u8> {
    if |s| > 2 && s[0] == ASCII_ZERO && s[1] == ASCII_X then s[2..] else s
  }

  /** `from_hex` as written. `&hex_string[..2]` panics when byte 2 is inside
      a multi-byte character, hence the precondition. The parsed word is
      returned as is, never reduced modulo p. */
  function FromHex(s: seq<u8>): (r: Result<u64, CreationError>)
    requires |s| > 2 ==> IsCharBoundary(s, 2)
    ensures r.Ok? <==> IsU64Numeral(HexBody(s))
    ensures r.Ok? ==> r.value as int == HexValue(UnsignedDigits(HexBody(s)))
    ensures r.Err? ==> r.error == InvalidHexString
  {
    var t := if |s| > 2 && s[..2] == [ASCII_ZERO, ASCII_X] then s[2..] else s;
    assert t == HexBody(s);
    match FromStrRadix16(t)
    case Ok(v) => Ok(v)
    case Err(_) => Err(InvalidHexString)
  }

  /** `from_hex` comparing the first two bytes instead of slicing the
      string: defined on every input. */
  function FromHexChecked(s: seq<u8>): (r: Result<u64, CreationError>)
    ensures r.Ok? <==> IsU64Numeral(HexBody(s))
    ensures r.Ok? ==> r.value as int == HexValue(UnsignedDigits(HexBody(s)))
    ensures r.Err? ==> r.error == InvalidHexString
  {
    match FromStrRadix16(HexBody(s))
    case Ok(v) => Ok(v)
    case Err(_) => Err(InvalidHexString)
  }

  /** Where `from_hex` does not panic, the checked version agrees with it. */
  lemma FromHexCheckedAgrees(s: seq<u8>)
    requires |s| > 2 ==> IsCharBoundary(s, 2)
    ensures FromHexChecked(s) == FromHex(s)
  {
  }

  /** The "0x" prefix is optional: the same digits parse to the same word
      with and without it, as long as the digits do not start with "0x"
      themselves. */
  lemma PrefixIsOptional(d: seq<u8>)
    requires |d| > 0 && !(0x80 <= d[0] <= 0xbf)
    requires |d| > 2 ==> IsCharBoundary(d, 2)
    requires HexBody(d) == d
    ensures FromHex([ASCII_ZERO, ASCII_X] + d) == FromHex(d)
  {
    var s := [ASCII_ZERO, ASCII_X] + d;
    assert s[2..] == d;
  }

  /** "0x" alone is not stripped (it is not longer than two bytes) and
      fails on the 'x'. */
  lemma BarePrefixFails()
    ensures FromHex([ASCII_ZERO, ASCII_X]).Err?
  {
    var s: seq<u8> := [ASCII_ZERO, ASCII_X];
    assert !IsHexDigit(s[1]);
  }

  /** "0x10" and "10" both parse to 16; "zz" is refused. */
  lemma HexExamples()
    ensures FromHex([ASCII_ZERO, ASCII_X, 0x31, 0x30]) == Ok(16)
    ensures FromHex([0x31, 0x30]) == Ok(16)
    ensures FromHex([0x7a, 0x7a]) == Err(InvalidHexString)
  {
    var ten: seq<u8> := [0x31, 0x30];
    assert ten[..1] == [0x31];
    assert HexValue(ten) == 16;
    PrefixIsOptional(ten);
    var zz: seq<u8> := [0x7a, 0x7a];
    assert !IsHexDigit(zz[0]);
  }

  /** n copies of the digit 'f'. */
  function AllF(n: nat): (s: seq<u8>)
    ensures |s| == n && AllHexDigits(s)
  {
    seq(n, _ => ASCII_LOWER_F)
  }

  lemma {:induction false} AllFValue(n: nat)
    ensures HexValue(AllF(n)) == Pow2(4 * n) - 1
  {
    if n > 0 {
      assert AllF(n)[..n - 1] == AllF(n - 1);
      AllFValue(n - 1);
      Pow2Add(4 * (n - 1), 4);
      assert Pow2(4) == 16;
    }
  }

  /** "ffffffffffffffff" parses to 2^64 - 1, a word above the modulus that
      `from_hex` does not reduce. */
  lemma LargestWordIsNotReduced()
    ensures FromHex(AllF(16)) == Ok(0xffff_ffff_ffff_ffff)
  {
    AllFValue(16);
    Pow2At64();
  }
}
