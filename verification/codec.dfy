/** The fixed 8-byte encoding of a field element (`ByteConversion`,
    `Serializable`, `Deserializable`). Encoding writes the raw stored word,
    reduced or not; decoding reads the first eight bytes and never reduces. */
module Codec {
  import opened Machine
  import opened Errors
  import opened Goldilocks

  function Pow256(n: nat): (r: nat)
    ensures r >= 1
  {
    if n == 0 then 1 else 256 * Pow256(n - 1)
  }

  /** The first n bytes of x, least significant first. */
  function LeBytes(x: nat, n: nat): (bs: seq<u8>)
    ensures |bs| == n
  {
    if n == 0 then [] else [(x % 256) as u8] + LeBytes(x / 256, n - 1)
  }

  /** The number a byte string denotes when read least significant first. */
  function LeValue(bs: seq<u8>): nat
  {
    if |bs| == 0 then 0 else bs[0] as nat + 256 * LeValue(bs[1..])
  }

  function Reverse(bs: seq<u8>): (r: seq<u8>)
    ensures |r| == |bs|
    ensures forall i :: 0 <= i < |bs| ==> r[i] == bs[|bs| - 1 - i]
  {
    seq(|bs|, i requires 0 <= i < |bs| => bs[|bs| - 1 - i])
  }

  /** The number a byte string denotes when read most significant first. */
  function BeValue(bs: seq<u8>): nat
  {
    LeValue(Reverse(bs))
  }

  lemma ReverseInvolutive(bs: seq<u8>)
    ensures Reverse(Reverse(bs)) == bs
  {
  }

  lemma {:induction false} LeValueBound(bs: seq<u8>)
    ensures LeValue(bs) < Pow256(|bs|)
  {
    if |bs| > 0 {
      LeValueBound(bs[1..]);
    }
  }

  /** A number is its low byte plus 256 times the rest. */
  lemma DigitSplit(x: nat, d: nat, q: nat)
    requires d < 256 && x == d + 256 * q
    ensures x % 256 == d && x / 256 == q
  {
  }

  lemma QuotientBound(x: nat, n: nat)
    requires n > 0 && x < Pow256(n)
    ensures x / 256 < Pow256(n - 1)
  {
  }

  /** Writing n bytes and reading them back gives every x below 256^n. */
  lemma {:induction false} LeValueOfBytes(x: nat, n: nat)
    requires x < Pow256(n)
    ensures LeValue(LeBytes(x, n)) == x
  {
    if n > 0 {
      var bs := LeBytes(x, n);
      var d, q := x % 256, x / 256;
      QuotientBound(x, n);
      assert bs == [d as u8] + LeBytes(q, n - 1);
      assert bs[1..] == LeBytes(q, n - 1);
      LeValueOfBytes(q, n - 1);
      assert bs[0] as nat == d;
      assert x == d + 256 * q;
    }
  }

  /** Reading n bytes and writing them back gives the same bytes. */
  lemma {:induction false} LeBytesOfValue(bs: seq<u8>)
    ensures LeBytes(LeValue(bs), |bs|) == bs
  {
    if |bs| > 0 {
      var v := LeValue(bs);
      var rest := LeValue(bs[1..]);
      assert v == bs[0] as nat + 256 * rest;
      DigitSplit(v, bs[0] as nat, rest);
      LeBytesOfValue(bs[1..]);
      assert LeBytes(v, |bs|) == [(v % 256) as u8] + LeBytes(rest, |bs| - 1);
      assert LeBytes(v, |bs|) == [bs[0]] + bs[1..];
    }
  }

  lemma EightBytesHoldAWord()
    ensures Pow256(8) == U64_LIMIT
  {
  }

  /** `to_bytes_le`: the stored word as 8 bytes, least significant first. */
  function ToBytesLe(f: GoldilocksField): (bs: seq<u8>)
    ensures |bs| == 8
    ensures LeValue(bs) == f.value as nat
  {
    EightBytesHoldAWord();
    LeValueOfBytes(f.value as nat, 8);
    LeBytes(f.value as nat, 8)
  }

  /** `to_bytes_be`: the stored word as 8 bytes, most significant first. */
  function ToBytesBe(f: GoldilocksField): (bs: seq<u8>)
    ensures |bs| == 8
    ensures BeValue(bs) == f.value as nat
  {
    var le := ToBytesLe(f);
    ReverseInvolutive(le);
    Reverse(le)
  }

  /** `from_bytes_le`: the word in the first eight bytes, not reduced. The
      slice `bytes[0..8]` panics on a shorter input before the length error
      could be returned, hence the precondition. */
  function FromBytesLe(bytes: seq<u8>): (r: Result<GoldilocksField, ByteConversionError>)
    requires |bytes| >= 8
    ensures r.Ok?
    ensures ToBytesLe(r.value) == bytes[..8]
  {
    var word := bytes[..8];
    LeValueBound(word);
    EightBytesHoldAWord();
    LeBytesOfValue(word);
    Ok(GoldilocksField(LeValue(word) as u64))
  }

  /** `from_bytes_be`: as `from_bytes_le`, most significant byte first. */
  function FromBytesBe(bytes: seq<u8>): (r: Result<GoldilocksField, ByteConversionError>)
    requires |bytes| >= 8
    ensures r.Ok?
    ensures ToBytesBe(r.value) == bytes[..8]
  {
    var word := bytes[..8];
    LeValueBound(Reverse(word));
    EightBytesHoldAWord();
    LeBytesOfValue(Reverse(word));
    ReverseInvolutive(word);
    Ok(GoldilocksField(BeValue(word) as u64))
  }

  /** `serialize`: the big-endian encoding. */
  function Serialize(f: GoldilocksField): (bs: seq<u8>)
    ensures |bs| == 8
    ensures BeValue(bs) == f.value as nat
  {
    ToBytesBe(f)
  }

  /** `deserialize`: big-endian decoding, its error converted to the
      deserialisation kind (never reached, as the slice panics first). */
  function Deserialize(bytes: seq<u8>): (r: Result<GoldilocksField, DeserializationError>)
    requires |bytes| >= 8
    ensures r.Ok?
    ensures Serialize(r.value) == bytes[..8]
  {
    match FromBytesBe(bytes)
    case Ok(f) => Ok(f)
    case Err(_) => Err(FieldFromBytesError)
  }

  /** Both encodings are inverted by their decoders, for every raw word. */
  lemma RoundTrip(f: GoldilocksField)
    ensures FromBytesBe(ToBytesBe(f)) == Ok(f)
    ensures FromBytesLe(ToBytesLe(f)) == Ok(f)
    ensures Deserialize(Serialize(f)) == Ok(f)
  {
    var be := ToBytesBe(f);
    var le := ToBytesLe(f);
    assert be[..8] == be;
    assert le[..8] == le;
  }

  /** Decoding reads the first eight bytes only. */
  lemma DecodeIgnoresTrailingBytes(word: seq<u8>, extra: seq<u8>)
    requires |word| == 8
    ensures FromBytesBe(word + extra) == FromBytesBe(word)
    ensures FromBytesLe(word + extra) == FromBytesLe(word)
  {
    assert (word + extra)[..8] == word[..8];
  }

  /** Length-checked decoding: a short input is reported as the byte
      conversion error the source names, instead of panicking. */
  function FromBytesBeChecked(bytes: seq<u8>): (r: Result<GoldilocksField, ByteConversionError>)
    ensures r.Err? <==> |bytes| < 8
    ensures r.Err? ==> r.error == FromBEBytesError
    ensures r.Ok? ==> ToBytesBe(r.value) == bytes[..8]
  {
    if |bytes| < 8 then Err(FromBEBytesError) else FromBytesBe(bytes)
  }

  function FromBytesLeChecked(bytes: seq<u8>): (r: Result<GoldilocksField, ByteConversionError>)
    ensures r.Err? <==> |bytes| < 8
    ensures r.Err? ==> r.error == FromLEBytesError
    ensures r.Ok? ==> ToBytesLe(r.value) == bytes[..8]
  {
    if |bytes| < 8 then Err(FromLEBytesError) else FromBytesLe(bytes)
  }
}
