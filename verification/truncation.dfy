/** Dynamic truncation, section 5.3 of RFC 4226 (`dynamic_truncate` in
    src/lib.rs): a 31-bit number cut out of an HMAC digest at an offset the
    digest itself chooses. */
module Truncation {

  import opened Arithmetic
  import opened BigEndian
  import opened Results

  /** One more than the largest value of Rust's `u32`. */
  const U32Limit: nat := 0x1_0000_0000

  type u32 = x: int | 0 <= x < U32Limit

  /** 2^31, the weight of bit 31 of a `u32`. */
  const TopBit: nat := 0x8000_0000

  /** Why the source panics instead of returning a value. */
  datatype TruncateError =
    | EmptyHash                                // `.expect("invalid hash received")`
    | SliceOutOfRange(offset: nat, len: nat)   // `hash[offset..offset + 4]` past the end

  /** The offset `v & 0xF` taken from the last digest byte `v`. Masking the
      low four bits of a byte keeps its residue modulo 16 (`LowNibbleMask`). */
  function Offset(last: byte): (offset: nat)
    ensures offset < 16
  {
    last % 16
  }

  /** `& 0xF` on a `u8` is exactly what `Offset` computes. */
  lemma LowNibbleMask(b: bv8)
    ensures (b & 0xF) as int == Offset(b as int)
  {
  }

  /** A last byte written `0x?A` in hexadecimal selects offset `A`, whatever
      its high nibble. */
  lemma OffsetIsLowNibble(high: nat, low: nat)
    requires high < 16 && low < 16
    ensures Offset(high * 16 + low) == low
  {
    DivUnique(high * 16 + low, 16, high, low);
  }

  lemma ToNatFourBytes(w: seq<byte>)
    requires |w| == 4
    ensures ToNat(w) == w[0] as int * 0x100_0000 + w[1] as int * 0x1_0000 + w[2] as int * 0x100 + w[3] as int
  {
    assert w[..1][..0] == [];
    assert ToNat(w[..1]) == w[0] as int;
    assert w[..2][..1] == w[..1];
    assert ToNat(w[..2]) == w[0] as int * 0x100 + w[1] as int;
    assert w[..3][..2] == w[..2];
    assert ToNat(w[..3]) == w[0] as int * 0x1_0000 + w[1] as int * 0x100 + w[2] as int;
  }

  /** `u32::from_be_bytes` of the four bytes at `offset`. */
  function ReadU32(hash: seq<byte>, offset: nat): (v: u32)
    requires offset + 4 <= |hash|
    ensures v == hash[offset] as int * 0x100_0000 + hash[offset + 1] as int * 0x1_0000
               + hash[offset + 2] as int * 0x100 + hash[offset + 3] as int
  {
    var word := hash[offset..offset + 4];
    ToNatFourBytes(word);
    ToNat(word)
  }

  /** `v & 0x7FFFFFFF` on a `u32`: clearing bit 31, which carries weight
      2^31, leaves the residue modulo 2^31 (`MaskIsClearTopBit`). */
  function ClearTopBit(v: u32): (r: u32)
    ensures r < TopBit
  {
    v % TopBit
  }

  /** `& 0x7F` on a `u8` keeps the residue modulo 128. */
  lemma LowSevenBitsMask(b: bv8)
    ensures (b & 0x7F) as int == b as int % 128
  {
  }

  /** The reference formula of section 5.3 of RFC 4226, where the top bit is
      masked off the first of the four selected bytes rather than off the
      assembled word: `(b[o] & 0x7f) << 24 | b[o+1] << 16 | b[o+2] << 8 |
      b[o+3]`. The four bytes do not share bits, so the shifts and ORs are
      written as multiplication and addition (`RfcBitwiseIsBinCode`). */
  function Rfc4226BinCode(hash: seq<byte>, offset: nat): nat
    requires offset + 4 <= |hash|
  {
    hash[offset] as int % 128 * 0x100_0000 + hash[offset + 1] as int * 0x1_0000
    + hash[offset + 2] as int * 0x100 + hash[offset + 3] as int
  }

  /** The truncation is defined exactly when the digest has a last byte and
      four bytes start at the offset that byte selects. */
  predicate Truncatable(hash: seq<byte>)
  {
    |hash| > 0 && Offset(hash[|hash| - 1]) + 4 <= |hash|
  }

  /** Bit 31 of a word is bit 7 of its most significant byte. */
  lemma ClearTopBitOfWord(high: nat, rest: nat)
    requires high < 256 && rest < 0x100_0000
    ensures (high * 0x100_0000 + rest) % TopBit == high % 128 * 0x100_0000 + rest
  {
    var low := high % 128 * 0x100_0000 + rest;
    assert high == high / 128 * 128 + high % 128;
    assert high * 0x100_0000 + rest == high / 128 * TopBit + low;
    DivUnique(high * 0x100_0000 + rest, TopBit, high / 128, low);
  }

  /** Masking the whole word and masking only its first byte agree. */
  lemma ClearTopBitFirstByte(hash: seq<byte>, offset: nat)
    requires offset + 4 <= |hash|
    ensures ClearTopBit(ReadU32(hash, offset)) == Rfc4226BinCode(hash, offset)
  {
    ClearTopBitOfWord(hash[offset] as int, hash[offset + 1] as int * 0x1_0000
                      + hash[offset + 2] as int * 0x100 + hash[offset + 3] as int);
  }

  /** The source's mask on the assembled word: `u32::from_be_bytes` of four
      bytes, then `& 0x7FFFFFFF`, as a 32-bit bit-vector. Its value is the
      first byte reduced modulo 128 followed by the other three. */
  lemma MaskedWordValue(b0: bv8, b1: bv8, b2: bv8, b3: bv8)
    ensures var w: bv32 := (b0 as bv32 << 24) | (b1 as bv32 << 16) | (b2 as bv32 << 8) | b3 as bv32;
            (w & 0x7FFF_FFFF) as int
            == b0 as int % 128 * 0x100_0000 + b1 as int * 0x1_0000 + b2 as int * 0x100 + b3 as int
  {
  }

  /** The bitwise `slice & 0x7FFFFFFF` of the source is exactly
      `ClearTopBit(ReadU32(..))`, the residue the model computes. */
  lemma MaskIsClearTopBit(hash: seq<byte>, offset: nat, b0: bv8, b1: bv8, b2: bv8, b3: bv8)
    requires offset + 4 <= |hash|
    requires hash[offset] == b0 as int && hash[offset + 1] == b1 as int
    requires hash[offset + 2] == b2 as int && hash[offset + 3] == b3 as int
    ensures var w: bv32 := (b0 as bv32 << 24) | (b1 as bv32 << 16) | (b2 as bv32 << 8) | b3 as bv32;
            (w & 0x7FFF_FFFF) as int == ClearTopBit(ReadU32(hash, offset))
  {
    MaskedWordValue(b0, b1, b2, b3);
    ClearTopBitFirstByte(hash, offset);
  }

  /** The bitwise formula of section 5.3 of RFC 4226, `(b[o] & 0x7f) << 24 |
      b[o+1] << 16 | b[o+2] << 8 | b[o+3]`, has the value `Rfc4226BinCode`
      writes arithmetically. */
  lemma RfcBitwiseIsBinCode(hash: seq<byte>, offset: nat, b0: bv8, b1: bv8, b2: bv8, b3: bv8)
    requires offset + 4 <= |hash|
    requires hash[offset] == b0 as int && hash[offset + 1] == b1 as int
    requires hash[offset + 2] == b2 as int && hash[offset + 3] == b3 as int
    ensures var w: bv32 := ((b0 & 0x7F) as bv32 << 24) | (b1 as bv32 << 16) | (b2 as bv32 << 8) | b3 as bv32;
            w as int == Rfc4226BinCode(hash, offset)
  {
  }

  /** `dynamic_truncate`; the two panics of the source become failures. On
      success the value is the RFC 4226 reference code, below 2^31. */
  function DynamicTruncate(hash: seq<byte>): (r: Result<u32, TruncateError>)
    ensures r.Success? <==> Truncatable(hash)
    ensures |hash| == 0 ==> r == Failure(EmptyHash)
    ensures |hash| > 0 && !Truncatable(hash) ==>
      r == Failure(SliceOutOfRange(Offset(hash[|hash| - 1]), |hash|))
    ensures r.Success? ==> r.value < TopBit
    ensures r.Success? ==> r.value == Rfc4226BinCode(hash, Offset(hash[|hash| - 1]))
  {
    if |hash| == 0 then Failure(EmptyHash)
    else
      var offset := Offset(hash[|hash| - 1]);
      if offset + 4 > |hash| then Failure(SliceOutOfRange(offset, |hash|))
      else
        ClearTopBitFirstByte(hash, offset);
        Success(ClearTopBit(ReadU32(hash, offset)))
  }

  /** Offsets never exceed 15, so any digest of at least 19 bytes -- the
      20-byte HMAC-SHA-1 digest in particular -- is always truncatable. */
  lemma LongDigestTruncatable(hash: seq<byte>)
    requires |hash| >= 19
    ensures DynamicTruncate(hash).Success?
  {
  }

  /** The bound is tight: an 18-byte digest whose last byte selects offset
      15 is refused. */
  lemma ShortDigestRefused(hash: seq<byte>)
    requires |hash| == 18 && hash[17] == 0x0F
    ensures DynamicTruncate(hash) == Failure(SliceOutOfRange(15, 18))
  {
  }
}
