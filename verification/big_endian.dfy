/** Unsigned integers as fixed-width byte strings, most significant byte first
    ("network byte order"), the encoding RFC 4226 prescribes for the HOTP
    counter (section 5.1) and the one `u32::from_be_bytes` reads. */
module BigEndian {

  import opened Arithmetic

  /** An octet, Rust's `u8`, as the number it holds. */
  type byte = x: int | 0 <= x < 256

  /** 256^k: how many distinct values a k-byte string can hold. */
  function Pow256(k: nat): (p: nat)
    ensures p > 0
  {
    if k == 0 then 1 else 256 * Pow256(k - 1)
  }

  /** The unsigned integer a byte string denotes, most significant byte first. */
  function ToNat(s: seq<byte>): (n: nat)
    ensures n < Pow256(|s|)
  {
    if |s| == 0 then 0
    else
      var high := ToNat(s[..|s| - 1]);
      assert high * 256 + 255 < Pow256(|s|) by {
        assert high + 1 <= Pow256(|s| - 1);
        assert (high + 1) * 256 <= Pow256(|s| - 1) * 256;
      }
      high * 256 + s[|s| - 1]
  }

  /** The `width`-byte big-endian encoding of `n`; it exists exactly when
      `n` fits in `width` bytes. */
  function FromNat(n: nat, width: nat): (s: seq<byte>)
    requires n < Pow256(width)
    ensures |s| == width
    ensures ToNat(s) == n
  {
    if width == 0 then []
    else
      DivBelow(n, 256, Pow256(width - 1));
      var high := FromNat(n / 256, width - 1);
      var s := high + [n % 256];
      assert s[..|s| - 1] == high;
      assert n == n / 256 * 256 + n % 256;
      s
  }

  /** Division facts for splitting off the last byte. */
  lemma SplitLastByte(q: nat, b: nat)
    requires b < 256
    ensures (q * 256 + b) / 256 == q
    ensures (q * 256 + b) % 256 == b
  {
    DivUnique(q * 256 + b, 256, q, b);
  }

  /** Decoding then re-encoding at the same width gives the bytes back, so
      together with `FromNat`'s contract the encoding is a bijection between
      `width`-byte strings and the naturals below 256^width. */
  lemma {:induction false} FromNatToNat(s: seq<byte>)
    ensures FromNat(ToNat(s), |s|) == s
  {
    if |s| > 0 {
      var init := s[..|s| - 1];
      var last := s[|s| - 1];
      SplitLastByte(ToNat(init), last);
      FromNatToNat(init);
      assert s == init + [last];
    }
  }

  /** Two byte strings of equal width are equal exactly when they denote the
      same number. */
  lemma ToNatInjective(s: seq<byte>, t: seq<byte>)
    requires |s| == |t|
    ensures ToNat(s) == ToNat(t) <==> s == t
  {
    if ToNat(s) == ToNat(t) {
      FromNatToNat(s);
      FromNatToNat(t);
    }
  }

  /** Byte `i` of the encoding carries digit `width - 1 - i` of `n` in base
      256: the most significant digit comes first. */
  lemma {:induction false} FromNatByte(n: nat, width: nat, i: nat)
    requires n < Pow256(width)
    requires i < width
    ensures FromNat(n, width)[i] == n / Pow256(width - 1 - i) % 256
  {
    if i < width - 1 {
      assert n / 256 < Pow256(width - 1);
      FromNatByte(n / 256, width - 1, i);
      DivDiv(n, 256, Pow256(width - 2 - i));
    }
  }
}
