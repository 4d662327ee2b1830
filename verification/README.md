# TOTP code generation, modelled in Dafny

This project models the code generator of the `topt` crate (`src/lib.rs`),
which produces the six-digit Time-based One-Time Passwords of RFC 6238 on
top of the HMAC-based One-Time Password algorithm of RFC 4226. `topt(epoch_sec,
key)` performs four steps:

1. **Time step.** `epoch_sec / F` with `F = 30`, using unsigned floor
   division, encoded as the 8-byte big-endian counter by `i2b_time`
   (section 4.2 of RFC 6238 and section 5.1 of RFC 4226).
2. **HMAC.** `lib_hmac(key, counter)`, HMAC-SHA-1, returns a 20-byte digest.
3. **Dynamic truncation.** `dynamic_truncate` (section 5.3 of RFC 4226).
   The low nibble of the last digest byte selects an offset. The four bytes
   there are read as a big-endian `u32`, and bit 31 is cleared.
4. **Formatting.** The result is reduced modulo `10^DIGITS` (`DIGITS = 6`)
   and rendered with `format!("{:06}", ..)`.

Modules, one per component:

- `Arithmetic` (arithmetic.dfy): division facts shared by the byte and digit
  encodings.
- `BigEndian` (big_endian.dfy): byte strings as unsigned integers, most
  significant byte first, and their inverse encoding.
- `TimeStep` (time_step.dfy): `F`, the step count and `i2b_time`.
- `Results` (results.dfy): the `Success`/`Failure` result type. The source's
  panics are modelled as `Failure` values.
- `Truncation` (truncation.dfy): `dynamic_truncate` and the RFC 4226
  reference formula it is proved equal to.
- `Decimal` (decimal.dfy): decimal rendering, zero padding, and reading a
  digit string back as a number.
- `Totp` (totp.dfy): `topt`, the known-answer vector, and the properties of
  the whole pipeline.

Modelling decisions:

- A byte is an integer in `0..255`.
  - `v & 0xF` on a `u8` is written `v % 16`. `LowNibbleMask` proves that the
    bit-vector mask on `bv8` equals that residue.
  - The RFC's `& 0x7f` on the first selected byte is written `% 128`.
    `LowSevenBitsMask` proves the same for that mask.
  - `& 0x7FFFFFFF` on a `u32` is written `% 2^31`, because bit 31 carries
    weight 2^31. `MaskIsClearTopBit` proves that the source's bitwise mask on
    the 32-bit word assembled from the four bytes has that value.
    `ClearTopBitFirstByte` proves that the residue equals the RFC's
    formulation, which masks only the first of the four bytes.
  - The RFC's shifts and ORs (`<< 24 | ...`) combine bytes whose bits do not
    overlap. `Rfc4226BinCode` writes them as multiplication by powers of 256
    and addition, and `RfcBitwiseIsBinCode` proves that the bitwise form has
    the same value.
- `u64` and `u32` are bounded integer subset types. Division of two unsigned
  values floors, which matches Dafny's `/` on naturals. `(10 as u32).pow(6)`
  and every intermediate value fit their Rust types, so nothing wraps.
- HMAC-SHA-1 is a parameter of `Topt`. It is a total function from
  (key, message) to a 20-byte `Digest`, and its internals are not modelled.
- `dynamic_truncate` panics in two places:
  - `.expect("invalid hash received")` on an empty digest becomes
    `Failure(EmptyHash)`;
  - an out-of-range slice `hash[offset..offset + 4]` becomes
    `Failure(SliceOutOfRange(offset, len))`.

  `Topt` never reaches either failure, because `LongDigestTruncatable` shows
  that any digest of at least 19 bytes is accepted.
- The comment at src/lib.rs:16 says the time is rounded "to nearest 30 sec".
  The code floors, so the model floors (`StepOf`).
- RFC 4226 does not define truncation of a digest too short for its
  offset. `dynamic_truncate` panics in that case, so the model has two
  failure causes and no check on the key.

## Model

| member | source | states |
|---|---|---|
| TimeStep.StepOf | src/lib.rs:12-17 | the step is the floor of `epoch_sec / 30`: `t * 30 <= epoch_sec < (t + 1) * 30`, so the time is rounded down, not to the nearest step |
| BigEndian.FromNat | src/lib.rs:42-44 | the big-endian encoding has exactly `width` bytes and decodes back to the number it encodes |
| BigEndian.FromNatToNat | src/lib.rs:42-44 | decoding and re-encoding at the same width returns the original bytes, so the encoding is a bijection onto fixed-width strings |
| BigEndian.ToNatInjective | src/lib.rs:42-44 | two byte strings of equal width are equal exactly when they decode to the same number |
| BigEndian.FromNatByte | src/lib.rs:43 | byte `i` of a `width`-byte encoding is base-256 digit `width - 1 - i`, so the most significant byte comes first |
| TimeStep.I2bTime | src/lib.rs:42-44 | `i2b_time` returns exactly 8 bytes, whose big-endian value is the input `u64` |
| TimeStep.I2bTimeBytes | src/lib.rs:42-44 | byte `i` of `i2b_time(t)` is `t / 256^(7-i) % 256`, most significant first, whatever the host byte order |
| TimeStep.CounterBytes | src/lib.rs:17 | the counter for a time is 8 bytes, and the number they encode is the step containing that time |
| TimeStep.SameCounterIffSameStep | src/lib.rs:15-17 | two times give the same counter bytes exactly when `t1 / 30 == t2 / 30` |
| TimeStep.NextStepNewCounter | src/lib.rs:17 | a time and the time 30 seconds later never share counter bytes |
| Truncation.Offset | src/lib.rs:24-27 | the offset taken from the last byte is always below 16 |
| Truncation.LowNibbleMask | src/lib.rs:26 | `v & 0xF` on a `u8` equals the offset the model computes |
| Truncation.OffsetIsLowNibble | src/lib.rs:24-26 | a last byte `0x?A` selects offset `A`, whatever its high nibble |
| Truncation.ReadU32 | src/lib.rs:29 | `u32::from_be_bytes` of the slice is `b0*2^24 + b1*2^16 + b2*2^8 + b3` |
| Truncation.ClearTopBit | src/lib.rs:31-32 | the masked word is below 2^31; `MaskIsClearTopBit` shows it is the value of `slice & 0x7FFFFFFF` |
| Truncation.ClearTopBitFirstByte | src/lib.rs:29-32 | for every digest and in-range offset, the four-byte word reduced modulo 2^31 equals the RFC 4226 formula that masks the first byte with `0x7f` |
| Truncation.MaskIsClearTopBit | src/lib.rs:29-32 | the bitwise `u32::from_be_bytes(..) & 0x7FFFFFFF` on the four bytes at the offset has exactly the value `ClearTopBit(ReadU32(..))` |
| Truncation.RfcBitwiseIsBinCode | src/lib.rs:29-32 | the RFC 4226 bitwise formula, `(b0 & 0x7f) << 24` OR-ed with `b1 << 16`, `b2 << 8` and `b3`, has exactly the value of `Rfc4226BinCode` |
| Truncation.DynamicTruncate | src/lib.rs:23-33 | succeeds exactly when the digest is non-empty and `offset + 4 <= len`; otherwise it fails with the matching panic cause (empty digest, or slice out of range). On success the value is below 2^31 and equals the RFC 4226 reference code |
| Truncation.LongDigestTruncatable | src/lib.rs:24-29 | every digest of at least 19 bytes, including the 20-byte SHA-1 digest, is truncated without failure |
| Truncation.ShortDigestRefused | src/lib.rs:29 | the 19-byte bound is tight: an 18-byte digest ending in `0x0F` fails with a slice out of range at offset 15 |
| Decimal.ToDecimal | src/lib.rs:20 | the rendering is a non-empty digit string that reads back as `n`; it starts with `'0'` only for zero, and it is the shortest such string |
| Decimal.DecimalFits | src/lib.rs:20 | a value below 10^k renders in at most max(k, 1) digits |
| Decimal.FormatZeroPadded | src/lib.rs:20 | `{:0width}` gives all digits, reads back as `n`, and is at least `width` long; exactly `width` long when `0 < width` and `n < 10^width`; and when longer than `width` it is the plain decimal rendering, with no zeros added |
| Decimal.ValueInjective | src/lib.rs:20 | digit strings of equal length are equal exactly when they have the same value |
| Decimal.LeadingZeroIffShort | src/lib.rs:20 | a padded rendering starts with `'0'` exactly when the value is below 10^(width-1), so leading zeros are kept |
| Decimal.FormatIsOnlyRendering | src/lib.rs:20 | a value below 10^width has exactly one `width`-digit rendering, and the padded format produces it |
| Totp.ModulusValue | src/lib.rs:13-20 | `10.pow(DIGITS)` is 1 000 000 |
| Totp.Topt | src/lib.rs:15-21 | the code is exactly 6 ASCII digits. Its value is the RFC 4226 truncation of `hmac(key, counter(t))`, reduced modulo 10^6 |
| Totp.ToptUnique | src/lib.rs:15-21 | the code is the only 6-digit string with that value, so the contract of `Topt` determines it completely |
| Totp.ToptDependsOnlyOnDigest | src/lib.rs:15-21 | two calls return the same code exactly when their digests give the same code value, whatever the times, keys or HMACs |
| Totp.ToptSameStep | src/lib.rs:15-20 | all times in one 30-second step give the same code |
| Totp.ToptLeadingZero | src/lib.rs:20 | the code starts with `'0'` exactly when its value is below 100 000 |
| Totp.KnownAnswerTruncation | src/lib.rs:68-75 | the test digest `1f 86 … 55 5a` truncates to `0x50ef7f19` |
| Totp.KnownAnswerFormat | src/lib.rs:76-79 | `0x50ef7f19 % 10^6`, zero-padded to 6, is `"872921"` |
| Totp.ToptKnownAnswer | src/lib.rs:15-21 | any call whose HMAC yields the test digest returns `"872921"` |

## Left out

- `lib_hmac` (src/lib.rs:36-40): HMAC-SHA-1 comes from the external `crypto`
  crate. It is a parameter of `Topt`, and only its 20-byte output length is
  relied on.
- `google_auth_compat` (src/lib.rs:46-48): Base32 encoding by the external
  `data_encoding` crate, outside the code generator.
- `show_qr_code` (src/lib.rs:50-60): QR rendering through the `qrcode` crate
  and terminal output.
- The `topt_works` test (src/lib.rs:82-93): it reads the system clock, is
  ignored, and compares against a placeholder string.
- The `unsafe transmute` of `to_be()` (src/lib.rs:43): memory reinterpretation
  is not modelled. Only its meaning is: the bytes of the `u64`, most
  significant first.
- `.try_into().expect("invalid slice")` (src/lib.rs:29): this conversion
  cannot fail, because the slice is exactly four bytes long once the range
  is in bounds. It has no failure case of its own.
