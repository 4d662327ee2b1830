/** The TOTP code generator of RFC 6238 (`topt` in src/lib.rs): time step,
    HMAC of the step counter, dynamic truncation, and a six-digit decimal
    rendering. */
module Totp {

  import opened BigEndian
  import opened TimeStep
  import opened Truncation
  import opened Results
  import opened Decimal

  /** `DIGITS`: how many decimal digits a code keeps. */
  const Digits: nat := 6

  /** The width of the `{:06}` format, written separately from `DIGITS`. */
  const PadWidth: nat := 6

  /** An HMAC-SHA-1 digest is 160 bits long. */
  const DigestLength: nat := 20

  type Digest = d: seq<byte> | |d| == DigestLength witness seq(20, _ => 0)

  /** HMAC-SHA-1 keyed by its first argument over its second (`lib_hmac`).
      Its internals are not modelled: only its output length is relied on. */
  type Hmac = (seq<byte>, seq<byte>) -> Digest

  /** The number a code stands for, by the reference formulas of RFC 4226:
      the section 5.3 truncation of the digest, reduced modulo 10^6. */
  function CodeValue(digest: Digest): nat
  {
    Rfc4226BinCode(digest, Offset(digest[DigestLength - 1])) % 1_000_000
  }

  lemma ModulusValue()
    ensures Pow10(Digits) == 1_000_000
  {
  }

  /** `topt`: the code for the time step containing `epochSec`. It is six
      ASCII digits, leading zeros included, whose value is the RFC 4226 code
      of the HMAC of the big-endian counter for that step. */
  function Topt(epochSec: u64, key: seq<byte>, hmac: Hmac): (code: string)
    ensures |code| == Digits && AllDigits(code)
    ensures Value(code) == CodeValue(hmac(key, CounterBytes(epochSec)))
  {
    var hash := hmac(key, CounterBytes(epochSec));
    var truncated := DynamicTruncate(hash).value;
    ModulusValue();
    FormatZeroPadded(truncated % Pow10(Digits), PadWidth)
  }

  /** The contract of `Topt` pins the code down completely: it is the only
      six-digit string with that value. */
  lemma ToptUnique(epochSec: u64, key: seq<byte>, hmac: Hmac, s: string)
    requires |s| == Digits && AllDigits(s)
    ensures Topt(epochSec, key, hmac) == s <==>
      Value(s) == CodeValue(hmac(key, CounterBytes(epochSec)))
  {
    ValueInjective(Topt(epochSec, key, hmac), s);
  }

  /** The code depends on nothing but the digest of the counter: two calls
      agree exactly when their digests give the same code value, whatever the
      times, keys or HMACs involved. */
  lemma ToptDependsOnlyOnDigest(t1: u64, key1: seq<byte>, hmac1: Hmac,
                                t2: u64, key2: seq<byte>, hmac2: Hmac)
    ensures Topt(t1, key1, hmac1) == Topt(t2, key2, hmac2) <==>
      CodeValue(hmac1(key1, CounterBytes(t1))) == CodeValue(hmac2(key2, CounterBytes(t2)))
  {
    ValueInjective(Topt(t1, key1, hmac1), Topt(t2, key2, hmac2));
  }

  /** Every instant of one 30-second step yields the same code. */
  lemma ToptSameStep(t1: u64, t2: u64, key: seq<byte>, hmac: Hmac)
    requires t1 / StepSeconds == t2 / StepSeconds
    ensures Topt(t1, key, hmac) == Topt(t2, key, hmac)
  {
    SameCounterIffSameStep(t1, t2);
  }

  /** The code begins with `'0'` exactly when its value is below 10^5: the
      padding is part of the code. */
  lemma ToptLeadingZero(epochSec: u64, key: seq<byte>, hmac: Hmac)
    ensures Topt(epochSec, key, hmac)[0] == '0' <==>
      CodeValue(hmac(key, CounterBytes(epochSec))) < 100_000
  {
    var hash := hmac(key, CounterBytes(epochSec));
    ModulusValue();
    LeadingZeroIffShort(DynamicTruncate(hash).value % Pow10(Digits), PadWidth);
  }

  /** The digest of the known-answer test in src/lib.rs. */
  const KnownDigest: Digest :=
    [0x1f, 0x86, 0x98, 0x69, 0x0e, 0x02, 0xca, 0x16, 0x61, 0x85,
     0x50, 0xef, 0x7f, 0x19, 0xda, 0x8e, 0x94, 0x5b, 0x55, 0x5a]

  /** Its last byte 0x5a selects offset 10, where `50 ef 7f 19` sits. */
  lemma KnownAnswerTruncation()
    ensures DynamicTruncate(KnownDigest) == Success(0x50ef7f19)
  {
  }

  lemma ValueOfKnownCode()
    ensures AllDigits("872921") && Value("872921") == 872921
  {
    assert "8"[..0] == [];
    assert Value("8") == 8;
    assert "87"[..1] == "8";
    assert Value("87") == 87;
    assert "872"[..2] == "87";
    assert Value("872") == 872;
    assert "8729"[..3] == "872";
    assert Value("8729") == 8729;
    assert "87292"[..4] == "8729";
    assert Value("87292") == 87292;
    assert "872921"[..5] == "87292";
  }

  /** 0x50ef7f19 is 1357872921, whose last six digits are "872921". */
  lemma KnownAnswerFormat()
    ensures FormatZeroPadded(0x50ef7f19 % Pow10(Digits), PadWidth) == "872921"
  {
    ModulusValue();
    assert 0x50ef7f19 % Pow10(Digits) == 872921;
    ValueOfKnownCode();
    FormatIsOnlyRendering(872921, PadWidth, "872921");
  }

  /** Any call whose HMAC produces the known digest returns "872921". */
  lemma ToptKnownAnswer(epochSec: u64, key: seq<byte>, hmac: Hmac)
    requires hmac(key, CounterBytes(epochSec)) == KnownDigest
    ensures Topt(epochSec, key, hmac) == "872921"
  {
    KnownAnswerTruncation();
    KnownAnswerFormat();
  }
}
