/** Decimal rendering of unsigned integers, as Rust's `Display` and the
    zero-padding flag of `format!("{:06}", ..)` produce it, together with
    the reading of a digit string back into a number. */
module Decimal {

  import opened Arithmetic

  predicate IsDigit(c: char) {
    '0' <= c <= '9'
  }

  predicate AllDigits(s: string) {
    forall i :: 0 <= i < |s| ==> IsDigit(s[i])
  }

  function Pow10(k: nat): (p: nat)
    ensures p > 0
  {
    if k == 0 then 1 else 10 * Pow10(k - 1)
  }

  lemma {:induction false} Pow10Monotonic(j: nat, k: nat)
    ensures j <= k ==> Pow10(j) <= Pow10(k)
  {
    if j < k {
      Pow10Monotonic(j, k - 1);
    }
  }

  function DigitValue(c: char): (d: nat)
    requires IsDigit(c)
    ensures d < 10
  {
    c as int - '0' as int
  }

  function DigitChar(d: nat): (c: char)
    requires d < 10
    ensures IsDigit(c) && DigitValue(c) == d
  {
    (d + '0' as int) as char
  }

  /** The number a digit string denotes, most significant digit first. */
  function Value(s: string): (n: nat)
    requires AllDigits(s)
    ensures n < Pow10(|s|)
  {
    if |s| == 0 then 0
    else
      var high := Value(s[..|s| - 1]);
      assert high * 10 + 9 < Pow10(|s|) by {
        assert high + 1 <= Pow10(|s| - 1);
        assert (high + 1) * 10 <= Pow10(|s| - 1) * 10;
      }
      high * 10 + DigitValue(s[|s| - 1])
  }

  /** The decimal digits of `n` with no leading zero (`"0"` for zero): the
      shortest digit string denoting `n`. */
  function ToDecimal(n: nat): (s: string)
    ensures |s| >= 1 && AllDigits(s)
    ensures Value(s) == n
    ensures |s| == 1 || Pow10(|s| - 1) <= n
    ensures s[0] == '0' <==> n == 0
  {
    if n < 10 then [DigitChar(n)]
    else
      var high := ToDecimal(n / 10);
      var s := high + [DigitChar(n % 10)];
      assert s[..|s| - 1] == high;
      assert n == n / 10 * 10 + n % 10;
      s
  }

  /** A number below 10^k has at most `k` digits (at least one). */
  lemma DecimalFits(n: nat, k: nat)
    ensures n < Pow10(k) ==> |ToDecimal(n)| <= if k == 0 then 1 else k
  {
    Pow10Monotonic(k, |ToDecimal(n)| - 1);
  }

  /** A string of `k` zero characters. */
  function Zeros(k: nat): (z: string)
    ensures |z| == k && AllDigits(z)
  {
    seq(k, _ => '0')
  }

  lemma {:induction false} ValueOfZeros(k: nat)
    ensures Value(Zeros(k)) == 0
  {
    if k > 0 {
      assert Zeros(k)[..k - 1] == Zeros(k - 1);
      ValueOfZeros(k - 1);
    }
  }

  /** Leading zeros do not change the value of a digit string. */
  lemma {:induction false} ValueIgnoresLeadingZeros(k: nat, s: string)
    requires AllDigits(s)
    ensures AllDigits(Zeros(k) + s)
    ensures Value(Zeros(k) + s) == Value(s)
  {
    var padded := Zeros(k) + s;
    assert AllDigits(padded) by {
      forall i | 0 <= i < |padded|
        ensures IsDigit(padded[i])
      {
        if i >= k {
          assert padded[i] == s[i - k];
        }
      }
    }
    if |s| == 0 {
      assert padded == Zeros(k);
      ValueOfZeros(k);
    } else {
      var init := s[..|s| - 1];
      ValueIgnoresLeadingZeros(k, init);
      assert padded[..|padded| - 1] == Zeros(k) + init;
    }
  }

  /** Left-pads `s` with `'0'` up to `width` characters; longer strings are
      left alone. */
  function ZeroPad(s: string, width: nat): (r: string)
    ensures |r| == if |s| < width then width else |s|
    ensures r[|r| - |s|..] == s
    ensures forall i :: 0 <= i < |r| - |s| ==> r[i] == '0'
  {
    if |s| < width then Zeros(width - |s|) + s else s
  }

  /** `format!("{:0width$}", n)`: the decimal digits of `n`, left-padded with
      zeros to at least `width` characters. It reads back as `n`, and a value
      below 10^width fills exactly `width` characters. */
  function FormatZeroPadded(n: nat, width: nat): (r: string)
    ensures AllDigits(r)
    ensures Value(r) == n
    ensures |r| >= width
    ensures width > 0 && n < Pow10(width) ==> |r| == width
    ensures |r| > width ==> r == ToDecimal(n)
  {
    var digits := ToDecimal(n);
    ValueIgnoresLeadingZeros(if |digits| < width then width - |digits| else 0, digits);
    DecimalFits(n, width);
    ZeroPad(digits, width)
  }

  /** Two digit strings of the same length are equal exactly when they have
      the same value, so a fixed-width code is determined by its value. */
  lemma {:induction false} ValueInjective(a: string, b: string)
    requires |a| == |b| && AllDigits(a) && AllDigits(b)
    ensures Value(a) == Value(b) <==> a == b
  {
    if |a| > 0 && Value(a) == Value(b) {
      var da := DigitValue(a[|a| - 1]);
      var db := DigitValue(b[|b| - 1]);
      var va := Value(a[..|a| - 1]);
      var vb := Value(b[..|b| - 1]);
      DivUnique(Value(a), 10, va, da);
      DivUnique(Value(b), 10, vb, db);
      ValueInjective(a[..|a| - 1], b[..|b| - 1]);
      assert a == a[..|a| - 1] + [a[|a| - 1]];
      assert b == b[..|b| - 1] + [b[|b| - 1]];
    }
  }

  /** Zero-padding is kept: a fixed-width rendering starts with `'0'` exactly
      when the value has fewer digits than the width. */
  lemma LeadingZeroIffShort(n: nat, width: nat)
    requires 0 < width && n < Pow10(width)
    ensures FormatZeroPadded(n, width)[0] == '0' <==> n < Pow10(width - 1)
  {
    var digits := ToDecimal(n);
    var r := FormatZeroPadded(n, width);
    assert r == ZeroPad(digits, width);
    if |digits| < width {
      assert r[0] == '0';
      Pow10Monotonic(|digits|, width - 1);
      assert n < Pow10(width - 1);
    } else {
      DecimalFits(n, width);
      assert r == digits && |digits| == width;
      assert r[0] == '0' <==> n == 0;
    }
  }

  /** A value below 10^width has exactly one `width`-digit rendering. */
  lemma FormatIsOnlyRendering(n: nat, width: nat, s: string)
    requires 0 < width && n < Pow10(width)
    requires |s| == width && AllDigits(s) && Value(s) == n
    ensures FormatZeroPadded(n, width) == s
  {
    ValueInjective(FormatZeroPadded(n, width), s);
  }
}
