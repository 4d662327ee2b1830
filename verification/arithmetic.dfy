/** Facts about integer division that the byte and digit encodings share. */
module Arithmetic {

  lemma MulAtLeast(k: int, d: nat)
    requires k >= 1
    ensures k * d >= d
  {
    assert k * d == (k - 1) * d + d;
  }

  lemma MulSign(k: int, d: nat)
    ensures k >= 1 ==> k * d >= d
    ensures k <= -1 ==> k * d <= -(d as int)
  {
    if k >= 1 {
      MulAtLeast(k, d);
    } else if k <= -1 {
      MulAtLeast(-k, d);
    }
  }

  /** The quotient is the unique `q` with `n == q * d + r` and `0 <= r < d`. */
  lemma DivUnique(n: nat, d: nat, q: nat, r: nat)
    requires 0 <= r < d
    requires n == q * d + r
    ensures n / d == q
    ensures n % d == r
  {
    assert n == n / d * d + n % d;
    assert (n / d - q) * d == r - n % d;
    MulSign(n / d - q, d);
  }

  /** Dividing by `a` keeps a number below `a * b` below `b`. */
  lemma DivBelow(n: nat, a: nat, b: nat)
    requires a > 0
    requires n < a * b
    ensures n / a < b
  {
    assert n / a * a <= n;
    assert n / a * a < b * a;
  }

  /** `n == q * d + n % d` with the quotient named. */
  lemma DivMod(n: nat, d: nat)
    requires d > 0
    ensures n == n / d * d + n % d
    ensures 0 <= n % d < d
  {
  }

  lemma Regroup(q: nat, a: nat, b: nat, s: nat, t: nat)
    ensures q * (a * b) + (s * a + t) == (q * b + s) * a + t
  {
    assert q * (a * b) == (q * b) * a;
    assert (q * b) * a + s * a == (q * b + s) * a;
  }

  /** Dividing by `a` and then by `b` is dividing by `a * b`. */
  lemma DivDiv(n: nat, a: nat, b: nat)
    requires a > 0 && b > 0
    ensures n / a / b == n / (a * b)
  {
    MulSign(b, a);
    var q := n / (a * b);
    var r := n % (a * b);
    DivMod(n, a * b);
    var s := r / a;
    var t := r % a;
    DivMod(r, a);
    DivBelow(r, a, b);
    Regroup(q, a, b, s, t);
    DivUnique(n, a, q * b + s, t);
    DivUnique(n / a, b, q, s);
  }
}
