/** Facts about integer multiplication and division that the coordinate and base64 proofs need. */
module Arith {

  lemma MulMono(a: int, b: int, n: int)
    requires 0 <= a <= b && 0 <= n
    ensures a * n <= b * n
  {
  }

  lemma {:induction false} MulAtLeast(k: int, n: int)
    requires k >= 1 && n >= 0
    ensures k * n >= n
    decreases k
  {
    if k > 1 {
      MulAtLeast(k - 1, n);
      assert k * n == (k - 1) * n + n;
    }
  }

  /** Quotient and remainder are unique: what every inversion of a packed value rests on. */
  lemma DivModUnique(a: int, n: int, q: int, r: int)
    requires 0 <= r < n && a == q * n + r
    ensures a / n == q && a % n == r
  {
    var q' := a / n;
    var r' := a % n;
    assert (q' - q) * n == r - r' by {
      assert (q' - q) * n == q' * n - q * n;
    }
    if q' - q >= 1 {
      MulAtLeast(q' - q, n);
    } else if q - q' >= 1 {
      MulAtLeast(q - q', n);
    }
  }
}
