/** Integer facts the gradient and rotation proofs share. */
module Arith {

  /** Multiplying by a non-negative factor keeps the order. */
  lemma MulMono(d: int, a: int, b: int)
    requires d >= 0 && a <= b
    ensures d * a <= d * b
  {
    assert d * b - d * a == d * (b - a);
  }

  /** The remainder is determined by any quotient/remainder split of `x`. */
  lemma ModUnique(x: int, n: int, q: int, r: int)
    requires n > 0 && 0 <= r < n && x == q * n + r
    ensures x % n == r
  {
    var q', r' := x / n, x % n;
    assert x == q' * n + r';
    assert (q - q') * n == r' - r;
    if q > q' {
      MulMono(n, 1, q - q');
    } else if q < q' {
      MulMono(n, 1, q' - q);
    }
  }

  /** Adding or removing whole multiples of `n` does not change the remainder. */
  lemma ModMultiple(x: int, q: int, n: int)
    requires n > 0
    ensures (x - q * n) % n == x % n
  {
    var q', r' := x / n, x % n;
    assert x == q' * n + r';
    assert x - q * n == (q' - q) * n + r';
    ModUnique(x - q * n, n, q' - q, r');
  }
}
