/** Small facts about products and Euclidean division used by the grid
    enumeration and the state map. */
module Arith {

  /** A product with a factor of magnitude at least one is at least as
      large in magnitude as the other, non-negative factor. */
  lemma MulBounds(k: int, b: int)
    requires b >= 0
    ensures k >= 0 ==> k * b >= 0
    ensures k >= 1 ==> k * b >= b
    ensures k <= -1 ==> k * b <= -b
  {
    if k >= 1 {
      assert k * b == (k - 1) * b + b;
    } else if k <= -1 {
      assert k * b == (k + 1) * b - b;
    }
  }

  /** Quotient and remainder are the unique `q`, `r` with
      `x == q * n + r` and `0 <= r < n`. */
  lemma DivModUnique(x: int, n: int, q: int, r: int)
    requires n > 0 && 0 <= r < n && x == q * n + r
    ensures x / n == q && x % n == r
  {
    var d, m := x / n, x % n;
    assert (d - q) * n == r - m;
    MulBounds(d - q, n);
  }
}
