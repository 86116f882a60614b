/** Division as in C, and as in mathematics. */
module Arithmetic {

  /** Division as in C: truncated towards zero, so that the remainder has the sign of the dividend. */
  function Quot(a: int, b: int): int
    requires b > 0
  {
    if a >= 0 then a / b else -(-a / b)
  }

  function Rem(a: int, b: int): int
    requires b > 0
  {
    a - Quot(a, b) * b
  }

  /** Quotient and remainder are determined by their defining equation. */
  lemma Unique(a: int, n: int, q: int, r: int)
    requires n > 0 && a == n * q + r && 0 <= r < n
    ensures a / n == q && a % n == r
  {
    var d := a / n - q;
    assert n * d == r - a % n;
    assert -n < n * d < n;
    if d != 0 {
      Grows(n, d);
    }
  }

  lemma Grows(n: int, d: int)
    requires n > 0 && d != 0
    ensures n * d >= n || n * d <= -n
  {
    if d > 0 {
      assert n * (d - 1) >= 0;
    } else {
      assert n * (-d - 1) >= 0;
    }
  }
}
