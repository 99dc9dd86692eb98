/** Quotients and remainders by a factor that is not a constant. */
module Arithmetic {
  lemma OrderedProducts(a: int, b: int, k: nat)
    requires a <= b
    ensures a * k <= b * k
  {
  }

  lemma {:induction false} Remainder(n: nat, k: nat, q: nat, r: nat)
    requires k > 0 && n == q * k + r && r < k
    ensures n % k == r && n / k == q
  {
    var a, b := n / k, n % k;
    if a < q {
      OrderedProducts(a + 1, q, k);
    } else if q < a {
      OrderedProducts(q + 1, a, k);
    }
  }

  /** A number between -n and -1 leaves the remainder it falls short of 0 by. */
  lemma {:induction false} NegativeRemainder(x: int, n: nat)
    requires 0 <= x + n < n
    ensures x % n == x + n
  {
    var q, r := x / n, x % n;
    assert x == q * n + r;
    if q >= 0 {
      OrderedProducts(0, q, n);
    } else if q <= -2 {
      OrderedProducts(q, -2, n);
    }
  }
}
