/** Facts about products and quotients. */
module Arithmetic {
  lemma Monotone(a: int, b: int, c: int)
    requires a <= b && 0 <= c
    ensures a * c <= b * c
  {
    assert (b - a) * c == b * c - a * c;
  }

  lemma AtLeast(k: nat, c: nat)
    requires k >= 1
    ensures k * c >= c
  {
    assert k * c == (k - 1) * c + c;
  }

  lemma Quotient(n: nat, c: nat, q: nat, r: nat)
    requires n == q * c + r && r < c
    ensures n / c == q && n % c == r
  {
    var p := n / c;
    assert (p - q) * c == r - n % c;
    if p < q {
      AtLeast(q - p, c);
    } else if p > q {
      AtLeast(p - q, c);
    }
  }
}
