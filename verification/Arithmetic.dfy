/** Division facts the solver does not find on its own. */
module Arithmetic {

  lemma ProductAtLeast(d: nat, k: nat)
    requires k > 0
    ensures d * k >= d
  {
    var rest := k - 1;
    assert d * k == d * rest + d && d * rest >= 0;
  }

  lemma Quotient(x: int, d: nat, q: int, r: int)
    requires 0 <= r < d && x == d * q + r
    ensures x / d == q && x % d == r
  {
    var q', r' := x / d, x % d;
    assert x == d * q' + r';
    if q' > q {
      ProductAtLeast(d, q' - q);
    } else if q' < q {
      ProductAtLeast(d, q - q');
    }
  }

  lemma Shift(x: int, k: int, d: nat)
    requires d > 0
    ensures (x + k * d) / d == x / d + k && (x + k * d) % d == x % d
  {
    var q, r := x / d, x % d;
    assert x + k * d == d * (q + k) + r;
    Quotient(x + k * d, d, q + k, r);
  }
}
