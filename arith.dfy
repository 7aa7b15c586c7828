/** Integer division facts that the solver does not find by itself. */
module Arith {

  lemma {:induction false} MulAtLeast(d: int, k: int)
    requires d > 0 && k >= 1
    ensures d * k >= d
    decreases k
  {
    if k > 1 {
      MulAtLeast(d, k - 1);
      assert d * k == d * (k - 1) + d;
    }
  }

  lemma MulStep(d: int, a: int, b: int)
    requires d > 0 && a < b
    ensures d * a + d <= d * b
  {
    var k := b - a;
    assert d * b == d * a + d * k;
    MulAtLeast(d, k);
  }

  /** Euclidean division is determined by the quotient-remainder equation. */
  lemma DivModUnique(x: int, d: int, q: int, r: int)
    requires d > 0 && 0 <= r < d && x == d * q + r
    ensures x / d == q && x % d == r
  {
    var q', r' := x / d, x % d;
    assert x == d * q' + r' && 0 <= r' < d;
    if q' < q {
      MulStep(d, q', q);
    } else if q < q' {
      MulStep(d, q, q');
    }
  }

  /** Subtracting the divisor keeps the remainder. */
  lemma ModShift(x: int, d: int)
    requires d > 0
    ensures (x - d) % d == x % d
  {
    DivModUnique(x - d, d, x / d - 1, x % d);
  }

  /** `(x + d - 1) / d` is the ceiling of x / d: the k with (k - 1) * d < x <= k * d. */
  lemma CeilingDiv(x: int, d: int, k: int)
    requires d > 0 && (k - 1) * d < x <= k * d
    ensures (x + d - 1) / d == k
  {
    assert (k - 1) * d == k * d - d;
    DivModUnique(x + d - 1, d, k, x + d - 1 - d * k);
  }
}
