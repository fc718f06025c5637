/** The few facts about products, quotients and remainders that the proofs lean on. */
module Arithmetic {

  lemma MulMono(a: int, b: int, c: int)
    requires a <= b && 0 <= c
    ensures a * c <= b * c
  {}

  lemma CancelLess(a: int, b: int, c: int)
    requires a * c < b * c && 0 <= c
    ensures a < b
  {
    if b <= a { MulMono(b, a, c); }
  }

  lemma DivBounds(x: int, d: int)
    requires 0 < d
    ensures x / d * d <= x < (x / d + 1) * d
    ensures (x / d + 1) * d == x / d * d + d
  {}

  lemma DivMono(x: int, y: int, d: int)
    requires x <= y && 0 < d
    ensures x / d <= y / d
  {
    DivBounds(x, d);
    DivBounds(y, d);
    CancelLess(x / d, y / d + 1, d);
  }

  lemma DivOfMultiple(q: int, d: int)
    requires 0 < d
    ensures q * d / d == q
  {
    DivBounds(q * d, d);
    CancelLess(q, q * d / d + 1, d);
    CancelLess(q * d / d, q + 1, d);
  }

  /** Two floors lose at most one unit against the floor of the sum, and never gain. */
  lemma FloorOfSum(p: int, q: int, d: int)
    requires 0 < d
    ensures (p + q) / d - 1 <= p / d + q / d <= (p + q) / d
  {
    var a, b, c := p / d, q / d, (p + q) / d;
    DivBounds(p, d);
    DivBounds(q, d);
    DivBounds(p + q, d);
    assert (a + b) * d == a * d + b * d;
    assert (a + b + 2) * d == a * d + b * d + d + d;
    CancelLess(a + b, c + 1, d);
    CancelLess(c, a + b + 2, d);
  }

  lemma MulAssoc(x: int, y: int, z: int)
    ensures x * y * z == x * (y * z)
  {}

  lemma Distribute(x: int, p: int, y: int, q: int)
    ensures (x * p + y) * q == x * (p * q) + y * q
  {
    assert (x * p + y) * q == x * p * q + y * q;
    assert x * p * q == x * (p * q);
  }
}
