/** Multiplication and division by variables, in small steps. */
module Arith {

  lemma Euclid(x: nat, d: nat)
    requires d > 0
    ensures x / d * d + x % d == x && 0 <= x % d < d
  {
  }

  lemma MulMono(a: nat, b: nat, d: nat)
    requires a <= b
    ensures a * d <= b * d
  {
  }

  lemma MulOrder(a: nat, b: nat, d: nat)
    requires a * d < b * d
    ensures a < b
  {
    if b <= a { MulMono(b, a, d); }
  }

  lemma Distrib(x: nat, y: nat, d: nat)
    ensures (x + y) * d == x * d + y * d
  {
  }

  lemma OneQuotient(x: nat, d: nat, k: nat, q: nat)
    requires k * d <= x < k * d + d && q * d <= x < q * d + d
    ensures k <= q
  {
    Distrib(q, 1, d);
    MulOrder(k, q + 1, d);
  }

  lemma QuotIs(x: nat, d: nat, q: nat)
    requires d > 0 && q * d <= x < q * d + d
    ensures x / d == q
  {
    Euclid(x, d);
    var k := x / d;
    OneQuotient(x, d, k, q);
    OneQuotient(x, d, q, k);
  }
}
