/** Division and remainder of products. */
module Arithmetic {

  lemma SmallMultiple(d: int, p: int)
    requires p >= 1 && -p < d * p < p
    ensures d == 0
  {}

  lemma ModIs(x: int, q: int, p: nat, r: nat)
    requires p >= 1 && x == q * p + r && r < p
    ensures x % p == r && x / p == q
  {
    assert x == x / p * p + x % p;
    assert (q - x / p) * p == x % p - r;
    SmallMultiple(q - x / p, p);
  }
}
