/** Powers of two and division. */
module Arithmetic {
  function Pow2(k: nat): (p: nat)
    ensures p > 0
  {
    if k == 0 then 1 else 2 * Pow2(k - 1)
  }

  lemma Below(a: int, b: int, d: nat)
    ensures a * d < b * d ==> a < b
  {
  }

  lemma Quotient(v: nat, d: nat, q: nat, r: nat)
    requires v == q * d + r && r < d
    ensures v / d == q && v % d == r
  {
    var p := v / d;
    assert p * d <= v < (p + 1) * d && q * d <= v < (q + 1) * d;
    Below(q, p + 1, d);
    Below(p, q + 1, d);
  }
}
