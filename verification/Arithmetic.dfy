/** Minimum and the few facts of multiplication and division used elsewhere. */
module Arithmetic {
  function Min(a: nat, b: nat): nat { if a < b then a else b }

  lemma MulMonotone(k: nat, a: nat, b: nat)
    requires a <= b
    ensures k * a <= k * b
  {
    assert k * (b - a) >= 0;
  }

  lemma QuotientBound(k: nat, d: nat, w: nat)
    requires d > 0 && k * d <= w
    ensures k <= w / d
  {
    var q := w / d;
    assert w < q * d + d;
    assert d * (q + 1) == q * d + d;
    if k > q { MulMonotone(d, q + 1, k); }
  }

  lemma DivStep(x: nat, t: nat)
    requires t > 0
    ensures (x + 1) / t == x / t + (if (x + 1) % t == 0 then 1 else 0)
    ensures (x + 1) % t == (if x % t == t - 1 then 0 else x % t + 1)
  {
    var q, r := x / t, x % t;
    assert x == q * t + r;
    if r == t - 1 {
      assert x + 1 == (q + 1) * t;
      DivUnique(x + 1, q + 1, 0, t);
    } else {
      DivUnique(x + 1, q, r + 1, t);
    }
  }

  lemma DivUnique(x: nat, q: nat, r: nat, t: nat)
    requires t > 0 && r < t && x == q * t + r
    ensures x / t == q && x % t == r
  {
    var d := x / t - q;
    assert x == x / t * t + x % t;
    assert d * t == r - x % t;
  }
}
