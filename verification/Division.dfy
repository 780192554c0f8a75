/** Powers of two, and quotient and remainder facts the solver does not find by itself. */
module Division {

  lemma MulMonotone(d: nat, a: nat, b: nat)
    requires a <= b
    ensures d * a <= d * b
  {
  }

  lemma MulStep(d: nat, a: nat, b: nat)
    requires a < b
    ensures d * a + d <= d * b
  {
    MulMonotone(d, a + 1, b);
    assert d * (a + 1) == d * a + d;
  }

  lemma QuotientAtMost(d: nat, q: nat, r: nat, q': nat, r': nat)
    requires d * q + r == d * q' + r' && r' < d
    ensures q <= q'
  {
    if q > q' {
      MulStep(d, q', q);
    }
  }

  lemma DivUnique(x: nat, d: nat, q: nat, r: nat)
    requires x == d * q + r && r < d
    ensures x / d == q && x % d == r
  {
    QuotientAtMost(d, q, r, x / d, x % d);
    QuotientAtMost(d, x / d, x % d, q, r);
  }

  lemma DivMod(x: nat, d: nat)
    requires d > 0
    ensures x == d * (x / d) + x % d && 0 <= x % d < d
  {
  }

  lemma MultipleDivides(k: nat, d: nat)
    requires d > 0
    ensures (k * d) % d == 0 && (k * d) / d == k
  {
    DivUnique(k * d, d, k, 0);
  }

  lemma QuotientSmall(x: nat, d: nat)
    requires d > 0
    ensures 0 <= x / d <= x
  {
    DivMod(x, d);
    MulMonotone(x / d, 1, d);
    assert (x / d) * d == d * (x / d);
  }

  function Pow2(k: nat): (p: nat)
    ensures p > 0
  {
    if k == 0 then 1 else 2 * Pow2(k - 1)
  }

  lemma DoubleFactor(a: nat, b: nat)
    ensures a * (2 * b) == 2 * (a * b)
  {
  }

  lemma {:induction false} Pow2Add(i: nat, j: nat)
    ensures Pow2(i + j) == Pow2(i) * Pow2(j)
  {
    if j == 0 {
    } else {
      Pow2Add(i, j - 1);
      DoubleFactor(Pow2(i), Pow2(j - 1));
    }
  }
}
