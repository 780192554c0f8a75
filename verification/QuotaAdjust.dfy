/** adjust_quota_gcd of sgminer.c, in place on the pool table. */
module QuotaAdjust {
  import opened Sequences
  import PoolOrder
  import opened PoolTable
  import opened QuotaMath
  import opened Division

  const ULONG_RANGE: nat := 0x1_0000_0000_0000_0000
  const INT_RANGE: nat := 0x1_0000_0000
  const INT_MAX: int := 0x7fff_ffff

  /** Quotas are never negative: both commands that set one refuse it. */
  ghost predicate QuotasSet(pools: seq<Pool>)
    reads pools`quota
  {
    forall p :: p in pools ==> 0 <= p.quota <= INT_MAX
  }

  ghost function Quotas(pools: seq<Pool>): (r: seq<nat>)
    requires QuotasSet(pools)
    reads pools`quota
    ensures |r| == |pools| && forall i :: 0 <= i < |r| ==> r[i] == pools[i].quota
  {
    if |pools| == 0 then [] else Quotas(pools[..|pools| - 1]) + [pools[|pools| - 1].quota]
  }

  /** Conversion to a 32-bit int, and of a value to unsigned long. */
  function ToInt(x: nat): (r: int)
    ensures -0x8000_0000 <= r <= INT_MAX
  {
    var m := x % INT_RANGE;
    if m <= INT_MAX then m else m - INT_RANGE
  }

  function ToUlong(x: int): nat {
    x % ULONG_RANGE
  }

  /** quota_used *= old gcd; quota_used /= new gcd, with the conversions C makes in between. */
  function Rescaled(used: int, oldGcd: nat, gcd: nat): int
    requires gcd > 0
  {
    ToInt(ToUlong(ToInt((ToUlong(used) * oldGcd) % ULONG_RANGE)) / gcd)
  }

  /** Where nothing is negative and nothing overflows this is the plain rescaling, rounded down. */
  lemma RescaledPlain(used: int, oldGcd: nat, gcd: nat)
    requires gcd > 0 && 0 <= used && used * oldGcd <= INT_MAX && used < ULONG_RANGE
    ensures Rescaled(used, oldGcd, gcd) == (used * oldGcd) / gcd
  {
    var product := used * oldGcd;
    assert ToUlong(used) == used;
    assert product % ULONG_RANGE == product && product % INT_RANGE == product;
    assert ToInt(product) == product && ToUlong(product) == product;
    QuotientSmall(product, gcd);
    assert (product / gcd) % INT_RANGE == product / gcd;
  }

  /**
   * Failover-only can make a count negative. Then the division is one of an unsigned 64-bit number, and rounding down
   * is what comes out exactly when the new value divides 2^32.
   */
  lemma RescaledNegative(used: int, oldGcd: nat, gcd: nat)
    requires 0 < gcd <= INT_MAX && used < 0 < oldGcd && used * oldGcd >= -INT_MAX - 1 && used >= -INT_MAX - 1
    ensures Rescaled(used, oldGcd, gcd) == (used * oldGcd) / gcd <==> INT_RANGE % gcd == 0
  {
    hide ToInt, ToUlong;
    UlongProduct(used, oldGcd);
    NegativeProduct(used, oldGcd);
    SignedAgain(used * oldGcd);
    UnsignedQuotient(used * oldGcd, gcd);
  }

  /** What the product is as an int, and that once more as unsigned long. */
  lemma SignedAgain(product: int)
    requires -INT_MAX - 1 <= product < 0
    ensures ToUlong(ToInt(ULONG_RANGE + product)) == ULONG_RANGE + product
  {
    assert ToInt(ULONG_RANGE + product) == product;
  }

  /** A count of -1 in thirds is no longer a small number. */
  lemma ThirdOfMinusOne()
    ensures Rescaled(-1, 1, 3) == 0x5555_5555 && (-1) / 3 == -1
  {
    assert ToUlong(-1) == 0xFFFF_FFFF_FFFF_FFFF;
    assert (ToUlong(-1) * 1) % ULONG_RANGE == 0xFFFF_FFFF_FFFF_FFFF;
    assert ToInt(0xFFFF_FFFF_FFFF_FFFF) == -1;
    assert 0xFFFF_FFFF_FFFF_FFFF / 3 == 0x5555_5555_5555_5555;
  }

  /** The product comes out right, modulo 2^64. */
  lemma UlongProduct(used: int, oldGcd: nat)
    requires used < 0 < oldGcd && used + ULONG_RANGE >= 0 && -INT_MAX - 1 <= used * oldGcd
    ensures (ToUlong(used) * oldGcd) % ULONG_RANGE == ULONG_RANGE + used * oldGcd
  {
    var rest := ULONG_RANGE + used * oldGcd;
    assert ToUlong(used) == ULONG_RANGE + used;
    assert (ULONG_RANGE + used) * oldGcd == ULONG_RANGE * (oldGcd - 1) + rest;
    NegativeProduct(used, oldGcd);
    DivUnique(ToUlong(used) * oldGcd, ULONG_RANGE, oldGcd - 1, rest);
  }

  lemma NegativeProduct(a: int, b: nat)
    requires a < 0 < b
    ensures a * b < 0
  {
  }

  lemma UnsignedQuotient(product: int, gcd: nat)
    requires 0 < gcd <= INT_MAX && -INT_MAX - 1 <= product < 0
    ensures ToInt((ULONG_RANGE + product) / gcd) == product / gcd <==> INT_RANGE % gcd == 0
  {
    var a, b, q, r := ULONG_RANGE / gcd, ULONG_RANGE % gcd, product / gcd, product % gcd;
    var c := if b + r >= gcd then 1 else 0;
    SumQuotient(product, gcd, c);
    QuotientRange(product, gcd);
    IntOf((ULONG_RANGE + product) / gcd, q);
    WholeQuotient(gcd, a, b, c);
    if INT_RANGE % gcd == 0 {
      NoRemainder(gcd);
    }
  }

  lemma QuotientRange(product: int, gcd: nat)
    requires 0 < gcd && -INT_MAX - 1 <= product < 0
    ensures -INT_MAX - 1 <= product / gcd < 0
  {
    var q := product / gcd;
    assert product == gcd * q + product % gcd;
    assert gcd * (product - 1) == gcd * product - gcd;
    ScaleMonotone(-product, 1, gcd);
    if q < product {
      ScaleMonotone(gcd, q, product - 1);
    }
    if q >= 0 {
      ScaleMonotone(gcd, 0, q);
    }
  }

  lemma ScaleMonotone(d: nat, a: int, b: int)
    requires a <= b
    ensures d * a <= d * b
  {
  }

  lemma FloorUnique(x: int, d: nat, q: int, r: nat)
    requires x == d * q + r && r < d
    ensures x / d == q
  {
    var p := x / d;
    assert x == d * p + x % d;
    assert d * (p + 1) == d * p + d && d * (q + 1) == d * q + d;
    if p < q {
      ScaleMonotone(d, p + 1, q);
    } else if p > q {
      ScaleMonotone(d, q + 1, p);
    }
  }

  lemma SumQuotient(product: int, gcd: nat, c: nat)
    requires 0 < gcd && -INT_MAX - 1 <= product < 0
    requires c == if ULONG_RANGE % gcd + product % gcd >= gcd then 1 else 0
    ensures (ULONG_RANGE + product) / gcd == ULONG_RANGE / gcd + product / gcd + c
  {
    var a, b, q, r := ULONG_RANGE / gcd, ULONG_RANGE % gcd, product / gcd, product % gcd;
    assert ULONG_RANGE == gcd * a + b;
    assert product == gcd * q + r;
    assert gcd * (a + q + c) == gcd * a + gcd * q + gcd * c;
    FloorUnique(ULONG_RANGE + product, gcd, a + q + c, b + r - gcd * c);
  }

  /** A value as a 32-bit int. */
  lemma IntOf(x: int, q: int)
    requires 0 <= x && -INT_MAX - 1 <= q < 0
    ensures ToInt(x) == q <==> (x - q) % INT_RANGE == 0
  {
  }

  /** The quotient of 2^64, rounded up if c is 1, is a multiple of 2^32 only if nothing remains of 2^32. */
  lemma WholeQuotient(gcd: nat, a: nat, b: nat, c: nat)
    requires 0 < gcd <= INT_MAX && ULONG_RANGE == gcd * a + b && b < gcd && c <= 1
    ensures (a + c) % INT_RANGE == 0 ==> INT_RANGE % gcd == 0
  {
    if (a + c) % INT_RANGE == 0 {
      var k := (a + c) / INT_RANGE;
      assert a + c == INT_RANGE * k;
      assert gcd * (INT_RANGE * k) == INT_RANGE * (k * gcd);
      assert gcd * (a + c) == gcd * a + gcd * c;
      assert INT_RANGE * (k * gcd) == ULONG_RANGE - b + gcd * c;
      assert k * gcd == INT_RANGE;
      MultipleDivides(k, gcd);
    }
  }

  lemma NoRemainder(gcd: nat)
    requires gcd > 0 && INT_RANGE % gcd == 0
    ensures ULONG_RANGE % gcd == 0 && (ULONG_RANGE / gcd) % INT_RANGE == 0
  {
    var k := INT_RANGE / gcd;
    assert gcd * (k * INT_RANGE) == (gcd * k) * INT_RANGE;
    DivUnique(ULONG_RANGE, gcd, k * INT_RANGE, 0);
    MultipleDivides(k, INT_RANGE);
  }

  /** The first loop: the lowest nonzero quota, or ~0UL. */
  method LowestQuota(pools: seq<Pool>) returns (lowest: nat)
    requires QuotasSet(pools)
    ensures var l := Lowest(Quotas(pools)); lowest == if l == 0 then ULONG_RANGE - 1 else l
  {
    ghost var qs := Quotas(pools);
    lowest := ULONG_RANGE - 1;
    for i := 0 to |pools|
      invariant var l := Lowest(qs[..i]); lowest == if l == 0 then ULONG_RANGE - 1 else l
    {
      assert qs[..i + 1][..i] == qs[..i];
      var quota := pools[i].quota;
      if quota == 0 {
        continue;
      }
      if quota < lowest {
        lowest := quota;
      }
    }
    assert qs[..|pools|] == qs;
  }

  /** The second loop: step down until every pool in turn is divided. */
  method DescendQuotas(pools: seq<Pool>, start: nat) returns (gcd: nat)
    requires QuotasSet(pools) && start > 0
    ensures gcd == Descend(Quotas(pools), start)
  {
    hide StepDown;
    ghost var qs := Quotas(pools);
    gcd := start;
    assert qs[..0] == [];
    for i := 0 to |pools|
      invariant gcd == Descend(qs[..i], start)
    {
      assert qs[..i + 1][..i] == qs[..i];
      if pools[i].quota == 0 {
        continue;
      }
      gcd := DescendOne(pools[i].quota, gcd);
    }
    assert qs[..|pools|] == qs;
  }

  method DescendOne(quota: nat, start: nat) returns (gcd: nat)
    requires start > 0
    ensures gcd == StepDown(quota, start)
  {
    gcd := start;
    while quota % gcd != 0
      invariant 0 < gcd <= start && StepDown(quota, gcd) == StepDown(quota, start)
      decreases gcd
    {
      gcd := gcd - 1;
    }
  }

  /** The first two loops. */
  method ComputeGcd(pools: seq<Pool>) returns (gcd: nat)
    requires QuotasSet(pools)
    ensures gcd == AdjustedGcd(Quotas(pools))
  {
    hide Descend, Lowest, Quotas;
    var lowest := LowestQuota(pools);
    gcd := 1;
    if lowest < ULONG_RANGE - 1 {
      gcd := DescendQuotas(pools, lowest);
    }
  }

  /** adjust_quota_gcd. */
  method AdjustQuotaGcd(t: Table)
    requires Distinct(t.pools) && QuotasSet(t.pools)
    modifies t.pools`quotaUsed, t.pools`quotaGcd, t`globalQuotaGcd
    ensures t.globalQuotaGcd == AdjustedGcd(Quotas(t.pools))
    ensures forall i :: 0 <= i < |t.pools| ==>
      t.pools[i].quotaGcd == t.pools[i].quota / t.globalQuotaGcd
      && t.pools[i].quotaUsed == Rescaled(old(t.pools[i].quotaUsed), old(t.globalQuotaGcd), t.globalQuotaGcd)
  {
    hide AdjustedGcd, Rescaled, Quotas;
    var gcd := ComputeGcd(t.pools);
    StoreShares(t.pools, t.globalQuotaGcd, gcd);
    t.globalQuotaGcd := gcd;
  }

  /** The third loop: every pool's count and share in units of the new value. */
  method StoreShares(pools: seq<Pool>, oldGcd: nat, gcd: nat)
    requires Distinct(pools) && gcd > 0
    modifies pools`quotaUsed, pools`quotaGcd
    ensures forall i :: 0 <= i < |pools| ==>
      pools[i].quotaGcd == pools[i].quota / gcd && pools[i].quotaUsed == Rescaled(old(pools[i].quotaUsed), oldGcd, gcd)
  {
    hide Rescaled;
    for i := 0 to |pools|
      invariant forall j :: 0 <= j < i ==>
        && pools[j].quotaGcd == pools[j].quota / gcd
        && pools[j].quotaUsed == Rescaled(old(pools[j].quotaUsed), oldGcd, gcd)
      invariant forall j :: i <= j < |pools| ==> pools[j].quotaUsed == old(pools[j].quotaUsed)
    {
      pools[i].quotaUsed := Rescaled(pools[i].quotaUsed, oldGcd, gcd);
      pools[i].quotaGcd := pools[i].quota / gcd;
    }
  }
}
