/** The arithmetic of adjust_quota_gcd, on the list of pool quotas. */
module QuotaMath {
  import opened Division

  /** while (quota % gcd) gcd--: the largest divisor of q that is at most g. */
  function StepDown(q: nat, g: nat): (r: nat)
    requires g > 0
    ensures 0 < r <= g && q % r == 0
    ensures forall d :: r < d <= g ==> q % d != 0
    decreases g
  {
    if q % g == 0 then g else StepDown(q, g - 1)
  }

  /** The loop over the pools: zero quotas are skipped. */
  function Descend(qs: seq<nat>, g: nat): (r: nat)
    requires g > 0
    ensures 0 < r <= g
  {
    if |qs| == 0 then g
    else
      var g' := Descend(qs[..|qs| - 1], g);
      var q := qs[|qs| - 1];
      if q == 0 then g' else StepDown(q, g')
  }

  /** The lowest nonzero quota, or 0. */
  function Lowest(qs: seq<nat>): (r: nat)
    ensures r == 0 <==> forall i :: 0 <= i < |qs| ==> qs[i] == 0
    ensures r != 0 ==> r in qs && forall i :: 0 <= i < |qs| && qs[i] != 0 ==> r <= qs[i]
  {
    if |qs| == 0 then 0
    else
      var l := Lowest(qs[..|qs| - 1]);
      var q := qs[|qs| - 1];
      if q != 0 && (l == 0 || q < l) then q else l
  }

  /** The value adjust_quota_gcd settles on. */
  function AdjustedGcd(qs: seq<nat>): (g: nat)
    ensures g > 0
  {
    if Lowest(qs) == 0 then 1 else Descend(qs, Lowest(qs))
  }

  predicate DividesAll(d: nat, qs: seq<nat>)
    requires d > 0
  {
    forall i :: 0 <= i < |qs| ==> qs[i] % d == 0
  }

  /** The greatest common divisor of the nonzero quotas. */
  ghost predicate IsGcd(d: nat, qs: seq<nat>) {
    d > 0 && DividesAll(d, qs) && forall e: nat :: e > 0 && DividesAll(e, qs) ==> e <= d
  }

  /** The descent never passes a common divisor. */
  lemma {:induction false} DescendAbove(qs: seq<nat>, g: nat, d: nat)
    requires 0 < d <= g && DividesAll(d, qs)
    ensures d <= Descend(qs, g)
  {
    if |qs| == 0 {
    } else {
      DescendAbove(qs[..|qs| - 1], g, d);
    }
  }

  lemma DivisorAtMost(d: nat, q: nat)
    requires d > 0 && q > 0 && q % d == 0
    ensures d <= q
  {
  }

  /** Between the true divisor and the lowest nonzero quota. */
  lemma AdjustedBounds(qs: seq<nat>, d: nat)
    requires Lowest(qs) != 0 && d > 0 && DividesAll(d, qs)
    ensures d <= AdjustedGcd(qs) <= Lowest(qs)
  {
    var i :| 0 <= i < |qs| && qs[i] == Lowest(qs);
    DivisorAtMost(d, qs[i]);
    DescendAbove(qs, Lowest(qs), d);
  }

  /** Above every common divisor there is no greater one to find: dividing all quotas is enough. */
  lemma DividingIsGreatest(qs: seq<nat>)
    requires Lowest(qs) != 0
    ensures IsGcd(AdjustedGcd(qs), qs) <==> DividesAll(AdjustedGcd(qs), qs)
  {
    var g := AdjustedGcd(qs);
    if DividesAll(g, qs) {
      forall e: nat | e > 0 && DividesAll(e, qs)
        ensures e <= g
      {
        AdjustedBounds(qs, e);
      }
    }
  }

  /** The greatest common divisor that is at most t. */
  function GreatestUpTo(qs: seq<nat>, t: nat): (d: nat)
    requires t > 0
    ensures 0 < d <= t && DividesAll(d, qs)
    ensures forall e :: d < e <= t ==> !DividesAll(e, qs)
    decreases t
  {
    if t == 1 || DividesAll(t, qs) then t else GreatestUpTo(qs, t - 1)
  }

  /** The greatest common divisor of quotas that are not all zero. */
  function Gcd(qs: seq<nat>): (d: nat)
    requires Lowest(qs) != 0
    ensures d > 0
  {
    GreatestUpTo(qs, Lowest(qs))
  }

  lemma GcdIsGcd(qs: seq<nat>)
    requires Lowest(qs) != 0
    ensures IsGcd(Gcd(qs), qs)
  {
    forall e: nat | e > 0 && DividesAll(e, qs)
      ensures e <= Gcd(qs)
    {
      AdjustedBounds(qs, e);
    }
  }

  /** The least divisor of a nonzero quota that is at least t, or 0 if there is none. */
  function LeastDivisorFrom(q: nat, t: nat): (l: nat)
    requires q > 0 && t > 0
    ensures l != 0 ==> t <= l <= q && q % l == 0
    ensures forall d :: t <= d <= q && (l == 0 || d < l) ==> q % d != 0
    decreases q + 1 - t
  {
    if t > q then 0 else if q % t == 0 then t else LeastDivisorFrom(q, t + 1)
  }

  /** How high the descent must start to end at t or above; 0 if it cannot. */
  function Bar(qs: seq<nat>, t: nat): nat
    requires t > 0
    decreases |qs|
  {
    if |qs| == 0 then t
    else
      var q := qs[|qs| - 1];
      var t' := if q == 0 then t else LeastDivisorFrom(q, t);
      if t' == 0 then 0 else Bar(qs[..|qs| - 1], t')
  }

  lemma StepDownReaches(q: nat, g: nat, t: nat)
    requires q > 0 && g > 0 && t > 0
    ensures StepDown(q, g) >= t <==> LeastDivisorFrom(q, t) != 0 && g >= LeastDivisorFrom(q, t)
  {
    hide StepDown, LeastDivisorFrom;
    var r := StepDown(q, g);
    DivisorAtMost(r, q);
  }

  /** The descent stays at t or above exactly when it starts at the bar or above. */
  lemma {:induction false} DescendReaches(qs: seq<nat>, g: nat, t: nat)
    requires g > 0 && t > 0
    ensures Descend(qs, g) >= t <==> Bar(qs, t) != 0 && g >= Bar(qs, t)
    decreases |qs|
  {
    if |qs| == 0 {
      assert Descend(qs, g) == g;
    } else {
      var front, q := qs[..|qs| - 1], qs[|qs| - 1];
      if q == 0 {
        DescendReaches(front, g, t);
      } else {
        StepDownReaches(q, Descend(front, g), t);
        var t' := LeastDivisorFrom(q, t);
        if t' != 0 {
          DescendReaches(front, g, t');
        }
      }
    }
  }

  /** The quotas whose lowest one is below the bar for anything more than their greatest common divisor. */
  predicate LowEnough(qs: seq<nat>)
    requires Lowest(qs) != 0
  {
    Bar(qs, Gcd(qs) + 1) == 0 || Lowest(qs) < Bar(qs, Gcd(qs) + 1)
  }

  /** The code finds the greatest common divisor exactly for the quotas that are low enough. */
  lemma AdjustedIsGcd(qs: seq<nat>)
    requires Lowest(qs) != 0
    ensures AdjustedGcd(qs) == Gcd(qs) <==> LowEnough(qs)
  {
    hide Gcd, Descend, Lowest, Bar;
    GcdIsGcd(qs);
    AdjustedBounds(qs, Gcd(qs));
    DescendReaches(qs, Lowest(qs), Gcd(qs) + 1);
  }

  /** The last nonzero quota is always divided. */
  lemma {:induction false} LastDivided(qs: seq<nat>, g: nat) returns (k: nat)
    requires g > 0 && Lowest(qs) != 0
    ensures k < |qs| && qs[k] != 0 && qs[k] % Descend(qs, g) == 0
  {
    k := |qs| - 1;
    if qs[k] != 0 {
    } else {
      k := LastDivided(qs[..k], g);
    }
  }

  /** The normalised shares of every two pools are in the ratio of their quotas. */
  ghost predicate Proportional(qs: seq<nat>, g: nat)
    requires g > 0
  {
    forall i, j :: 0 <= i < |qs| && 0 <= j < |qs| ==> (qs[i] / g) * qs[j] == (qs[j] / g) * qs[i]
  }

  lemma ExactShare(q: nat, g: nat)
    requires g > 0 && q % g == 0
    ensures q == (q / g) * g
  {
  }

  lemma ProportionalWhenDivided(qs: seq<nat>, g: nat)
    requires g > 0 && DividesAll(g, qs)
    ensures Proportional(qs, g)
  {
    forall i, j | 0 <= i < |qs| && 0 <= j < |qs|
      ensures (qs[i] / g) * qs[j] == (qs[j] / g) * qs[i]
    {
      ExactShare(qs[i], g);
      ExactShare(qs[j], g);
      Cross(qs[i] / g, qs[j] / g, g);
    }
  }

  lemma Cross(a: nat, b: nat, g: nat)
    ensures a * (b * g) == b * (a * g)
  {
  }

  /** If one share is exact, a share in proportion to it is exact too. */
  lemma ExactByProportion(q: nat, k: nat, m: nat, g: nat)
    requires g > 0 && m > 0 && (q / g) * (m * g) == m * q
    ensures q % g == 0
  {
    assert (q / g) * (m * g) == m * ((q / g) * g);
    CancelFactor(m, (q / g) * g, q);
    assert q == (q / g) * g;
    MultipleDivides(q / g, g);
  }

  lemma CancelFactor(m: nat, a: nat, b: nat)
    requires m > 0 && m * a == m * b
    ensures a == b
  {
  }

  /**
   * In proportion, every share would be exact, because the last nonzero quota is always divided: so the value
   * would divide every quota.
   */
  lemma ProportionalDivides(qs: seq<nat>)
    requires Lowest(qs) != 0
    ensures Proportional(qs, AdjustedGcd(qs)) <==> DividesAll(AdjustedGcd(qs), qs)
  {
    var g := AdjustedGcd(qs);
    if DividesAll(g, qs) {
      ProportionalWhenDivided(qs, g);
    }
    if Proportional(qs, g) {
      var k := LastDivided(qs, Lowest(qs));
      forall i | 0 <= i < |qs|
        ensures qs[i] % g == 0
      {
        ExactFromLast(qs[i], qs[k], g);
      }
    }
  }

  /** The shares are proportional to the quotas exactly for the quotas that are low enough. */
  lemma ProportionalExactly(qs: seq<nat>)
    requires Lowest(qs) != 0
    ensures Proportional(qs, AdjustedGcd(qs)) <==> LowEnough(qs)
  {
    hide LowEnough, Gcd, AdjustedGcd, Proportional, DividesAll, Lowest;
    ProportionalDivides(qs);
    DividingIsGreatest(qs);
    GcdIsGcd(qs);
    AdjustedIsGcd(qs);
  }

  lemma ExactFromLast(q: nat, last: nat, g: nat)
    requires g > 0 && last > 0 && last % g == 0 && (q / g) * last == (last / g) * q
    ensures q % g == 0
  {
    ExactShare(last, g);
    ExactByProportion(q, last / g, last / g, g);
  }

  /** Quotas 12 and 10 give 5 although their greatest common divisor is 2; the order 6, 4 is exact, 4, 6 is not. */
  lemma AdjustedCanMiss()
    ensures AdjustedGcd([12, 10]) == 5 && !DividesAll(5, [12, 10]) && DividesAll(2, [12, 10])
    ensures AdjustedGcd([6, 4]) == 2 && AdjustedGcd([4, 6]) == 3
  {
    LowestOfTwo(12, 10);
    LowestOfTwo(6, 4);
    LowestOfTwo(4, 6);
    DescendTwo(12, 10, 10);
    DescendTwo(6, 4, 4);
    DescendTwo(4, 6, 4);
    assert StepDown(12, 10) == 6 && StepDown(10, 6) == 5;
    assert StepDown(6, 4) == 3 && StepDown(4, 3) == 2;
    assert StepDown(4, 4) == 4 && StepDown(6, 4) == 3;
    assert [12, 10][0] % 5 == 2;
  }

  lemma LowestOfTwo(a: nat, b: nat)
    requires a > 0 && b > 0
    ensures Lowest([a, b]) == if b < a then b else a
  {
    assert [a, b][..1] == [a] && [a][..0] == [];
    assert Lowest([a]) == a;
  }

  lemma DescendTwo(a: nat, b: nat, g: nat)
    requires a > 0 && b > 0 && g > 0
    ensures Descend([a, b], g) == StepDown(b, StepDown(a, g))
  {
    hide StepDown;
    DescendOne([], a, g);
    assert [] + [a] == [a];
    DescendOne([a], b, g);
    assert [a] + [b] == [a, b];
  }

  lemma DescendOne(qs: seq<nat>, q: nat, g: nat)
    requires q > 0 && g > 0
    ensures Descend(qs + [q], g) == StepDown(q, Descend(qs, g))
  {
    hide StepDown;
    assert (qs + [q])[..|qs|] == qs;
  }
}
