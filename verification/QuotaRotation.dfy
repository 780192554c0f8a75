/** The load-balance rotation of select_pool on values: used and normalised quotas, and the rotating position. */
module QuotaRotation {
  import opened Options

  /** quota_used of every pool, and rotating_pool. */
  datatype Rot = Rot(used: seq<int>, at: nat)

  predicate Fits(gcds: seq<int>, r: Rot) {
    |r.used| == |gcds| && r.at < |gcds|
  }

  /** The slot after one; behind the last slot it is the first. */
  function NextSlot(at: nat, n: nat): (r: nat)
    requires n > 0
    ensures r < n
  {
    if at + 1 >= n then 0 else at + 1
  }

  predicate HasQuota(gcds: seq<int>, r: Rot)
    requires |r.used| == |gcds|
  {
    exists i :: 0 <= i < |gcds| && r.used[i] < gcds[i]
  }

  function Fresh(n: nat, at: nat): Rot {
    Rot(seq(n, _ => 0), at)
  }

  /** No pool has quota left: every count is reset and the rotation moves on. */
  function Reset(gcds: seq<int>, r: Rot): (r': Rot)
    requires |r.used| == |gcds| > 0
    ensures |r'.used| == |gcds| && (r'.at < |gcds| || r' == r)
  {
    if HasQuota(gcds, r) then r else Fresh(|gcds|, NextSlot(r.at, |gcds|))
  }

  /** What one probe does to the counts: a dead pool's unused quota goes to spill, if given. */
  function Charge(gcds: seq<int>, works: seq<bool>, r: Rot, spill: Option<nat>): (used: seq<int>)
    requires Fits(gcds, r) && |works| == |gcds| && (spill.Some? ==> spill.value < |gcds|)
    ensures |used| == |gcds|
  {
    var used := r.used[r.at := r.used[r.at] + 1];
    if r.used[r.at] < gcds[r.at] && !works[r.at] && spill.Some? then used[spill.value := used[spill.value] - 1]
    else used
  }

  /** The search loop: up to left probes, starting at the rotating position. */
  function Probe(gcds: seq<int>, works: seq<bool>, r: Rot, spill: Option<nat>, left: nat): (res: (Rot, Option<nat>))
    requires Fits(gcds, r) && |works| == |gcds| && (spill.Some? ==> spill.value < |gcds|)
    ensures Fits(gcds, res.0) && (res.1.Some? ==> res.1.value < |gcds|)
    decreases left
  {
    if left == 0 then (r, None)
    else
      var used := Charge(gcds, works, r, spill);
      if r.used[r.at] < gcds[r.at] && works[r.at] then (Rot(used, r.at), Some(r.at))
      else Probe(gcds, works, Rot(used, NextSlot(r.at, |gcds|)), spill, left - 1)
  }

  /** One call of select_pool under load balance. */
  function Select(gcds: seq<int>, works: seq<bool>, r: Rot, spill: Option<nat>): (res: (Rot, Option<nat>))
    requires Fits(gcds, r) && |works| == |gcds| && (spill.Some? ==> spill.value < |gcds|)
    ensures Fits(gcds, res.0) && (res.1.Some? ==> res.1.value < |gcds|)
  {
    Probe(gcds, works, Reset(gcds, r), spill, |gcds|)
  }

  /** What a pool may still be given before the next reset. */
  function Left(gcds: seq<int>, r: Rot, i: nat): nat
    requires Fits(gcds, r) && i < |gcds|
  {
    if r.used[i] < gcds[i] then gcds[i] - r.used[i] else 0
  }

  /** How far slot j is ahead of slot i on a ring of n. */
  function Ahead(i: nat, j: nat, n: nat): (d: nat)
    requires i < n && j < n
    ensures d < n
  {
    if j >= i then j - i else j + n - i
  }

  function AllWork(n: nat): (w: seq<bool>)
    ensures |w| == n && forall i :: 0 <= i < n ==> w[i]
  {
    seq(n, _ => true)
  }

  /** With every pool alive, a search with quota within reach takes exactly one unit, from the pool it returns. */
  lemma {:induction false} ProbeTakesOne(gcds: seq<int>, r: Rot, left: nat, j: nat)
    requires Fits(gcds, r) && j < |gcds| && r.used[j] < gcds[j] && Ahead(r.at, j, |gcds|) < left
    ensures var (r', p) := Probe(gcds, AllWork(|gcds|), r, None, left);
      && p.Some? && r.used[p.value] < gcds[p.value] && r'.at == p.value
      && forall k :: 0 <= k < |gcds| ==> Left(gcds, r', k) == Left(gcds, r, k) - if k == p.value then 1 else 0
    decreases left
  {
    if r.used[r.at] < gcds[r.at] {
    } else {
      var r1 := Rot(Charge(gcds, AllWork(|gcds|), r, None), NextSlot(r.at, |gcds|));
      assert forall k :: 0 <= k < |gcds| ==> Left(gcds, r1, k) == Left(gcds, r, k);
      ProbeTakesOne(gcds, r1, left - 1, j);
    }
  }

  /** A call finds a pool within |pools| probes and takes one unit from it, as long as any pool has quota. */
  lemma SelectTakesOne(gcds: seq<int>, r: Rot)
    requires Fits(gcds, r) && HasQuota(gcds, r)
    ensures var (r', p) := Select(gcds, AllWork(|gcds|), r, None);
      && p.Some?
      && forall k :: 0 <= k < |gcds| ==> Left(gcds, r', k) == Left(gcds, r, k) - if k == p.value then 1 else 0
  {
    var j :| 0 <= j < |gcds| && r.used[j] < gcds[j];
    ProbeTakesOne(gcds, r, |gcds|, j);
  }

  /**
   * With some pools dead: a pool that a search finds is alive, and if it finds none, every pool that had quota when
   * the search began is dead.
   */
  lemma {:induction false} ProbeSound(gcds: seq<int>, works: seq<bool>, r: Rot, spill: Option<nat>, left: nat)
    requires Fits(gcds, r) && |works| == |gcds| && (spill.Some? ==> spill.value < |gcds|) && left <= |gcds|
    ensures var p := Probe(gcds, works, r, spill, left).1;
      && (p.Some? ==> works[p.value])
      && (p.None? ==>
            forall j :: 0 <= j < |gcds| && Ahead(r.at, j, |gcds|) < left && r.used[j] < gcds[j] ==> !works[j])
    decreases left
  {
    if left == 0 || (r.used[r.at] < gcds[r.at] && works[r.at]) {
    } else {
      var n := |gcds|;
      var used, at := Charge(gcds, works, r, spill), NextSlot(r.at, n);
      ProbeSound(gcds, works, Rot(used, at), spill, left - 1);
      forall j | 0 <= j < n && Ahead(r.at, j, n) < left && r.used[j] < gcds[j]
        ensures j != r.at ==> Ahead(at, j, n) < left - 1 && used[j] < gcds[j]
      {
      }
    }
  }

  lemma {:induction false} SelectSound(gcds: seq<int>, works: seq<bool>, r: Rot, spill: Option<nat>)
    requires Fits(gcds, r) && |works| == |gcds| && (spill.Some? ==> spill.value < |gcds|)
    ensures var p := Select(gcds, works, r, spill).1; var q := Reset(gcds, r);
      && (p.Some? ==> works[p.value])
      && (p.None? ==> forall j :: 0 <= j < |gcds| && q.used[j] < gcds[j] ==> !works[j])
  {
    hide Probe, Reset;
    ProbeSound(gcds, works, Reset(gcds, r), spill, |gcds|);
  }

  /** m calls in a row: the pools returned and the state after. */
  function Calls(gcds: seq<int>, r: Rot, m: nat): (res: (Rot, seq<Option<nat>>))
    requires Fits(gcds, r)
    ensures Fits(gcds, res.0) && |res.1| == m
  {
    if m == 0 then (r, [])
    else
      var (r1, ps) := Calls(gcds, r, m - 1);
      var (r2, p) := Select(gcds, AllWork(|gcds|), r1, None);
      (r2, ps + [p])
  }

  /** No call came back without a pool. */
  predicate AllFound(ps: seq<Option<nat>>) {
    forall k :: 0 <= k < |ps| ==> ps[k].Some?
  }

  function Count(ps: seq<Option<nat>>, i: nat): nat {
    if |ps| == 0 then 0 else Count(ps[..|ps| - 1], i) + if ps[|ps| - 1] == Some(i) then 1 else 0
  }

  function Sum(s: seq<nat>): nat {
    if |s| == 0 then 0 else Sum(s[..|s| - 1]) + s[|s| - 1]
  }

  function Lefts(gcds: seq<int>, r: Rot): (s: seq<nat>)
    requires Fits(gcds, r)
    ensures |s| == |gcds| && forall i :: 0 <= i < |s| ==> s[i] == Left(gcds, r, i)
  {
    seq(|gcds|, i requires 0 <= i < |gcds| => Left(gcds, r, i))
  }

  lemma {:induction false} SumDrop(a: seq<nat>, b: seq<nat>, i: nat)
    requires |a| == |b| && i < |a| && a[i] == b[i] + 1 && forall k :: 0 <= k < |a| && k != i ==> a[k] == b[k]
    ensures Sum(a) == Sum(b) + 1
  {
    var n := |a| - 1;
    if i < n {
      SumDrop(a[..n], b[..n], i);
    } else {
      assert a[..n] == b[..n];
    }
  }

  lemma {:induction false} SumZero(a: seq<nat>)
    ensures Sum(a) == 0 <==> forall i :: 0 <= i < |a| ==> a[i] == 0
  {
    if |a| == 0 {
    } else {
      SumZero(a[..|a| - 1]);
    }
  }

  /** While quota lasts no call resets, every call finds a pool, and calls and remaining quota add up. */
  lemma {:induction false} Conservation(gcds: seq<int>, r: Rot, m: nat)
    requires Fits(gcds, r) && m <= Sum(Lefts(gcds, r))
    ensures var (r', ps) := Calls(gcds, r, m);
      && m + Sum(Lefts(gcds, r')) == Sum(Lefts(gcds, r))
      && AllFound(ps)
      && forall i :: 0 <= i < |gcds| ==> Count(ps, i) + Left(gcds, r', i) == Left(gcds, r, i)
  {
    hide *;
    CallsNext(gcds, r, m);
    if m == 0 {
    } else {
      Conservation(gcds, r, m - 1);
      var (r1, ps) := Calls(gcds, r, m - 1);
      OneCall(gcds, r1);
      var (r2, p) := Select(gcds, AllWork(|gcds|), r1, None);
      FoundMore(ps, p);
      forall i | 0 <= i < |gcds|
        ensures Count(ps + [p], i) + Left(gcds, r2, i) == Left(gcds, r, i)
      {
        CountLast(ps, p, i);
      }
    }
  }

  lemma CallsNext(gcds: seq<int>, r: Rot, m: nat)
    requires Fits(gcds, r)
    ensures m == 0 ==> Calls(gcds, r, m) == (r, []) && AllFound([]) && forall i: nat :: Count([], i) == 0
    ensures m > 0 ==>
      var (r1, ps) := Calls(gcds, r, m - 1);
      var (r2, p) := Select(gcds, AllWork(|gcds|), r1, None);
      Calls(gcds, r, m) == (r2, ps + [p])
  {
    hide Select;
  }

  lemma FoundMore(ps: seq<Option<nat>>, p: Option<nat>)
    ensures AllFound(ps + [p]) <==> AllFound(ps) && p.Some?
  {
    if AllFound(ps + [p]) {
      assert (ps + [p])[|ps|] == p;
      forall k | 0 <= k < |ps|
        ensures ps[k].Some?
      {
        assert (ps + [p])[k] == ps[k];
      }
    }
  }

  lemma CountLast(ps: seq<Option<nat>>, p: Option<nat>, i: nat)
    ensures Count(ps + [p], i) == Count(ps, i) + if p == Some(i) then 1 else 0
  {
    assert (ps + [p])[..|ps|] == ps;
  }

  /** One call while quota lasts takes one unit from the pool it returns. */
  lemma OneCall(gcds: seq<int>, r: Rot)
    requires Fits(gcds, r) && Sum(Lefts(gcds, r)) > 0
    ensures var (r', p) := Select(gcds, AllWork(|gcds|), r, None);
      && p.Some? && Sum(Lefts(gcds, r')) == Sum(Lefts(gcds, r)) - 1
      && forall k :: 0 <= k < |gcds| ==> Left(gcds, r', k) == Left(gcds, r, k) - if p == Some(k) then 1 else 0
  {
    hide Select;
    SumZero(Lefts(gcds, r));
    var j :| 0 <= j < |gcds| && Lefts(gcds, r)[j] != 0;
    assert HasQuota(gcds, r);
    SelectTakesOne(gcds, r);
    var (r', p) := Select(gcds, AllWork(|gcds|), r, None);
    assert 0 <= p.value < |gcds|;
    SumDrop(Lefts(gcds, r), Lefts(gcds, r'), p.value);
  }

  function Positive(x: int): nat { if x > 0 then x else 0 }

  /** The calls between two resets: the sum of the normalised quotas. */
  function EpochLength(gcds: seq<int>): nat {
    Sum(seq(|gcds|, i requires 0 <= i < |gcds| => Positive(gcds[i])))
  }

  lemma FreshLefts(gcds: seq<int>, at: nat)
    requires at < |gcds|
    ensures Sum(Lefts(gcds, Fresh(|gcds|, at))) == EpochLength(gcds)
    ensures forall i :: 0 <= i < |gcds| ==> Left(gcds, Fresh(|gcds|, at), i) == Positive(gcds[i])
  {
    assert Lefts(gcds, Fresh(|gcds|, at)) == seq(|gcds|, i requires 0 <= i < |gcds| => Positive(gcds[i]));
  }

  /** Between two resets every pool is returned exactly its normalised quota of times, and then all are used up. */
  lemma EpochExact(gcds: seq<int>, at: nat)
    requires at < |gcds|
    ensures var (r, ps) := Calls(gcds, Fresh(|gcds|, at), EpochLength(gcds));
      && !HasQuota(gcds, r)
      && AllFound(ps)
      && forall i :: 0 <= i < |gcds| ==> Count(ps, i) == Positive(gcds[i])
  {
    hide *;
    var f, n := Fresh(|gcds|, at), EpochLength(gcds);
    FreshFits(gcds, at);
    FreshLefts(gcds, at);
    Conservation(gcds, f, n);
    var (r, ps) := Calls(gcds, f, n);
    NothingLeft(gcds, r);
  }

  lemma FreshFits(gcds: seq<int>, at: nat)
    requires at < |gcds|
    ensures Fits(gcds, Fresh(|gcds|, at))
  {
  }

  lemma NothingLeft(gcds: seq<int>, r: Rot)
    requires Fits(gcds, r) && Sum(Lefts(gcds, r)) == 0
    ensures !HasQuota(gcds, r) && forall i :: 0 <= i < |gcds| ==> Left(gcds, r, i) == 0
  {
    SumZero(Lefts(gcds, r));
    forall i | 0 <= i < |gcds|
      ensures Left(gcds, r, i) == 0 && r.used[i] >= gcds[i]
    {
      assert Lefts(gcds, r)[i] == 0;
    }
  }

  lemma {:induction false} CallsSplit(gcds: seq<int>, r: Rot, a: nat, b: nat)
    requires Fits(gcds, r)
    ensures var (r1, ps) := Calls(gcds, r, a);
      Calls(gcds, r, a + b) == (Calls(gcds, r1, b).0, ps + Calls(gcds, r1, b).1)
  {
    hide Select;
    if b > 0 {
      CallsSplit(gcds, r, a, b - 1);
      var (r1, ps) := Calls(gcds, r, a);
      var (r2, qs) := Calls(gcds, r1, b - 1);
      var p := Select(gcds, AllWork(|gcds|), r2, None).1;
      assert (ps + qs) + [p] == ps + (qs + [p]);
    } else {
      var (r1, ps) := Calls(gcds, r, a);
      assert ps + [] == ps;
    }
  }

  lemma {:induction false} CountSplit(a: seq<Option<nat>>, b: seq<Option<nat>>, i: nat)
    ensures Count(a + b, i) == Count(a, i) + Count(b, i)
  {
    if |b| == 0 {
      assert a + b == a;
    } else {
      CountSplit(a, b[..|b| - 1], i);
      assert (a + b)[..|a + b| - 1] == a + b[..|b| - 1];
    }
  }

  /** With all quota used up, calls go on as if the counts were fresh. */
  lemma {:induction false} UsedUpIsFresh(gcds: seq<int>, r: Rot, m: nat)
    requires Fits(gcds, r) && !HasQuota(gcds, r) && EpochLength(gcds) > 0 && m > 0
    ensures Calls(gcds, r, m) == Calls(gcds, Fresh(|gcds|, NextSlot(r.at, |gcds|)), m)
  {
    var f := Fresh(|gcds|, NextSlot(r.at, |gcds|));
    if m == 1 {
      FreshLefts(gcds, f.at);
      SumZero(Lefts(gcds, f));
      var j :| 0 <= j < |gcds| && Lefts(gcds, f)[j] != 0;
      assert f.used[j] < gcds[j];
      assert Reset(gcds, r) == Reset(gcds, f) == f;
      assert Calls(gcds, r, 0) == (r, []) && Calls(gcds, f, 0) == (f, []);
    } else {
      UsedUpIsFresh(gcds, r, m - 1);
    }
  }

  /** One more epoch after calls that used everything up, or at the very start. */
  lemma NextEpoch(gcds: seq<int>, f: Rot, a: nat)
    requires Fits(gcds, f) && EpochLength(gcds) > 0
    requires var r1 := Calls(gcds, f, a).0; !HasQuota(gcds, r1) || r1 == Fresh(|gcds|, r1.at)
    ensures var (r, ps) := Calls(gcds, f, a + EpochLength(gcds));
      && !HasQuota(gcds, r)
      && (AllFound(Calls(gcds, f, a).1) ==> AllFound(ps))
      && forall i :: 0 <= i < |gcds| ==> Count(ps, i) == Count(Calls(gcds, f, a).1, i) + Positive(gcds[i])
  {
    hide Select, HasQuota, Count;
    var t := EpochLength(gcds);
    hide EpochLength;
    var (r1, ps) := Calls(gcds, f, a);
    var at' := if r1 == Fresh(|gcds|, r1.at) then r1.at else NextSlot(r1.at, |gcds|);
    if r1 != Fresh(|gcds|, r1.at) {
      UsedUpIsFresh(gcds, r1, t);
    }
    EpochExact(gcds, at');
    CallsSplit(gcds, f, a, t);
    var (r2, qs) := Calls(gcds, Fresh(|gcds|, at'), t);
    forall i | 0 <= i < |gcds|
      ensures Count(ps + qs, i) == Count(ps, i) + Positive(gcds[i])
    {
      CountSplit(ps, qs, i);
    }
  }

  /** Over any number of resets the exactness persists: n epochs give every pool n times its normalised quota. */
  lemma {:induction false} WholeRunsExact(gcds: seq<int>, at: nat, n: nat)
    requires at < |gcds| && EpochLength(gcds) > 0
    ensures var (r, ps) := Calls(gcds, Fresh(|gcds|, at), n * EpochLength(gcds));
      && (n > 0 ==> !HasQuota(gcds, r))
      && AllFound(ps)
      && forall i :: 0 <= i < |gcds| ==> Count(ps, i) == n * Positive(gcds[i])
  {
    hide *;
    FreshFits(gcds, at);
    var f, e := Fresh(|gcds|, at), EpochLength(gcds);
    if n == 0 {
      assert 0 * e == 0;
      CallsNext(gcds, f, 0);
    } else {
      WholeRunsExact(gcds, at, n - 1);
      if n == 1 {
        NoCalls(gcds, at);
      }
      NextEpoch(gcds, f, (n - 1) * e);
      OneMore(n, e);
      forall i | 0 <= i < |gcds|
        ensures Count(Calls(gcds, f, n * e).1, i) == n * Positive(gcds[i])
      {
        OneMore(n, Positive(gcds[i]));
      }
    }
  }

  /** Before the first call the counts are fresh. */
  lemma NoCalls(gcds: seq<int>, at: nat)
    requires at < |gcds|
    ensures Calls(gcds, Fresh(|gcds|, at), 0 * EpochLength(gcds)).0 == Fresh(|gcds|, at) && Fresh(|gcds|, at).at == at
  {
  }

  lemma OneMore(n: nat, x: nat)
    requires n > 0
    ensures (n - 1) * x + x == n * x
  {
  }
}
