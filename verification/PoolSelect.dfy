/** select_pool of sgminer.c: which pool the next work item comes from. */
module PoolSelect {
  import opened Sequences
  import opened Options
  import opened PoolOrder
  import opened PoolTable
  import opened Pools
  import opened R = QuotaRotation

  ghost function Used(pools: seq<Pool>): (r: seq<int>)
    reads pools`quotaUsed
    ensures |r| == |pools| && forall i :: 0 <= i < |r| ==> r[i] == pools[i].quotaUsed
  {
    if |pools| == 0 then [] else Used(pools[..|pools| - 1]) + [pools[|pools| - 1].quotaUsed]
  }

  ghost function Gcds(pools: seq<Pool>): (r: seq<int>)
    reads pools`quotaGcd
    ensures |r| == |pools| && forall i :: 0 <= i < |r| ==> r[i] == pools[i].quotaGcd
  {
    if |pools| == 0 then [] else Gcds(pools[..|pools| - 1]) + [pools[|pools| - 1].quotaGcd]
  }

  ghost function Works(pools: seq<Pool>): (r: seq<bool>)
    reads pools`idle, pools`state, pools`hasStratum, pools`stratumActive
    ensures |r| == |pools| && forall i :: 0 <= i < |r| ==> r[i] == !Unworkable(pools[i])
  {
    if |pools| == 0 then [] else Works(pools[..|pools| - 1]) + [!Unworkable(pools[|pools| - 1])]
  }

  method AddUsed(pools: seq<Pool>, i: nat, d: int)
    requires Distinct(pools) && i < |pools|
    modifies pools`quotaUsed
    ensures Used(pools) == old(Used(pools))[i := old(Used(pools))[i] + d]
  {
    hide Used;
    pools[i].quotaUsed := pools[i].quotaUsed + d;
  }

  ghost function Shares(pools: seq<Pool>): (r: seq<int>)
    reads pools`shares
    ensures |r| == |pools| && forall i :: 0 <= i < |r| ==> r[i] == pools[i].shares
  {
    if |pools| == 0 then [] else Shares(pools[..|pools| - 1]) + [pools[|pools| - 1].shares]
  }

  /** Pool k has the fewest shares of the current pool and the workable ones of the first n, and is the first such. */
  ghost predicate Fewest(pools: seq<Pool>, shares: seq<int>, c: nat, k: nat, n: nat)
    requires |shares| == |pools| && c < |pools| && k < |pools| && n <= |pools|
    reads pools`idle, pools`state, pools`hasStratum, pools`stratumActive
  {
    && (forall i :: 0 <= i < n && !Unworkable(pools[i]) ==> shares[k] <= shares[i])
    && (k == c || (!Unworkable(pools[k]) && shares[k] < shares[c]
                   && forall j :: 0 <= j < k && !Unworkable(pools[j]) ==> shares[k] < shares[j]))
  }

  /**
   * What balancing promises, on the share counts before and after: the pool is the current one unless a workable one
   * has fewer shares, and then the first of those with the fewest; its count alone goes up, by one.
   */
  ghost predicate Balanced(pools: seq<Pool>, cp: Pool, before: seq<int>, after: seq<int>, ret: Pool)
    requires |before| == |after| == |pools|
    reads pools`idle, pools`state, pools`hasStratum, pools`stratumActive
  {
    exists k, c ::
      && 0 <= k < |pools| && pools[k] == ret && 0 <= c < |pools| && pools[c] == cp
      && after == before[k := before[k] + 1] && Fewest(pools, before, c, k, |pools|)
  }

  lemma BalancedWithin(pools: seq<Pool>, cp: Pool, before: seq<int>, after: seq<int>, ret: Pool)
    requires |before| == |after| == |pools| && Balanced(pools, cp, before, after, ret)
    ensures ret in pools
  {
  }

  /** select_balanced. */
  method SelectBalanced(pools: seq<Pool>, cp: Pool) returns (ret: Pool)
    requires Distinct(pools) && cp in pools
    modifies pools`shares
    ensures Balanced(pools, cp, old(Shares(pools)), Shares(pools), ret)
  {
    hide *;
    ghost var before := Shares(pools);
    ghost var c;
    ghost var k;
    ret, c, k := FewestShares(pools, cp);
    AddShare(pools, ret, k);
    BalancedIs(pools, cp, before, Shares(pools), ret, c, k);
  }

  lemma BalancedIs(pools: seq<Pool>, cp: Pool, before: seq<int>, after: seq<int>, ret: Pool, c: nat, k: nat)
    requires |before| == |pools| && k < |pools| && pools[k] == ret && c < |pools| && pools[c] == cp
    requires after == before[k := before[k] + 1] && Fewest(pools, before, c, k, |pools|)
    ensures Balanced(pools, cp, before, after, ret)
  {
    hide Fewest;
  }

  method FewestShares(pools: seq<Pool>, cp: Pool) returns (ret: Pool, ghost c: nat, ghost k: nat)
    requires cp in pools
    ensures c < |pools| && pools[c] == cp && k < |pools| && pools[k] == ret
    ensures Fewest(pools, Shares(pools), c, k, |pools|)
  {
    hide Shares, Unworkable;
    c :| 0 <= c < |pools| && pools[c] == cp;
    ghost var before := Shares(pools);
    var lowest := cp.shares;
    ret, k := cp, c;
    for i := 0 to |pools|
      invariant k < |pools| && ret == pools[k] && before[k] == lowest && Fewest(pools, before, c, k, i)
      modifies {}
    {
      assert pools[i].shares == before[i];
      if !Unworkable(pools[i]) && pools[i].shares < lowest {
        lowest := pools[i].shares;
        ret, k := pools[i], i;
      }
    }
  }

  method AddShare(pools: seq<Pool>, pool: Pool, ghost k: nat)
    requires Distinct(pools) && k < |pools| && pools[k] == pool
    modifies pool`shares
    ensures Shares(pools) == old(Shares(pools))[k := old(Shares(pools))[k] + 1]
  {
    hide Shares;
    pool.shares := pool.shares + 1;
  }

  /** The first loop of select_pool: whether any pool has quota left. */
  method QuotaAvailable(pools: seq<Pool>, ghost r: Rot) returns (avail: bool)
    requires r.used == Used(pools)
    ensures avail == HasQuota(Gcds(pools), r)
  {
    hide Used, Gcds;
    avail := false;
    for i := 0 to |pools|
      invariant !avail && forall j :: 0 <= j < i ==> r.used[j] >= Gcds(pools)[j]
    {
      if pools[i].quotaUsed < pools[i].quotaGcd {
        avail := true;
        assert r.used[i] < Gcds(pools)[i];
        break;
      }
    }
  }

  /** The reset when no pool has quota left. */
  method ResetUsed(pools: seq<Pool>)
    requires Distinct(pools)
    modifies pools`quotaUsed
    ensures Used(pools) == seq(|pools|, _ => 0)
  {
    hide Used;
    for i := 0 to |pools|
      invariant forall j :: 0 <= j < i ==> pools[j].quotaUsed == 0
    {
      pools[i].quotaUsed := 0;
    }
  }

  /** quota_used++ of a pool in the table or not. */
  method CountOne(t: Table, pool: Pool)
    requires t.Valid()
    modifies pool`quotaUsed
    ensures pool in t.pools ==> 0 <= pool.poolNo < |t.pools|
    ensures pool.quotaUsed == old(pool.quotaUsed) + 1
    ensures Used(t.pools) ==
      if pool in t.pools then old(Used(t.pools))[pool.poolNo := old(Used(t.pools))[pool.poolNo] + 1]
      else old(Used(t.pools))
  {
    hide Used, InOrder;
    PoolAtNumber(t);
    pool.quotaUsed := pool.quotaUsed + 1;
  }

  /** What a probe does to the counts: the pool has one unit more, and a dead one with quota left gives it away. */
  method CountProbe(t: Table, pool: Pool, dead: bool)
    requires t.Valid() && |t.pools| > 0
    modifies t.pools`quotaUsed, pool`quotaUsed
    ensures pool in t.pools ==> 0 <= pool.poolNo < |t.pools|
    ensures pool !in t.pools ==> pool.quotaUsed == old(pool.quotaUsed) + 1
    ensures var used := old(Used(t.pools));
      Used(t.pools) == Spilled(
        if pool in t.pools then used[pool.poolNo := used[pool.poolNo] + 1] else used, if dead then Spill(t) else None
      )
  {
    hide *;
    CountOne(t, pool);
    SpillUnlessHit(t, dead);
  }

  /** One probe of the rotating pool. */
  method ProbeOne(t: Table, ghost r: Rot) returns (hit: bool)
    requires t.Valid() && Fits(Gcds(t.pools), r) && r == Rot(Used(t.pools), t.rotatingPool)
    modifies t.pools`quotaUsed
    ensures hit == (r.used[r.at] < Gcds(t.pools)[r.at] && Works(t.pools)[r.at])
    ensures Used(t.pools) == Charge(Gcds(t.pools), Works(t.pools), r, Spill(t))
  {
    hide *;
    ProbeFacts(t, r);
    ghost var gcds, works, spill := Gcds(t.pools), Works(t.pools), Spill(t);
    var pool := t.pools[t.rotatingPool];
    var had := pool.quotaUsed < pool.quotaGcd;
    hit := had && !Unworkable(pool);
    CountProbe(t, pool, had && !hit);
    ChargeIs(gcds, works, r, spill);
  }

  lemma ProbeFacts(t: Table, r: Rot)
    requires t.Valid() && Fits(Gcds(t.pools), r) && r == Rot(Used(t.pools), t.rotatingPool)
    ensures |t.pools| > 0 && t.rotatingPool < |t.pools| && t.pools[t.rotatingPool].poolNo == t.rotatingPool
    ensures var pool := t.pools[t.rotatingPool];
      && pool.quotaUsed == r.used[r.at] && pool.quotaGcd == Gcds(t.pools)[r.at]
      && Works(t.pools)[r.at] == !Unworkable(pool)
  {
    hide Used, Gcds, Works, Unworkable, Distinct;
  }

  lemma ChargeIs(gcds: seq<int>, works: seq<bool>, r: Rot, spill: Option<nat>)
    requires Fits(gcds, r) && |works| == |gcds| && (spill.Some? ==> spill.value < |gcds|)
    ensures Charge(gcds, works, r, spill) == Spilled(
      r.used[r.at := r.used[r.at] + 1], if r.used[r.at] < gcds[r.at] && !works[r.at] then spill else None
    )
  {
  }

  /** Failover-only gives the quota of a pool that does not work to the first. */
  method SpillUnlessHit(t: Table, dead: bool)
    requires t.Valid() && |t.pools| > 0
    modifies t.pools`quotaUsed
    ensures Used(t.pools) == Spilled(old(Used(t.pools)), if dead then Spill(t) else None)
  {
    hide Used, InOrder, Distinct;
    if dead && t.failOnly {
      SpillOver(t);
    }
  }

  /** The counts when one unit goes back to a pool, if to any. */
  function Spilled(used: seq<int>, to: Option<nat>): (r: seq<int>)
    requires to.Some? ==> to.value < |used|
    ensures |r| == |used|
  {
    if to.Some? then used[to.value := used[to.value] - 1] else used
  }

  /** priority_pool(0)->quota_used--. */
  method SpillOver(t: Table)
    requires t.Valid() && |t.pools| > 0 && t.failOnly
    modifies t.pools`quotaUsed
    ensures Spill(t).Some? && Used(t.pools) == Spilled(old(Used(t.pools)), Spill(t))
  {
    hide Used, InOrder, Distinct;
    SpillInRange(t);
    var first, failed := PriorityPool(t, 0);
    AddUsed(t.pools, first.poolNo, -1);
  }

  /** With failover-only set, a dead pool's quota goes to the pool of priority 0. */
  ghost function Spill(t: Table): (s: Option<nat>)
    requires t.Valid() && |t.pools| > 0
    reads t`pools, t`order, t`failOnly, t.pools`poolNo, t.pools`prio, t.order`poolNo
    ensures s.Some? ==> s.value < |t.pools|
  {
    SpillInRange(t);
    if t.failOnly then Some(t.order[0].poolNo) else None
  }

  lemma SpillInRange(t: Table)
    requires t.Valid() && |t.pools| > 0
    ensures |t.order| > 0 && 0 <= t.order[0].poolNo < |t.pools| && t.pools[t.order[0].poolNo] == t.order[0]
  {
    hide InOrder, Distinct;
    OrderLength(t);
    PoolAtNumber(t);
  }

  /** What a search depends on but does not change: shares, liveness and where spilled quota goes. */
  datatype Config = Config(gcds: seq<int>, works: seq<bool>, spill: Option<nat>) {
    predicate Sound() {
      |works| == |gcds| && (spill.Some? ==> spill.value < |gcds|)
    }

    function Search(r: Rot, left: nat): (Rot, Option<nat>)
      requires Sound() && Fits(gcds, r)
    {
      Probe(gcds, works, r, spill, left)
    }

    function Chosen(r: Rot): (Rot, Option<nat>)
      requires Sound() && Fits(gcds, r)
    {
      Select(gcds, works, r, spill)
    }
  }

  ghost function Cfg(t: Table): (c: Config)
    requires t.Valid() && |t.pools| > 0
    reads t`pools, t`order, t`failOnly, t.pools`poolNo, t.pools`prio, t.order`poolNo
    reads t.pools`quotaGcd, t.pools`idle, t.pools`state, t.pools`hasStratum, t.pools`stratumActive
    ensures c.Sound() && |c.gcds| == |t.pools|
  {
    Config(Gcds(t.pools), Works(t.pools), Spill(t))
  }

  /** What the rotating position may find behind the table: a pool that is still in the table, or a removed one. */
  datatype Slot = Slot(quotaLeft: bool, works: bool, number: Option<nat>) {

    /** The counts after a probe of it. */
    function Charged(used: seq<int>, spill: Option<nat>): (r: seq<int>)
      requires (number.Some? ==> number.value < |used|) && (spill.Some? ==> spill.value < |used|)
      ensures |r| == |used|
    {
      var u := if number.Some? then used[number.value := used[number.value] + 1] else used;
      Spilled(u, if quotaLeft && !works then spill else None)
    }
  }

  /** How a search ends: with no pool, with the pool of a number, or with what it found behind the table. */
  datatype Choice = Nobody | Numbered(i: nat) | FromBehind

  /** The search loop from any position. Only its first probe can be behind the table. */
  function Picked(c: Config, r: Rot, slot: Slot): (res: (Rot, Choice))
    requires c.Sound() && |r.used| == |c.gcds| > 0 && (slot.number.Some? ==> slot.number.value < |c.gcds|)
    ensures res.1.Numbered? ==> res.1.i < |c.gcds|
    ensures res.1.FromBehind? ==> slot.works && slot.quotaLeft && r.at >= |c.gcds|
  {
    if r.at < |c.gcds| then Ended(c.Search(r, |c.gcds|))
    else
      var used := slot.Charged(r.used, c.spill);
      if slot.quotaLeft && slot.works then (Rot(used, r.at), FromBehind)
      else Ended(c.Search(Rot(used, 0), |c.gcds| - 1))
  }

  function Ended(res: (Rot, Option<nat>)): (Rot, Choice) {
    (res.0, if res.1.Some? then Numbered(res.1.value) else Nobody)
  }

  /** What the rotating position finds if it is behind the table. */
  ghost function SlotAt(t: Table): (s: Slot)
    requires t.Valid()
    reads t`pools, t`order, t`stale, t`rotatingPool, t.pools`poolNo, t.pools`prio
    reads t.stale`poolNo, t.stale`quotaUsed, t.stale`quotaGcd
    reads t.stale`idle, t.stale`state, t.stale`hasStratum, t.stale`stratumActive
    ensures s.number.Some? ==> s.number.value < |t.pools|
  {
    PoolAtNumber(t);
    if |t.pools| <= t.rotatingPool < |t.pools| + |t.stale| then
      var p := t.stale[t.rotatingPool - |t.pools|];
      Slot(p.quotaUsed < p.quotaGcd, !Unworkable(p), if p in t.pools then Some(p.poolNo) else None)
    else Slot(false, false, None)
  }

  /** The pool in the slot behind the table that the rotating position is at. */
  ghost function BehindAt(t: Table): Option<Pool>
    reads t`pools, t`stale, t`rotatingPool
  {
    if |t.pools| <= t.rotatingPool < |t.pools| + |t.stale| then Some(t.stale[t.rotatingPool - |t.pools|]) else None
  }

  /** Of the pools behind the table one is counted that was probed, and otherwise none that was removed. */
  predicate CountedBehind(t: Table, before: seq<int>, after: seq<int>, probed: Option<Pool>)
    reads t`pools, t`stale
  {
    |before| == |after| == |t.stale|
    && forall k :: 0 <= k < |t.stale| && t.stale[k] !in t.pools ==>
         after[k] == before[k] + if probed == Some(t.stale[k]) then 1 else 0
  }

  lemma CountedIs(t: Table, before: seq<int>, after: seq<int>, probed: Option<Pool>)
    requires |before| == |after| == |t.stale|
    requires forall k :: 0 <= k < |t.stale| && t.stale[k] !in t.pools ==>
      after[k] == before[k] + if probed == Some(t.stale[k]) then 1 else 0
    ensures CountedBehind(t, before, after, probed)
  {
  }

  lemma CountedOn(t: Table, a: seq<int>, b: seq<int>, c: seq<int>, p: Option<Pool>, q: Option<Pool>)
    requires CountedBehind(t, a, b, p) && CountedBehind(t, b, c, q) && (p == None || q == None)
    ensures CountedBehind(t, a, c, if p == None then q else p)
  {
  }

  lemma NoneBehind(t: Table)
    ensures t.rotatingPool < |t.pools| ==> BehindAt(t) == None
  {
  }

  /** The counts and the rotating position. */
  ghost function Now(t: Table): (r: Rot)
    reads t`pools, t`rotatingPool, t.pools`quotaUsed
    ensures |r.used| == |t.pools| && r.at == t.rotatingPool
  {
    Rot(Used(t.pools), t.rotatingPool)
  }

  /** rotating_pool moves to the next slot. */
  method Rotate(t: Table)
    requires |t.pools| > 0
    modifies t`rotatingPool
    ensures t.rotatingPool == NextSlot(old(t.rotatingPool), |t.pools|)
  {
    t.rotatingPool := t.rotatingPool + 1;
    if t.rotatingPool >= |t.pools| {
      t.rotatingPool := 0;
    }
  }

  /** The first probe of a search, and what is left of the search after it. */
  lemma SearchNext(c: Config, r: Rot, left: nat)
    requires c.Sound() && Fits(c.gcds, r) && left > 0
    ensures var used := Charge(c.gcds, c.works, r, c.spill);
      c.Search(r, left) ==
        if r.used[r.at] < c.gcds[r.at] && c.works[r.at] then (Rot(used, r.at), Some(r.at))
        else c.Search(Rot(used, NextSlot(r.at, |c.gcds|)), left - 1)
  {
    hide Charge;
  }

  /** One iteration of the search loop of select_pool. */
  method ProbeTurn(t: Table, ghost left: nat) returns (hit: bool)
    requires t.Valid() && t.rotatingPool < |t.pools| && left > 0
    modifies t.pools`quotaUsed, t`rotatingPool
    ensures t.Valid() && t.rotatingPool < |t.pools| && Cfg(t) == old(Cfg(t))
    ensures Cfg(t).Search(old(Now(t)), left)
         == if hit then (Now(t), Some(t.rotatingPool)) else Cfg(t).Search(Now(t), left - 1)
  {
    hide *;
    ghost var c, r := Cfg(t), Now(t);
    NowIs(t);
    SearchNext(c, r, left);
    hit := ProbeCounted(t);
    if !hit {
      Rotate(t);
    }
    NowIs(t);
  }

  /** The probe, before the position moves on. */
  method ProbeCounted(t: Table) returns (hit: bool)
    requires t.Valid() && t.rotatingPool < |t.pools|
    modifies t.pools`quotaUsed
    ensures t.Valid() && Cfg(t) == old(Cfg(t))
    ensures var c, r := Cfg(t), old(Now(t));
      && Fits(c.gcds, r) && hit == (r.used[r.at] < c.gcds[r.at] && c.works[r.at])
      && Used(t.pools) == Charge(c.gcds, c.works, r, c.spill)
  {
    hide Used, Gcds, Works, Charge, Spill, Table.Valid;
    hit := ProbeOne(t, Now(t));
  }

  lemma NowIs(t: Table)
    ensures Now(t) == Rot(Used(t.pools), t.rotatingPool)
    ensures t.Valid() && |t.pools| > 0 ==> Cfg(t).spill == Spill(t)
    ensures t.Valid() && t.rotatingPool < |t.pools| ==> Fits(Cfg(t).gcds, Now(t))
  {
    hide Used, Gcds, Works, Spill;
  }

  /** It counts no pool that was removed. */
  method ProbeAdvance(t: Table, ghost left: nat) returns (hit: bool)
    requires t.Valid() && t.rotatingPool < |t.pools| && left > 0
    modifies t.pools`quotaUsed, t`rotatingPool
    ensures t.Valid() && t.rotatingPool < |t.pools| && Cfg(t) == old(Cfg(t))
    ensures CountedBehind(t, old(Used(t.stale)), Used(t.stale), None)
    ensures Cfg(t).Search(old(Now(t)), left)
         == if hit then (Now(t), Some(t.rotatingPool)) else Cfg(t).Search(Now(t), left - 1)
  {
    hide *;
    ghost var before := Used(t.stale);
    hit := ProbeTurn(t, left);
    CountedIs(t, before, Used(t.stale), None);
  }

  /** A probe behind the table. */
  method ProbeSlot(t: Table) returns (hit: bool)
    requires t.Valid() && 0 < |t.pools| <= t.rotatingPool < |t.pools| + |t.stale|
    modifies t.pools`quotaUsed, t.stale`quotaUsed
    ensures t.Valid() && Cfg(t) == old(Cfg(t)) && CountedBehind(t, old(Used(t.stale)), Used(t.stale), old(BehindAt(t)))
    ensures var s := old(SlotAt(t));
      hit == (s.quotaLeft && s.works) && Used(t.pools) == s.Charged(old(Used(t.pools)), Cfg(t).spill)
  {
    hide *;
    var pool := t.stale[t.rotatingPool - |t.pools|];
    ghost var s, used, before := SlotAt(t), Used(t.pools), Used(t.stale);
    SlotIs(t, pool);
    NowIs(t);
    var had := pool.quotaUsed < pool.quotaGcd;
    hit := had && !Unworkable(pool);
    CountProbe(t, pool, had && !hit);
    CountedIs(t, before, Used(t.stale), Some(pool));
    ChargedIs(s, used, Spill(t));
    NowIs(t);
  }

  /** After one that finds nothing the search goes on from the first slot. */
  method ProbeBehind(t: Table) returns (hit: bool)
    requires t.Valid() && 0 < |t.pools| <= t.rotatingPool < |t.pools| + |t.stale|
    modifies t.pools`quotaUsed, t.stale`quotaUsed, t`rotatingPool
    ensures t.Valid() && Cfg(t) == old(Cfg(t)) && CountedBehind(t, old(Used(t.stale)), Used(t.stale), old(BehindAt(t)))
    ensures var s := old(SlotAt(t));
      && hit == (s.quotaLeft && s.works)
      && Now(t) == Rot(s.Charged(old(Now(t)).used, Cfg(t).spill), if hit then old(t.rotatingPool) else 0)
  {
    hide *;
    NowIs(t);
    hit := ProbeSlot(t);
    if !hit {
      BackToStart(t.rotatingPool, |t.pools|);
      Rotate(t);
    }
    NowIs(t);
  }

  lemma BackToStart(at: nat, n: nat)
    requires 0 < n <= at
    ensures NextSlot(at, n) == 0
  {
  }

  lemma ChargedIs(s: Slot, used: seq<int>, spill: Option<nat>)
    requires (s.number.Some? ==> s.number.value < |used|) && (spill.Some? ==> spill.value < |used|)
    ensures s.Charged(used, spill) == Spilled(
      if s.number.Some? then used[s.number.value := used[s.number.value] + 1] else used,
      if s.quotaLeft && !s.works then spill else None
    )
  {
  }

  lemma SlotIs(t: Table, pool: Pool)
    requires t.Valid() && |t.pools| <= t.rotatingPool < |t.pools| + |t.stale|
    requires pool == t.stale[t.rotatingPool - |t.pools|]
    ensures pool in t.pools ==> 0 <= pool.poolNo < |t.pools|
    ensures BehindAt(t) == Some(pool)
    ensures SlotAt(t)
         == Slot(pool.quotaUsed < pool.quotaGcd, !Unworkable(pool), if pool in t.pools then Some(pool.poolNo) else None)
  {
    hide Unworkable, Table.Valid;
    PoolAtNumber(t);
  }

  /** The search loop of select_pool: at most total_pools probes around the ring. */
  method ProbeRing(t: Table) returns (pool: Pool?, ghost choice: Choice)
    requires t.Valid() && |t.pools| > 0 && t.rotatingPool < |t.pools| + |t.stale|
    modifies t.pools`quotaUsed, t.stale`quotaUsed, t`rotatingPool
    ensures Cfg(t) == old(Cfg(t)) && (Now(t), choice) == Picked(Cfg(t), old(Now(t)), old(SlotAt(t)))
    ensures CountedBehind(t, old(Used(t.stale)), Used(t.stale), old(BehindAt(t)))
    ensures choice == FromBehind ==> |t.pools| <= old(t.rotatingPool)
    ensures pool ==
      match choice
      case Nobody => null
      case Numbered(i) => t.pools[i]
      case FromBehind => t.stale[old(t.rotatingPool) - |t.pools|]
  {
    hide Cfg, Now, SlotAt, Config.Search, Slot.Charged, Table.Valid, CountedBehind, BehindAt, Used;
    CountedIs(t, Used(t.stale), Used(t.stale), None);
    ghost var c, r, slot, before, behind := Cfg(t), Now(t), SlotAt(t), Used(t.stale), BehindAt(t);
    pool, choice := null, Nobody;
    for tested := 0 to |t.pools|
      invariant t.Valid() && pool == null && choice == Nobody && Cfg(t) == c
      invariant tested > 0 ==> t.rotatingPool < |t.pools|
      invariant CountedBehind(t, before, Used(t.stale), if tested == 0 then None else behind)
      invariant tested == 0 ==> BehindAt(t) == behind
      invariant tested == 0 ==> Now(t) == r && SlotAt(t) == slot && t.rotatingPool < |t.pools| + |t.stale|
      invariant t.rotatingPool < |t.pools| ==> Picked(c, r, slot) == Ended(c.Search(Now(t), |t.pools| - tested))
    {
      var hit;
      ghost var between := Used(t.stale);
      if t.rotatingPool < |t.pools| {
        NoneBehind(t);
        hit := ProbeAdvance(t, |t.pools| - tested);
        CountedOn(t, before, between, Used(t.stale), if tested == 0 then None else behind, None);
        if hit {
          pool, choice := t.pools[t.rotatingPool], Numbered(t.rotatingPool);
          return;
        }
      } else {
        pool := t.stale[t.rotatingPool - |t.pools|];
        hit := ProbeBehind(t);
        CountedOn(t, before, between, Used(t.stale), None, behind);
        if hit {
          choice := FromBehind;
          return;
        }
        pool := null;
      }
    }
    NoProbe(c, Now(t));
  }

  /** Inside the table the slot does not matter. */
  lemma PickedInside(c: Config, r: Rot, s: Slot, s': Slot)
    requires c.Sound() && Fits(c.gcds, r)
    requires (s.number.Some? ==> s.number.value < |c.gcds|) && (s'.number.Some? ==> s'.number.value < |c.gcds|)
    ensures Picked(c, r, s) == Picked(c, r, s')
  {
  }

  lemma NoProbe(c: Config, r: Rot)
    requires c.Sound() && Fits(c.gcds, r)
    ensures c.Search(r, 0) == (r, None)
  {
  }

  method QuotaLeft(t: Table) returns (avail: bool)
    requires t.Valid() && |t.pools| > 0
    ensures avail == HasQuota(Cfg(t).gcds, Now(t)) == HasQuota(Gcds(t.pools), Now(t))
  {
    hide Used, Gcds, HasQuota;
    avail := QuotaAvailable(t.pools, Now(t));
  }

  method ResetAndRotate(t: Table)
    requires t.Valid() && |t.pools| > 0
    modifies t.pools`quotaUsed, t`rotatingPool
    ensures t.Valid() && Cfg(t) == old(Cfg(t)) && t.rotatingPool < |t.pools|
    ensures Now(t) == Fresh(|t.pools|, NextSlot(old(Now(t)).at, |t.pools|))
  {
    hide Used, Gcds, Works, Spill, InOrder;
    ResetUsed(t.pools);
    Rotate(t);
  }

  /** The first two loops of select_pool: reset and move on when no pool has quota. */
  method ResetIfUsedUp(t: Table)
    requires t.Valid() && |t.pools| > 0
    modifies t.pools`quotaUsed, t`rotatingPool
    ensures Cfg(t) == old(Cfg(t)) && Now(t) == Reset(Cfg(t).gcds, old(Now(t)))
    ensures old(Readable(t)) ==> t.rotatingPool < |t.pools| + |t.stale|
    ensures t.rotatingPool == old(t.rotatingPool) ==> t.rotatingPool < |t.pools| || SlotAt(t) == old(SlotAt(t))
    ensures t.rotatingPool < |t.pools| || t.rotatingPool == old(t.rotatingPool)
    ensures CountedBehind(t, old(Used(t.stale)), Used(t.stale), None)
    ensures BehindAt(t) == if old(HasQuota(Gcds(t.pools), Now(t))) then old(BehindAt(t)) else None
  {
    hide Cfg, Now, Gcds, SlotAt, Table.Valid, HasQuota, Fresh, Used, CountedBehind;
    var avail := QuotaLeft(t);
    ghost var before := Used(t.stale);
    if !avail {
      ResetAndRotate(t);
    }
    CountedIs(t, before, Used(t.stale), None);
  }

  /** Without a live pool that has quota: the first usable pool by priority, else the current one. */
  method Fallback(t: Table, cp: Pool) returns (pool: Pool)
    requires t.Valid() && cp in t.pools
    ensures pool in t.pools
    ensures var c := FirstUsable(t.order); pool == if c < |t.order| then t.order[c] else cp
  {
    hide InOrder, Distinct;
    OrderLength(t);
    for i := 0 to |t.pools|
      invariant forall j :: 0 <= j < i ==> Unusable(t.order[j])
    {
      var tp, failed := PriorityPool(t, i);
      if !Unusable(tp) {
        FirstUsableIs(t.order, i);
        return tp;
      }
    }
    FirstUsableIs(t.order, |t.order|);
    pool := cp;
  }

  /** The pool select_pool returns once a search is over. */
  ghost function Outcome(pools: seq<Pool>, order: seq<Pool>, cp: Pool, choice: Choice, behind: Option<Pool>): Pool
    requires (choice.Numbered? ==> choice.i < |pools|) && (choice.FromBehind? ==> behind.Some?)
    reads order`idle, order`state
  {
    match choice
    case Numbered(i) => pools[i]
    case FromBehind => behind.value
    case Nobody =>
      var c := FirstUsable(order);
      if c < |order| then order[c] else cp
  }

  /** The position is in the array that pools points to, or is reset before it is used. */
  ghost predicate Readable(t: Table)
    reads t`pools, t`stale, t`rotatingPool, t.pools`quotaGcd, t.pools`quotaUsed
  {
    t.rotatingPool < |t.pools| + |t.stale| || !HasQuota(Gcds(t.pools), Now(t))
  }

  /** The reset and the search. */
  ghost function Turn(t: Table): (res: (Rot, Choice))
    requires t.Valid() && |t.pools| > 0
    reads t`pools, t`order, t`failOnly, t`stale, t`rotatingPool, t.pools, t.order`poolNo, t.stale
    ensures res.1.Numbered? ==> res.1.i < |t.pools|
    ensures res.1.FromBehind? ==> BehindAt(t).Some?
  {
    Picked(Cfg(t), Reset(Cfg(t).gcds, Now(t)), SlotAt(t))
  }

  /**
   * The position is behind the table at a removed pool that would be worked with, and there is quota left, so that the
   * position is not reset first.
   */
  ghost predicate Strays(t: Table)
    requires t.Valid()
    reads t`pools, t`order, t`stale, t`rotatingPool, t.pools, t.stale
  {
    && |t.pools| <= t.rotatingPool < |t.pools| + |t.stale|
    && HasQuota(Gcds(t.pools), Now(t))
    && SlotAt(t).quotaLeft && SlotAt(t).works && SlotAt(t).number == None
  }

  /** Exactly then the pool that comes back is not one of the table. */
  lemma StraysExactly(t: Table, cp: Pool)
    requires t.Valid() && cp in t.pools && Readable(t)
    ensures |t.pools| > 0 && (Outcome(t.pools, t.order, cp, Turn(t).1, BehindAt(t)) in t.pools <==> !Strays(t))
  {
    hide Table.Valid, FirstUsable, Gcds, Works, Used, Spill, HasQuota, Probe;
    OrderLength(t);
  }

  /** A pool that the search comes back with is enabled, not idle, and has a stratum connection if it needs one. */
  lemma TurnAlive(t: Table)
    requires t.Valid() && |t.pools| > 0
    ensures !Turn(t).1.Nobody? ==>
      var p := if Turn(t).1.FromBehind? then BehindAt(t).value else t.pools[Turn(t).1.i];
      !p.idle && p.state == Enabled && (p.hasStratum ==> p.stratumActive)
  {
    hide Table.Valid, Used, Gcds, Spill, Probe, Reset;
    var c, r, slot := Cfg(t), Reset(Cfg(t).gcds, Now(t)), SlotAt(t);
    if r.at < |c.gcds| {
      ProbeSound(c.gcds, c.works, r, c.spill, |c.gcds|);
    } else {
      ProbeSound(c.gcds, c.works, Rot(slot.Charged(r.used, c.spill), 0), c.spill, |c.gcds| - 1);
    }
  }

  /** The reset and the search of select_pool. */
  method SearchAll(t: Table) returns (found: Pool?, ghost choice: Choice)
    requires t.Valid() && |t.pools| > 0 && Readable(t)
    modifies t.pools`quotaUsed, t.stale`quotaUsed, t`rotatingPool
    ensures (Now(t), choice) == old(Turn(t)) && (choice.FromBehind? ==> old(BehindAt(t)).Some?)
    ensures CountedBehind(t, old(Used(t.stale)), Used(t.stale),
      if old(HasQuota(Gcds(t.pools), Now(t))) then old(BehindAt(t)) else None)
    ensures found ==
      match choice
      case Nobody => null
      case Numbered(i) => t.pools[i]
      case FromBehind => old(BehindAt(t)).value
  {
    hide Cfg, Now, SlotAt, Picked, Reset, InOrder, Distinct, CountedBehind, Used, HasQuota, Gcds;
    ghost var c, slot, before := Cfg(t), SlotAt(t), Used(t.stale);
    ResetIfUsedUp(t);
    ghost var between, behind := Used(t.stale), BehindAt(t);
    if t.rotatingPool < |t.pools| {
      PickedInside(c, Now(t), slot, SlotAt(t));
    }
    found, choice := ProbeRing(t);
    CountedOn(t, before, between, Used(t.stale), None, behind);
  }

  /** The quota part of select_pool: load balance, or looking elsewhere while the current pool lags. */
  method SelectByQuota(t: Table, cp: Pool) returns (pool: Pool)
    requires t.Valid() && cp in t.pools && Readable(t)
    modifies t.pools`quotaUsed, t.stale`quotaUsed, t`rotatingPool
    ensures |t.pools| > 0 && Now(t) == old(Turn(t)).0
    ensures CountedBehind(t, old(Used(t.stale)), Used(t.stale),
      if old(HasQuota(Gcds(t.pools), Now(t))) then old(BehindAt(t)) else None)
    ensures pool == Outcome(t.pools, t.order, cp, old(Turn(t)).1, old(BehindAt(t)))
  {
    hide Cfg, Now, SlotAt, Turn, BehindAt, FirstUsable, InOrder, Distinct, CountedBehind, Used, HasQuota, Gcds;
    hide Readable;
    var found, choice := SearchAll(t);
    if found == null {
      pool := Fallback(t, cp);
    } else {
      pool := found;
    }
  }

  /** Whether select_pool goes by quota. */
  predicate ByQuota(strategy: Strategy, lagging: bool, failOnly: bool) {
    strategy == LoadBalance || (strategy != Balance && lagging && !failOnly)
  }

  /**
   * select_pool. After pools were removed the rotating position can be behind the table, where the array still holds
   * pools: one of them can then come back, even if it was removed.
   */
  method SelectPool(t: Table, lagging: bool) returns (pool: Pool)
    requires t.Running() && (ByQuota(t.strategy, lagging, t.failOnly) ==> Readable(t))
    modifies t.pools`quotaUsed, t.stale`quotaUsed, t.pools`shares, t`rotatingPool
    ensures |t.pools| > 0
    ensures t.strategy == Balance ==>
      Now(t) == old(Now(t)) && Balanced(t.pools, t.currentpool, old(Shares(t.pools)), Shares(t.pools), pool)
    ensures t.strategy != Balance ==> Shares(t.pools) == old(Shares(t.pools))
    ensures t.strategy != Balance && !ByQuota(t.strategy, lagging, t.failOnly) ==>
      pool == t.currentpool && Now(t) == old(Now(t))
    ensures ByQuota(t.strategy, lagging, t.failOnly) ==>
      Now(t) == old(Turn(t)).0 && pool == Outcome(t.pools, t.order, t.currentpool, old(Turn(t)).1, old(BehindAt(t)))
    ensures CountedBehind(t, old(Used(t.stale)), Used(t.stale),
      if ByQuota(t.strategy, lagging, t.failOnly) && old(HasQuota(Gcds(t.pools), Now(t))) then old(BehindAt(t))
      else None)
    ensures pool in t.pools <==> !(ByQuota(t.strategy, lagging, t.failOnly) && old(Strays(t)))
  {
    hide Strays, Fewest, Cfg, Now, Turn, Used, Shares, Outcome, InOrder, Distinct, Balanced;
    var cp := t.currentpool;
    if t.strategy == Balance {
      pool := SelectBalanced(t.pools, cp);
      BalancedWithin(t.pools, cp, old(Shares(t.pools)), Shares(t.pools), pool);
      return;
    }
    if t.strategy != LoadBalance && (!lagging || t.failOnly) {
      pool := cp;
      return;
    }
    StraysExactly(t, cp);
    pool := SelectByQuota(t, cp);
  }

  /** Load balancing among pools that all work. */
  ghost predicate AllAlive(t: Table)
    reads t`pools, t`order, t`strategy, t`failOnly, t`rotatingPool, t`currentpool, t.pools`poolNo, t.pools`prio
    reads t.pools`idle, t.pools`state, t.pools`hasStratum, t.pools`stratumActive
  {
    && t.Running() && t.strategy == LoadBalance && !t.failOnly && t.rotatingPool < |t.pools|
    && forall p <- t.pools :: !Unworkable(p)
  }

  /** The pools that calls returned, by number. */
  ghost predicate Named(pools: seq<Pool>, ps: seq<Option<nat>>, chosen: seq<Pool>) {
    |chosen| == |ps|
    && forall k :: 0 <= k < |ps| && ps[k].Some? ==> ps[k].value < |pools| && chosen[k] == pools[ps[k].value]
  }

  /** n calls of select_pool in a row. */
  method SelectMany(t: Table, n: nat) returns (chosen: seq<Pool>, ghost ps: seq<Option<nat>>)
    requires AllAlive(t)
    modifies t.pools`quotaUsed, t.stale`quotaUsed, t.pools`shares, t`rotatingPool
    ensures AllAlive(t) && Fits(Gcds(t.pools), old(Now(t)))
    ensures (Now(t), ps) == R.Calls(Gcds(t.pools), old(Now(t)), n) && Named(t.pools, ps, chosen)
    ensures Shares(t.pools) == old(Shares(t.pools)) && CountedBehind(t, old(Used(t.stale)), Used(t.stale), None)
  {
    hide *;
    chosen, ps := [], [];
    ghost var gcds, r, shares, before := Gcds(t.pools), Now(t), Shares(t.pools), Used(t.stale);
    CountedIs(t, before, before, None);
    AliveFits(t);
    CallsNext(gcds, r, 0);
    NamedNone(t.pools);
    for i := 0 to n
      invariant AllAlive(t) && Gcds(t.pools) == gcds && Fits(gcds, r)
      invariant (Now(t), ps) == R.Calls(gcds, r, i) && Named(t.pools, ps, chosen)
      invariant Shares(t.pools) == shares && CountedBehind(t, before, Used(t.stale), None)
    {
      ghost var between := Used(t.stale);
      ghost var p;
      var pool;
      CallsNext(gcds, r, i + 1);
      pool, p := SelectOne(t);
      CountedOn(t, before, between, Used(t.stale), None, None);
      NamedMore(t.pools, ps, chosen, p, pool);
      chosen, ps := chosen + [pool], ps + [p];
    }
  }

  method SelectOne(t: Table) returns (pool: Pool, ghost p: Option<nat>)
    requires AllAlive(t)
    modifies t.pools`quotaUsed, t.stale`quotaUsed, t.pools`shares, t`rotatingPool
    ensures AllAlive(t) && Fits(Gcds(t.pools), old(Now(t)))
    ensures (Now(t), p) == Select(Gcds(t.pools), AllWork(|Gcds(t.pools)|), old(Now(t)), None)
    ensures p.Some? ==> p.value < |t.pools| && pool == t.pools[p.value]
    ensures Shares(t.pools) == old(Shares(t.pools)) && CountedBehind(t, old(Used(t.stale)), Used(t.stale), None)
  {
    hide Turn, Gcds, Now, Select, InOrder, Distinct, Unworkable, FirstUsable, Used, CountedBehind, BehindAt, HasQuota;
    hide Shares;
    NoneBehind(t);
    AliveFits(t);
    AliveTurn(t);
    p := Select(Gcds(t.pools), AllWork(|Gcds(t.pools)|), Now(t), None).1;
    pool := SelectPool(t, false);
  }

  lemma AliveFits(t: Table)
    requires AllAlive(t)
    ensures |t.pools| > 0 && Fits(Gcds(t.pools), Now(t))
  {
    hide Used, Gcds, InOrder, Distinct, Unworkable;
  }

  lemma AliveTurn(t: Table)
    requires AllAlive(t) && Fits(Gcds(t.pools), Now(t))
    ensures |t.pools| > 0 && Turn(t) == Ended(Select(Gcds(t.pools), AllWork(|Gcds(t.pools)|), Now(t), None))
  {
    hide Used, Gcds, Works, InOrder, Distinct, Unworkable, Probe, Reset;
    assert Works(t.pools) == AllWork(|t.pools|);
  }

  lemma NamedNone(pools: seq<Pool>)
    ensures Named(pools, [], [])
  {
  }

  lemma {:induction false} NamedMore(pools: seq<Pool>, ps: seq<Option<nat>>, chosen: seq<Pool>, p: Option<nat>,
                                     pool: Pool)
    requires Named(pools, ps, chosen) && (p.Some? ==> p.value < |pools| && pool == pools[p.value])
    ensures Named(pools, ps + [p], chosen + [pool])
  {
  }

  /** Counting pools is counting their numbers. */
  lemma {:induction false} NamedCount(pools: seq<Pool>, ps: seq<Option<nat>>, chosen: seq<Pool>, i: nat)
    requires Distinct(pools) && i < |pools| && Named(pools, ps, chosen) && AllFound(ps)
    ensures multiset(chosen)[pools[i]] == Count(ps, i)
  {
    if |ps| == 0 {
    } else {
      var n := |ps| - 1;
      NamedCount(pools, ps[..n], chosen[..n], i);
      assert chosen == chosen[..n] + [chosen[n]];
      assert chosen[n] == pools[i] <==> ps[n] == Some(i);
      hide Distinct;
    }
  }

  /** From fresh counts, a whole number of rounds of select_pool returns every pool in exact proportion to its share. */
  method SelectRounds(t: Table, n: nat, ghost rounds: nat) returns (chosen: seq<Pool>)
    requires AllAlive(t) && EpochLength(Gcds(t.pools)) > 0 && n == rounds * EpochLength(Gcds(t.pools))
    requires forall p <- t.pools :: p.quotaUsed == 0
    modifies t.pools`quotaUsed, t.stale`quotaUsed, t.pools`shares, t`rotatingPool
    ensures forall i :: 0 <= i < |t.pools| ==> multiset(chosen)[t.pools[i]] == rounds * Positive(t.pools[i].quotaGcd)
    ensures Fits(Gcds(t.pools), old(Now(t))) && Now(t) == R.Calls(Gcds(t.pools), old(Now(t)), n).0
    ensures Shares(t.pools) == old(Shares(t.pools)) && CountedBehind(t, old(Used(t.stale)), Used(t.stale), None)
  {
    hide *;
    ghost var gcds, at := Gcds(t.pools), t.rotatingPool;
    AliveFits(t);
    FreshNow(t);
    ghost var ps;
    chosen, ps := SelectMany(t, n);
    WholeRunsExact(gcds, at, rounds);
    AliveDistinct(t);
    forall i | 0 <= i < |t.pools|
      ensures multiset(chosen)[t.pools[i]] == rounds * Positive(t.pools[i].quotaGcd)
    {
      NamedCount(t.pools, ps, chosen, i);
    }
  }

  lemma FreshNow(t: Table)
    requires forall p <- t.pools :: p.quotaUsed == 0
    requires Fits(Gcds(t.pools), Now(t))
    ensures Now(t) == Fresh(|t.pools|, t.rotatingPool) && t.rotatingPool < |t.pools|
  {
    hide Used, Gcds;
  }

  lemma AliveDistinct(t: Table)
    requires AllAlive(t)
    ensures Distinct(t.pools)
  {
  }

  /** A call with every pool alive and quota left returns a pool of the rotation and takes one unit from it. */
  lemma AliveSelection(c: Config, r: Rot)
    requires c.Sound() && Fits(c.gcds, r) && c.works == AllWork(|c.gcds|) && HasQuota(c.gcds, r)
    ensures var (r', p) := c.Chosen(r);
      && p.Some?
      && forall k :: 0 <= k < |c.gcds| ==> Left(c.gcds, r', k) == Left(c.gcds, r, k) - if k == p.value then 1 else 0
  {
    SpillUnused(c.gcds, Reset(c.gcds, r), c.spill, |c.gcds|);
    SelectTakesOne(c.gcds, r);
  }

  /** The first pool, unused so far, gets the quota of a dead one and so a count below zero. */
  lemma CountBelowZero()
    ensures var c := Config([1, 1, 1], [true, false, true], Some(0));
      c.Chosen(Rot([0, 0, 0], 1)) == (Rot([-1, 1, 1], 2), Some(2))
  {
    var c, r, q := Config([1, 1, 1], [true, false, true], Some(0)), Rot([0, 0, 0], 1), Rot([-1, 1, 0], 2);
    assert r.used[0] < c.gcds[0];
    assert [0, 0, 0][1 := 1][0 := -1] == [-1, 1, 0] && [-1, 1, 0][2 := 1] == [-1, 1, 1];
    assert c.Search(q, 2) == (Rot([-1, 1, 1], 2), Option.Some(2));
    assert c.Search(r, 3) == c.Search(q, 2);
  }

  /** Spilling only happens on dead pools. */
  lemma {:induction false} SpillUnused(gcds: seq<int>, r: Rot, spill: Option<nat>, left: nat)
    requires Fits(gcds, r) && (spill.Some? ==> spill.value < |gcds|)
    ensures Probe(gcds, AllWork(|gcds|), r, spill, left) == Probe(gcds, AllWork(|gcds|), r, None, left)
    decreases left
  {
    if left == 0 {
    } else {
      SpillUnused(gcds, Rot(Charge(gcds, AllWork(|gcds|), r, None), NextSlot(r.at, |gcds|)), spill, left - 1);
    }
  }
}
