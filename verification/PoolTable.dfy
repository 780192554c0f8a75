/** struct pool and the global pool table of sgminer.c. */
module PoolTable {
  import opened Sequences
  import opened PoolOrder

  datatype PoolState = Disabled | Enabled | Hidden | Rejecting
  datatype Strategy = Failover | RoundRobin | Rotate | LoadBalance | Balance

  class Pool {
    var poolNo: int
    var prio: int
    var idle: bool
    var state: PoolState
    var removed: bool
    var hasStratum: bool
    var stratumActive: bool
    var quota: int
    var quotaGcd: int
    var quotaUsed: int
    var shares: int

    constructor (number: nat)
      ensures poolNo == prio == number && quota == 1 && quotaGcd == 0 && quotaUsed == 0 && shares == 0
      ensures !idle && state == Enabled && !removed && !hasStratum && !stratumActive
    {
      poolNo, prio, quota, quotaGcd, quotaUsed, shares := number, number, 1, 0, 0, 0;
      idle, state, removed, hasStratum, stratumActive := false, Enabled, false, false, false;
    }
  }

  /** pools[], total_pools, currentpool and the settings that decide between pools. */
  class Table {
    var pools: seq<Pool>
    var currentpool: Pool?
    var strategy: Strategy
    var failOnly: bool
    var globalQuotaGcd: nat
    var rotatingPool: nat
    /** enabled_pools: what EnablePool and RejectPool count. */
    var enabledPools: int
    /** What the slots of pools[] behind total_pools still hold. */
    var stale: seq<Pool>
    /** The pools by priority. */
    ghost var order: seq<Pool>

    constructor ()
      ensures pools == [] && stale == [] && order == [] && currentpool == null
      ensures strategy == Failover && !failOnly && globalQuotaGcd == 1 && rotatingPool == 0 && enabledPools == 0
    {
      pools, stale, order, currentpool := [], [], [], null;
      strategy, failOnly, globalQuotaGcd, rotatingPool, enabledPools := Failover, false, 1, 0, 0;
    }

    /** Every pool sits in the slot its number says, and the priorities number the pools of order. */
    ghost predicate Valid()
      reads this`pools, this`order, pools`poolNo, pools`prio
    {
      && Distinct(pools)
      && (forall i :: 0 <= i < |pools| ==> pools[i].poolNo == i)
      && InOrder(pools, Prios(pools), order)
    }

    /** After startup the current pool is one of the table. */
    ghost predicate Running()
      reads this`pools, this`order, this`currentpool, pools`poolNo, pools`prio
    {
      Valid() && currentpool != null && currentpool in pools
    }
  }

  /** A slot behind the table holds a pool that is in the table as well, or one that is not enabled. */
  ghost predicate Retired(t: Table)
    reads t`pools, t`stale, t.stale`state
  {
    forall p :: p in t.stale ==> p in t.pools || p.state != Enabled
  }

  ghost function Prios(pools: seq<Pool>): (r: seq<int>)
    reads pools`prio
    ensures |r| == |pools| && forall i :: 0 <= i < |r| ==> r[i] == pools[i].prio
  {
    if |pools| == 0 then [] else Prios(pools[..|pools| - 1]) + [pools[|pools| - 1].prio]
  }

  /** pool_unusable. */
  predicate Unusable(p: Pool)
    reads p`idle, p`state
  {
    p.idle || p.state != Enabled
  }

  /** pool_unworkable. */
  predicate Unworkable(p: Pool)
    reads p`idle, p`state, p`hasStratum, p`stratumActive
  {
    p.idle || p.state != Enabled || (p.hasStratum && !p.stratumActive)
  }

  /** The place of the first usable pool of a list, or its length. */
  ghost function FirstUsable(s: seq<Pool>): (r: nat)
    reads s`idle, s`state
    ensures r <= |s| && (r < |s| ==> !Unusable(s[r]))
    ensures forall j :: 0 <= j < r ==> Unusable(s[j])
  {
    if |s| == 0 || !Unusable(s[0]) then 0 else 1 + FirstUsable(s[1..])
  }

  lemma FirstUsableIs(s: seq<Pool>, r: nat)
    requires r <= |s| && (r < |s| ==> !Unusable(s[r])) && forall j :: 0 <= j < r ==> Unusable(s[j])
    ensures FirstUsable(s) == r
  {
  }
}
