/** Runs in which select_pool returns a pool that was removed. */
module PoolStray {
  import opened Sequences
  import opened Options
  import opened PoolOrder
  import opened PoolTable
  import opened Pools
  import opened QuotaAdjust
  import opened QuotaMath
  import opened QuotaRotation
  import opened PoolCommands
  import opened PoolRuns
  import opened PoolSelect

  lemma RunningHas(t: Table)
    requires t.Running()
    ensures t.Valid() && t.currentpool != null && t.currentpool in t.pools
  {
  }

  /** What makes a selection stray. */
  lemma StraysIf(t: Table, pool: Pool, other: Pool)
    requires t.Valid() && |t.pools| <= t.rotatingPool < |t.pools| + |t.stale|
    requires pool == t.stale[t.rotatingPool - |t.pools|] && pool !in t.pools
    requires pool.quotaUsed < pool.quotaGcd && !Unworkable(pool)
    requires other in t.pools && other.quotaUsed < other.quotaGcd
    ensures Strays(t)
  {
    hide Table.Valid, Unworkable, Used, Gcds;
    var i :| 0 <= i < |t.pools| && t.pools[i] == other;
    assert Used(t.pools)[i] < Gcds(t.pools)[i];
  }

  /** A selection that strays returns the pool behind the table. */
  lemma StrayIs(t: Table)
    requires t.Valid() && |t.pools| > 0 && Strays(t)
    ensures Turn(t).1 == FromBehind && BehindAt(t) == Some(t.stale[t.rotatingPool - |t.pools|])
  {
    hide Table.Valid, HasQuota, Used, Gcds, Works, Spill, Probe;
  }

  /** A removed pool is put aside and taken back. */
  method RemoveAndRevive(t: Table, id: nat)
    requires t.Running() && id < |t.pools| && |t.pools| > 1 && t.pools[id] != t.currentpool && t.enabledPools > 1
    modifies t.pools`prio, t.pools`poolNo, t.pools`state, t.pools`removed
    modifies t`pools, t`stale, t`order, t`currentpool, t`enabledPools
    ensures t.Running() && t.pools == SwapLast(old(t.pools), id)
    ensures t.stale == [old(t.pools)[|old(t.pools)| - 1]] + old(t.stale)
    ensures var pool := old(t.pools)[id]; pool.removed && pool.state == Enabled && pool !in t.pools
    ensures forall p :: p in old(t.pools) && p != old(t.pools)[id] ==> p in t.pools
    ensures forall i :: 0 <= i < |t.pools| ==> t.pools[i] in old(t.pools)
  {
    hide *;
    RunningHas(t);
    var pool := t.pools[id];
    var status := RemovePoolCommand(t, id);
    assert forall i :: 0 <= i < |t.pools| ==> t.pools[i] in old(t.pools);
    SharesRejected(t, pool);
    ShareAccepted(t, pool);
  }

  predicate Connected(pool: Pool)
    reads pool`idle, pool`hasStratum, pool`stratumActive
  {
    !pool.idle && (pool.hasStratum ==> pool.stratumActive)
  }

  lemma WorksNow(pool: Pool)
    requires Connected(pool) && pool.state == Enabled
    ensures !Unworkable(pool)
  {
  }

  /** The removal after which the next selection strays. */
  method PrepareStray(t: Table)
    requires t.Running() && |t.pools| > 1 && t.rotatingPool == |t.pools| - 1 && t.enabledPools > 1
    requires var last := t.pools[|t.pools| - 1];
      last != t.currentpool && last.quotaUsed < last.quotaGcd && Connected(last)
    requires exists p <- t.pools :: p != t.pools[|t.pools| - 1] && p.quotaUsed < p.quotaGcd
    modifies t.pools`prio, t.pools`poolNo, t.pools`state, t.pools`removed
    modifies t`pools, t`stale, t`order, t`currentpool, t`enabledPools
    ensures t.Running() && t.Valid() && Strays(t) && |t.stale| > 0 && t.rotatingPool == |t.pools|
    ensures t.stale == [old(t.pools)[|old(t.pools)| - 1]] + old(t.stale) && t.stale[0] !in t.pools && t.stale[0].removed
    ensures forall i :: 0 <= i < |t.pools| ==> t.pools[i] in old(t.pools)
  {
    hide *;
    RunningHas(t);
    var last := t.pools[|t.pools| - 1];
    ghost var other :| other in t.pools && other != last && other.quotaUsed < other.quotaGcd;
    RemoveAndRevive(t, |t.pools| - 1);
    RunningHas(t);
    WorksNow(last);
    StraysIf(t, last, other);
  }

  lemma StrayOutcome(t: Table)
    requires t.Running() && t.Valid() && t.strategy == LoadBalance && Strays(t)
    ensures |t.pools| > 0 && t.currentpool != null && Readable(t) && ByQuota(t.strategy, false, t.failOnly)
    ensures Outcome(t.pools, t.order, t.currentpool, Turn(t).1, BehindAt(t)) == t.stale[t.rotatingPool - |t.pools|]
  {
    hide Turn, BehindAt, Table.Valid, FirstUsable, HasQuota, SlotAt;
    StrayIs(t);
  }

  /**
   * It does happen, and in every table whose rotation has reached its last pool, while that pool and another one have
   * quota left and more than one pool is counted as enabled: once that pool is removed, has its shares rejected and
   * then one accepted, it is selected next.
   */
  method StrayAfterRemoval(t: Table) returns (pool: Pool)
    requires t.Running() && t.strategy == LoadBalance && |t.pools| > 1 && t.rotatingPool == |t.pools| - 1
    requires t.enabledPools > 1
    requires var last := t.pools[|t.pools| - 1];
      last != t.currentpool && last.quotaUsed < last.quotaGcd && Connected(last)
    requires exists p <- t.pools :: p != t.pools[|t.pools| - 1] && p.quotaUsed < p.quotaGcd
    modifies t, t.pools, t.stale
    ensures t.Running() && pool == old(t.pools[|t.pools| - 1]) && pool.removed && pool !in t.pools
  {
    hide *;
    PrepareStray(t);
    StrayOutcome(t);
    pool := SelectPool(t, false);
  }

  /** Two plain pools under load balance, both counted, the first of them the current one, with a divisor of 1. */
  ghost predicate Two(t: Table, a: Pool, b: Pool, quotas: (nat, nat), used: (int, int), at: nat)
    reads t, t.pools, a, b
  {
    && t.Running() && t.pools == [a, b] && t.stale == [] && t.currentpool == a && a != b && t.rotatingPool == at
    && t.strategy == LoadBalance && !t.failOnly && t.globalQuotaGcd == 1 && t.enabledPools == 2
    && Plain(a, quotas.0, used.0) && Plain(b, quotas.1, used.1)
  }

  ghost predicate Plain(p: Pool, quota: nat, used: int)
    reads p
  {
    Up(p) && p.quota == p.quotaGcd == quota && p.quotaUsed == used
  }

  predicate Up(p: Pool)
    reads p`state, p`idle, p`hasStratum
  {
    p.state == Enabled && !p.idle && !p.hasStratum
  }

  /** Two pools are added and configured as rejecting, of which the first is in use; each has a share accepted. */
  method Start() returns (t: Table, a: Pool, b: Pool)
    ensures fresh(t) && fresh(a) && fresh(b) && Two(t, a, b, (1, 1), (0, 0), 0)
  {
    hide *;
    t, a, b := AddTwo();
    SetPoolState(a, "rejecting");
    SetPoolState(b, "rejecting");
    t.currentpool, t.strategy := a, LoadBalance;
    RunningOf(t);
    TakeBack(t, a, a);
    TakeBack(t, a, b);
    IsUp(a);
    IsUp(b);
    TwoOf(t, a, b, (1, 1), (0, 0), 0);
  }

  /** set_pool_state. */
  method SetPoolState(pool: Pool, arg: string)
    modifies pool`state
    ensures pool.state ==
      if arg == "disabled" then Disabled else if arg == "hidden" then Hidden
      else if arg == "rejecting" then Rejecting else Enabled
  {
    if arg == "disabled" {
      pool.state := Disabled;
    } else if arg == "enabled" {
      pool.state := Enabled;
    } else if arg == "hidden" {
      pool.state := Hidden;
    } else if arg == "rejecting" {
      pool.state := Rejecting;
    } else {
      pool.state := Enabled;
    }
  }

  method AddTwo() returns (t: Table, a: Pool, b: Pool)
    ensures fresh(t) && fresh(a) && fresh(b) && a != b && t.Valid() && QuotasSet(t.pools) && t.pools == [a, b]
    ensures t.order == [a, b] && t.stale == [] && t.rotatingPool == 0 && !t.failOnly && t.globalQuotaGcd == 1
    ensures t.enabledPools == 0 && !a.idle && !a.hasStratum && !b.idle && !b.hasStratum
    ensures a.quota == a.quotaGcd == b.quota == b.quotaGcd == 1 && a.quotaUsed == b.quotaUsed == 0
  {
    hide *;
    t, a := AddOne();
    RescaledSame(0);
    b := AddPool(t);
    assert a in t.pools && b in t.pools;
    OnesGcd(t.pools);
  }

  method AddOne() returns (t: Table, a: Pool)
    ensures fresh(t) && fresh(a) && t.Valid() && QuotasSet(t.pools) && t.pools == t.order == [a] && t.stale == []
    ensures t.rotatingPool == 0 && !t.failOnly && t.globalQuotaGcd == 1 && t.enabledPools == 0
    ensures !a.idle && !a.hasStratum && a.quota == 1 && a.quotaUsed == 0
  {
    hide *;
    t := new Table();
    EmptyValid(t);
    a := AddPool(t);
    assert a in t.pools;
    OnesGcd(t.pools);
  }

  /** An accepted share for a pool that is put aside, while the first pool of the order is in use and stays so. */
  method TakeBack(t: Table, first: Pool, pool: Pool)
    requires t.Running() && t.strategy == LoadBalance && |t.order| > 0 && t.order[0] == first == t.currentpool
    requires pool.state == Rejecting && !first.idle && (first == pool || first.state == Enabled)
    modifies t.pools`prio, pool`state, t`order, t`currentpool, t`enabledPools
    ensures t.Running() && t.order == old(t.order) && t.currentpool == first
    ensures pool.state == Enabled && t.enabledPools == old(t.enabledPools) + 1
  {
    hide *;
    RunningHas(t);
    ShareAccepted(t, pool);
    RunningHas(t);
    FrontChosen(t, old(t.currentpool));
  }

  lemma FrontChosen(t: Table, cp: Pool)
    requires |t.order| > 0 && cp.poolNo < |t.pools| && cp.poolNo >= 0 && t.strategy == LoadBalance
    requires !t.order[0].idle && t.order[0].state == Enabled
    ensures Chosen(t.strategy, t.pools, t.order, cp, cp.poolNo, null) == t.order[0]
  {
  }

  lemma IsUp(p: Pool)
    requires p.state == Enabled && !p.idle && !p.hasStratum
    ensures Up(p)
  {
  }

  lemma TwoOf(t: Table, a: Pool, b: Pool, quotas: (nat, nat), used: (int, int), at: nat)
    requires t.Running() && t.pools == [a, b] && t.stale == [] && t.currentpool == a && a != b && t.rotatingPool == at
    requires t.strategy == LoadBalance && !t.failOnly && t.globalQuotaGcd == 1 && t.enabledPools == 2 && Up(a) && Up(b)
    requires a.quota == a.quotaGcd == quotas.0 && b.quota == b.quotaGcd == quotas.1
    requires a.quotaUsed == used.0 && b.quotaUsed == used.1
    ensures Two(t, a, b, quotas, used, at)
  {
    hide Table.Running, Up;
  }

  lemma OnesGcd(pools: seq<Pool>)
    requires QuotasSet(pools) && |pools| > 0 && forall p <- pools :: p.quota == 1
    ensures AdjustedGcd(Quotas(pools)) == 1
  {
    hide AdjustedGcd, Quotas;
    LowestOne(Quotas(pools), 0);
  }

  /** A quota of 1 leaves nothing but 1 to divide by. */
  lemma LowestOne(qs: seq<nat>, i: nat)
    requires i < |qs| && qs[i] == 1
    ensures AdjustedGcd(qs) == 1
  {
    LowestAtMost(qs, i);
    AdjustedBounds(qs, 1);
  }

  lemma {:induction false} LowestAtMost(qs: seq<nat>, i: nat)
    requires i < |qs| && qs[i] > 0
    ensures 0 < Lowest(qs) <= qs[i]
  {
    var n := |qs| - 1;
    if i == n {
    } else {
      LowestAtMost(qs[..n], i);
    }
  }

  lemma RescaledSame(used: int)
    requires 0 <= used <= 1000
    ensures Rescaled(used, 1, 1) == used
  {
    RescaledPlain(used, 1, 1);
  }

  /** poolquota on one of the two. */
  method SetQuotaOf(t: Table, a: Pool, b: Pool, ghost quotas: (nat, nat), ghost used: (int, int), ghost at: nat,
                    param: string, wild: string -> int32)
    requires Two(t, a, b, quotas, used, at) && 0 <= used.0 <= 1000 && 0 <= used.1 <= 1000
    requires UptoComma(param) == 1 < |param| && Atoi(param[..1], wild) in {0, 1} && Atoi(param[2..], wild) >= 0
    requires var q := Atoi(param[2..], wild);
      AdjustedGcd(if Atoi(param[..1], wild) == 0 then [q, quotas.1] else [quotas.0, q]) == 1
    requires quotas.0 <= 1000 && quotas.1 <= 1000
    modifies t, a, b
    ensures var q := Atoi(param[2..], wild);
      Two(t, a, b, if Atoi(param[..1], wild) == 0 then (q, quotas.1) else (quotas.0, q), used, at)
  {
    hide *;
    TwoHas(t, a, b, quotas, used, at);
    var status := PoolQuotaCommand(t, param, wild);
    TwoQuotas(t, a, b);
    RescaledSame(used.0);
    RescaledSame(used.1);
    RunningOf(t);
    TwoOf(t, a, b, (a.quota, b.quota), used, at);
  }

  lemma TwoHas(t: Table, a: Pool, b: Pool, quotas: (nat, nat), used: (int, int), at: nat)
    requires Two(t, a, b, quotas, used, at) && quotas.0 <= 1000 && quotas.1 <= 1000
    ensures t.Running() && t.Valid() && t.pools == [a, b] && t.stale == [] && t.currentpool == a && a != b
    ensures t.rotatingPool == at && t.strategy == LoadBalance && !t.failOnly && t.globalQuotaGcd == 1
    ensures t.enabledPools == 2
    ensures Up(a) && Up(b) && a.quotaUsed == used.0 && b.quotaUsed == used.1
    ensures QuotasSet(t.pools) && Quotas(t.pools) == [quotas.0, quotas.1]
  {
    hide Table.Valid, Up;
    assert QuotasSet(t.pools);
    TwoQuotas(t, a, b);
  }

  lemma TwoQuotas(t: Table, a: Pool, b: Pool)
    requires t.pools == [a, b] && QuotasSet(t.pools)
    ensures a in t.pools && b in t.pools && 0 <= a.quota && 0 <= b.quota && Quotas(t.pools) == [a.quota, b.quota]
  {
    hide Quotas;
    assert a == t.pools[0] && b == t.pools[1];
  }

  lemma Parsed(wild: string -> int32)
    ensures UptoComma("1,2") == 1 && Atoi("1,2"[..1], wild) == 1 && Atoi("1,2"[2..], wild) == 2
    ensures UptoComma("0,3") == 1 && Atoi("0,3"[..1], wild) == 0 && Atoi("0,3"[2..], wild) == 3
  {
    assert "1,2"[..1] == "1" && "1,2"[2..] == "2" && "0,3"[..1] == "0" && "0,3"[2..] == "3";
    NumberOfDigit('0', 0);
    NumberOfDigit('1', 1);
    NumberOfDigit('2', 2);
    NumberOfDigit('3', 3);
    hide Number;
  }

  lemma NumberOfDigit(c: char, d: nat)
    requires IsDigit(c) && d == c as int - '0' as int
    ensures Number([c]) == d
  {
    assert [c][1..] == [] && [c][0] == c;
    assert Digits([], d) == d;
    assert Digits([c], 0) == Digits([], 10 * 0 + d);
  }

  /** The first pool has quota left. */
  lemma FirstCall()
    ensures QuotaRotation.Select([1, 2], AllWork(2), Rot([0, 0], 0), None) == (Rot([1, 0], 0), Option.Some(0))
  {
    var gs, r := [1, 2], Rot([0, 0], 0);
    assert r.used[0] < gs[0];
    assert r.used[0 := 1] == [1, 0];
  }

  /** It has none any more, and the second one has. */
  lemma SecondCall()
    ensures QuotaRotation.Select([1, 2], AllWork(2), Rot([1, 0], 0), None) == (Rot([2, 1], 1), Option.Some(1))
  {
    var gs, r, q := [1, 2], Rot([1, 0], 0), Rot([2, 0], 1);
    assert r.used[1] < gs[1];
    assert r.used[0 := 2] == [2, 0] && q.used[1 := 1] == [2, 1];
    assert Probe(gs, AllWork(2), q, None, 1) == (Rot([2, 1], 1), Option.Some(1));
  }

  lemma TwoCalls()
    ensures QuotaRotation.Calls([1, 2], Rot([0, 0], 0), 2) == (Rot([2, 1], 1), [Option.Some(0), Option.Some(1)])
  {
    var gs, r := [1, 2], Rot([0, 0], 0);
    FirstCall();
    SecondCall();
    assert [Option<nat>.Some(0)] + [Option<nat>.Some(1)] == [Option.Some(0), Option.Some(1)];
    assert [] + [Option<nat>.Some(0)] == [Option.Some(0)];
    hide *;
    CallsNext(gs, r, 0);
    CallsNext(gs, r, 1);
    CallsNext(gs, r, 2);
  }

  /**
   * From nothing: two pools, of which the second gets a quota of 2; two selections; the first pool gets a quota of 3;
   * the second is removed, rejected for and accepted again. Then it is selected.
   */
  method StrayRun(wild: string -> int32) returns (t: Table, pool: Pool)
    ensures fresh(t) && t.Running() && pool.removed && pool !in t.pools
  {
    hide *;
    Parsed(wild);
    var a, b;
    t, a, b := Start();
    LowestOne([1, 2], 0);
    SetQuotaOf(t, a, b, (1, 1), (0, 0), 0, "1,2", wild);
    SelectTwice(t, a, b);
    ThreeTwo();
    SetQuotaOf(t, a, b, (1, 2), (2, 1), 1, "0,3", wild);
    ReadyToStray(t, a, b);
    pool := StrayAfterRemoval(t);
  }

  method SelectTwice(t: Table, a: Pool, b: Pool)
    requires Two(t, a, b, (1, 2), (0, 0), 0)
    modifies t, a, b
    ensures Two(t, a, b, (1, 2), (2, 1), 1)
  {
    hide InOrder, Distinct, QuotaRotation.Calls, Used, Gcds;
    assert Gcds(t.pools) == [1, 2] && Used(t.pools) == [0, 0];
    TwoCalls();
    ghost var ps;
    var chosen;
    chosen, ps := SelectMany(t, 2);
    assert a == t.pools[0] && b == t.pools[1];
    assert Used(t.pools)[0] == a.quotaUsed && Used(t.pools)[1] == b.quotaUsed;
  }

  lemma ThreeTwo()
    ensures AdjustedGcd([3, 2]) == 1
  {
    LowestOfTwo(3, 2);
    DescendTwo(3, 2, 2);
    assert StepDown(3, 2) == 1;
  }

  lemma ReadyToStray(t: Table, a: Pool, b: Pool)
    requires Two(t, a, b, (3, 2), (2, 1), 1)
    ensures t.Running() && t.strategy == LoadBalance && |t.pools| > 1 && t.rotatingPool == |t.pools| - 1
    ensures t.enabledPools > 1
    ensures var last := t.pools[|t.pools| - 1];
      last != t.currentpool && last.quotaUsed < last.quotaGcd && Connected(last)
    ensures exists p <- t.pools :: p != t.pools[|t.pools| - 1] && p.quotaUsed < p.quotaGcd
    ensures t.pools == [a, b] && t.stale == []
  {
    hide Table.Running;
    assert a in t.pools;
  }
}
