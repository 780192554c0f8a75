/** The operations of sgminer.c and api.c that renumber and switch pools. */
module Pools {
  import opened Sequences
  import opened PoolOrder
  import opened PoolTable

  /** One assignment to pools[i]->prio. */
  method SetPrio(pools: seq<Pool>, i: nat, v: int)
    requires Distinct(pools) && i < |pools|
    modifies pools`prio
    ensures Prios(pools) == old(Prios(pools))[i := v]
  {
    hide Prios;
    pools[i].prio := v;
  }

  /** One assignment through a pool pointer. */
  method SetPrioOf(pools: seq<Pool>, p: Pool, v: int, ghost i: nat)
    requires Distinct(pools) && i < |pools| && pools[i] == p
    modifies pools`prio
    ensures Prios(pools) == old(Prios(pools))[i := v]
  {
    hide Prios;
    p.prio := v;
  }

  /**
   * priority_pool: the pool of a priority. In a valid table the search never fails, so its error branch, which
   * would return an arbitrary pool, is dead.
   */
  method PriorityPool(t: Table, choice: nat) returns (ret: Pool, failed: bool)
    requires t.Valid() && choice < |t.pools|
    ensures !failed && ret == t.order[choice]
  {
    var found: Pool? := null;
    for i := 0 to |t.pools|
      invariant found == null && forall j :: 0 <= j < i ==> t.pools[j].prio != choice
    {
      if t.pools[i].prio == choice {
        found := t.pools[i];
        break;
      }
    }
    assert choice in Prios(t.pools);
    failed := found == null;
    ret := found;
  }

  /** The priorities after the renumbering loop of switch_pools has passed the first i pools. */
  ghost function Bumped(ps: seq<int>, sel: nat, i: nat): (r: seq<int>)
    requires sel < |ps| && i <= |ps|
    ensures |r| == |ps|
  {
    seq(|ps|, k requires 0 <= k < |ps| => if k < i && ps[k] < ps[sel] then ps[k] + 1 else ps[k])
  }

  lemma {:induction false} BumpedNext(ps: seq<int>, sel: nat, i: nat)
    requires sel < |ps| && i < |ps|
    ensures Bumped(ps, sel, 0) == ps && Bumped(ps, sel, i)[i] == ps[i] && Bumped(ps, sel, i)[sel] == ps[sel]
    ensures Bumped(ps, sel, i + 1) == if ps[i] < ps[sel] then Bumped(ps, sel, i)[i := ps[i] + 1] else Bumped(ps, sel, i)
  {
  }

  /** Everything in front of the selected pool moves back one place. */
  method BumpOthers(pools: seq<Pool>, selected: Pool, ghost sel: nat)
    requires Distinct(pools) && sel < |pools| && pools[sel] == selected
    modifies pools`prio
    ensures Prios(pools) == Bumped(old(Prios(pools)), sel, |pools|)
  {
    hide *;
    ghost var ps := Prios(pools);
    BumpedNext(ps, sel, 0);
    for i := 0 to |pools|
      invariant Prios(pools) == Bumped(ps, sel, i)
    {
      BumpedNext(ps, sel, i);
      assert pools[i].prio == Prios(pools)[i] && selected.prio == Prios(pools)[sel];
      if pools[i].prio < selected.prio {
        SetPrio(pools, i, pools[i].prio + 1);
      }
    }
  }

  /** The first half of switch_pools: a selected pool becomes the first, the others keep their order. */
  method PromotePool(t: Table, selected: Pool)
    requires t.Valid() && selected in t.pools
    modifies t.pools`prio, t`order
    ensures t.Valid() && t.order == [selected] + Without(old(t.order), selected)
  {
    hide Without, InOrder, Distinct, Promote;
    ghost var sel :| 0 <= sel < |t.pools| && t.pools[sel] == selected;
    PromoteReorders(t.pools, Prios(t.pools), t.order, sel);
    RenumberPromoted(t.pools, selected, sel, t.order);
    t.order := [selected] + Without(t.order, selected);
  }

  method RenumberPromoted(pools: seq<Pool>, selected: Pool, ghost sel: nat, ghost ord: seq<Pool>)
    requires Distinct(pools) && sel < |pools| && pools[sel] == selected && InOrder(pools, Prios(pools), ord)
    modifies pools`prio
    ensures Prios(pools) == Promote(old(Prios(pools)), sel)
  {
    hide InOrder, Promote, Bumped, Distinct;
    ghost var ps := Prios(pools);
    assert selected.prio == ps[sel];
    if selected.prio != 0 {
      BumpOthers(pools, selected, sel);
      SetPrioOf(pools, selected, 0, sel);
      PromoteIs(ps, sel);
    } else {
      PromoteFirst(pools, ps, ord, sel);
    }
  }

  lemma PromoteIs(ps: seq<int>, sel: nat)
    requires sel < |ps|
    ensures Bumped(ps, sel, |ps|)[sel := 0] == Promote(ps, sel)
  {
  }

  lemma PromoteFirst(pools: seq<Pool>, ps: seq<int>, ord: seq<Pool>, sel: nat)
    requires InOrder(pools, ps, ord) && sel < |ps| && ps[sel] == 0
    ensures Promote(ps, sel) == ps
  {
  }

  /** The loop over priorities in switch_pools: the usable pool of least priority number, if any. */
  method MasterPool(t: Table, current: int) returns (poolNo: int)
    requires t.Valid()
    ensures var c := FirstUsable(t.order);
      poolNo == if c < |t.order| then t.order[c].poolNo else current
  {
    hide InOrder, Distinct;
    poolNo := current;
    OrderLength(t);
    for i := 0 to |t.pools|
      invariant poolNo == current && forall j :: 0 <= j < i ==> Unusable(t.order[j])
    {
      var pool, failed := PriorityPool(t, i);
      if !Unusable(pool) {
        FirstUsableIs(t.order, i);
        poolNo := pool.poolNo;
        return;
      }
    }
    FirstUsableIs(t.order, |t.order|);
  }

  lemma OrderLength(t: Table)
    requires t.Valid()
    ensures |t.order| == |t.pools|
    ensures forall p :: p in t.order <==> p in t.pools
  {
    LabelsInOrder(t.pools, Prios(t.pools), t.order);
  }

  /** The other pools in the order the rotating strategies visit them. */
  function Ahead(pools: seq<Pool>, k: nat): (r: seq<Pool>)
    requires k < |pools|
    ensures |r| == |pools| - 1
  {
    pools[k + 1..] + pools[..k]
  }

  /** The cycle of switch_pools: the nearest usable pool after slot k, if any. */
  method NextAlive(pools: seq<Pool>, k: nat) returns (poolNo: nat)
    requires k < |pools|
    ensures poolNo < |pools|
    ensures var a := Ahead(pools, k); var c := FirstUsable(a);
      pools[poolNo] == if c < |a| then a[c] else pools[k]
  {
    ghost var a := Ahead(pools, k);
    poolNo := k;
    var next := k;
    for i := 1 to |pools|
      invariant poolNo == k && 0 <= next < |pools|
      invariant next == if k + i - 1 < |pools| then k + i - 1 else k + i - 1 - |pools|
      invariant forall j :: 0 <= j < i - 1 ==> Unusable(a[j])
    {
      next := next + 1;
      if next >= |pools| {
        next := 0;
      }
      assert a[i - 1] == pools[next];
      if !Unusable(pools[next]) {
        FirstUsableIs(a, i - 1);
        poolNo := next;
        return;
      }
    }
    FirstUsableIs(a, |a|);
  }

  /** The pool switch_pools settles on, given the order after a selected pool was promoted. */
  ghost function Chosen(strategy: Strategy, pools: seq<Pool>, order: seq<Pool>, current: Pool, k: nat,
                        selected: Pool?): Pool
    requires k < |pools| && (selected == null || selected in pools)
    reads pools`idle, pools`state, order`idle, order`state
  {
    match strategy
    case Balance | Failover | LoadBalance =>
      var c := FirstUsable(order);
      if c < |order| then order[c] else current
    case RoundRobin | Rotate =>
      if selected != null && !selected.idle then selected
      else
        var a := Ahead(pools, k);
        var c := FirstUsable(a);
        if c < |a| then a[c] else current
  }

  /** The order with a selected pool moved to the front. */
  function Fronted(order: seq<Pool>, selected: Pool?): seq<Pool> {
    if selected == null then order
    else
      var p: Pool := selected;
      [p] + Without(order, p)
  }

  /** The switch statement of switch_pools. */
  method ChoosePool(t: Table, selected: Pool?, current: Pool) returns (poolNo: int)
    requires t.Valid() && current in t.pools && (selected == null || selected in t.pools)
    ensures 0 <= current.poolNo < |t.pools| && 0 <= poolNo < |t.pools|
      && t.pools[poolNo] == Chosen(t.strategy, t.pools, t.order, current, current.poolNo, selected)
  {
    hide InOrder, Distinct, FirstUsable, Ahead, Unusable;
    PoolAtNumber(t);
    OrderLength(t);
    match t.strategy {
      case Balance | Failover | LoadBalance =>
        poolNo := MasterPool(t, current.poolNo);
      case RoundRobin | Rotate =>
        if selected != null && !selected.idle {
          poolNo := selected.poolNo;
        } else {
          poolNo := NextAlive(t.pools, current.poolNo);
        }
    }
  }

  /**
   * switch_pools: a selected pool is moved to the front of the order, the others keeping theirs; then the
   * first usable pool of the order, the selected pool, or the next usable pool in the cycle becomes current.
   */
  method SwitchPools(t: Table, selected: Pool?)
    requires t.Running() && (selected == null || selected in t.pools)
    modifies t.pools`prio, t`order, t`currentpool
    ensures t.Running()
    ensures t.order == Fronted(old(t.order), selected)
    ensures old(t.currentpool).poolNo < |t.pools|
    ensures t.currentpool
         == Chosen(t.strategy, t.pools, t.order, old(t.currentpool), old(t.currentpool).poolNo, selected)
  {
    hide InOrder, Distinct, Without, FirstUsable, Ahead, Chosen, Prios;
    if selected != null {
      PromotePool(t, selected);
    }
    var poolNo := ChoosePool(t, selected, t.currentpool);
    t.currentpool := t.pools[poolNo];
  }

  /**
   * What failing over means: if any pool is enabled and not idle, one is chosen, and no such pool has a lower priority
   * number; otherwise the current pool stays.
   */
  lemma ChosenByPriority(t: Table, cp: Pool, selected: Pool?)
    requires t.Valid() && cp in t.pools && (selected == null || selected in t.pools)
    requires t.strategy == Failover || t.strategy == LoadBalance || t.strategy == Balance
    ensures 0 <= cp.poolNo < |t.pools|
    ensures var c := Chosen(t.strategy, t.pools, t.order, cp, cp.poolNo, selected);
      && c in t.pools
      && (c == cp || (!c.idle && c.state == Enabled))
      && forall p <- t.pools :: !p.idle && p.state == Enabled ==> !c.idle && c.state == Enabled && c.prio <= p.prio
  {
    PoolAtNumber(t);
    OrderLength(t);
    PriosAscend(t);
    hide InOrder, Distinct, Prios;
    var n := FirstUsable(t.order);
    forall p <- t.pools | !p.idle && p.state == Enabled
      ensures n < |t.order| && t.order[n].prio <= p.prio
    {
      var k :| 0 <= k < |t.order| && t.order[k] == p;
    }
  }

  lemma PriosAscend(t: Table)
    requires t.Valid()
    ensures forall k :: 0 <= k < |t.order| ==> t.order[k].prio == k
  {
    hide Prios, Distinct;
    var ps := Prios(t.pools);
    forall k | 0 <= k < |t.order|
      ensures t.order[k].prio == k
    {
      assert k in ps;
      var i :| 0 <= i < |ps| && ps[i] == k;
      assert t.order[ps[i]] == t.pools[i];
    }
  }

  /** How far slot j is ahead of slot k in the cycle. */
  function Distance(k: nat, j: nat, n: nat): int
    requires k < n && j < n
  {
    if j > k then j - k else j + n - k
  }

  /**
   * What rotating means: a selected pool that is not idle is taken; otherwise the nearest pool ahead in the cycle that
   * is enabled and not idle, or the current pool if there is no other.
   */
  lemma ChosenByCycle(t: Table, cp: Pool, selected: Pool?)
    requires t.Valid() && cp in t.pools && (selected == null || selected in t.pools)
    requires t.strategy == RoundRobin || t.strategy == Strategy.Rotate
    ensures 0 <= cp.poolNo < |t.pools|
    ensures var c := Chosen(t.strategy, t.pools, t.order, cp, cp.poolNo, selected); var n := |t.pools|;
      if selected != null && !selected.idle then c == selected
      else
        && c in t.pools && 0 <= c.poolNo < n
        && (c == cp || (!c.idle && c.state == Enabled))
        && forall j :: 0 <= j < n && j != cp.poolNo && !t.pools[j].idle && t.pools[j].state == Enabled ==>
             c != cp && Distance(cp.poolNo, c.poolNo, n) <= Distance(cp.poolNo, j, n)
  {
    PoolAtNumber(t);
    hide InOrder;
    var k, n := cp.poolNo, |t.pools|;
    var a := Ahead(t.pools, k);
    forall i | 0 <= i < |a|
      ensures var j := if k + 1 + i < n then k + 1 + i else k + 1 + i - n;
        0 <= j < n && j != k && a[i] == t.pools[j] && a[i].poolNo == j && Distance(k, j, n) == i + 1
    {
    }
    forall j | 0 <= j < n && j != k && !t.pools[j].idle && t.pools[j].state == Enabled
      ensures FirstUsable(a) < Distance(k, j, n)
    {
      assert a[Distance(k, j, n) - 1] == t.pools[j];
    }
  }

  lemma PoolAtNumber(t: Table)
    requires t.Valid()
    ensures forall p :: p in t.pools ==> 0 <= p.poolNo < |t.pools| && t.pools[p.poolNo] == p
  {
    hide InOrder, Distinct;
  }

  /** The priorities after the closing-up loop of remove_pool has passed the first i pools. */
  ghost function ClosedTo(ps: seq<int>, r: nat, i: nat): (q: seq<int>)
    requires r < |ps| && i <= |ps|
    ensures |q| == |ps|
  {
    seq(|ps|, k requires 0 <= k < |ps| => if k < i && ps[k] > ps[r] then ps[k] - 1 else ps[k])
  }

  lemma {:induction false} ClosedNext(ps: seq<int>, r: nat, i: nat)
    requires r < |ps| && i < |ps|
    ensures ClosedTo(ps, r, 0) == ps && ClosedTo(ps, r, i)[i] == ps[i] && ClosedTo(ps, r, i)[r] == ps[r]
    ensures ClosedTo(ps, r, i + 1) == if ps[i] > ps[r] then ClosedTo(ps, r, i)[i := ps[i] - 1] else ClosedTo(ps, r, i)
  {
  }

  /** Everything behind the removed pool moves up one place. */
  method CloseGap(pools: seq<Pool>, pool: Pool, ghost r: nat)
    requires Distinct(pools) && r < |pools| && pools[r] == pool
    modifies pools`prio
    ensures Prios(pools) == ClosedTo(old(Prios(pools)), r, |pools|)
  {
    hide *;
    ghost var ps := Prios(pools);
    ClosedNext(ps, r, 0);
    for i := 0 to |pools|
      invariant Prios(pools) == ClosedTo(ps, r, i)
    {
      ClosedNext(ps, r, i);
      assert pools[i].prio == Prios(pools)[i] && pool.prio == Prios(pools)[r];
      if pools[i].prio > pool.prio {
        SetPrio(pools, i, pools[i].prio - 1);
      }
    }
  }

  lemma ClosedIs(ps: seq<int>, r: nat)
    requires r < |ps|
    ensures ClosedTo(ps, r, |ps|) == Closed(ps, r)
  {
  }

  lemma PriosOfSwap(pools: seq<Pool>, r: nat)
    requires r < |pools|
    ensures Prios(SwapLast(pools, r)) == SwapLast(Prios(pools), r)
  {
    var a, b := Prios(SwapLast(pools, r)), SwapLast(Prios(pools), r);
    forall i | 0 <= i < |a|
      ensures a[i] == b[i]
    {
    }
  }

  /**
   * remove_pool: the others keep their order, and the last pool takes over the freed slot. The removed pool
   * leaves the table even when it is the current one, so callers must have switched away first. The last slot keeps
   * its pointer behind the table.
   */
  method RemovePool(t: Table, pool: Pool)
    requires t.Valid() && pool in t.pools
    modifies t.pools`prio, t.pools`poolNo, pool`removed, t`pools, t`stale, t`order
    ensures t.Valid() && t.order == Without(old(t.order), pool)
    ensures 0 <= old(pool.poolNo) < |old(t.pools)| && t.pools == SwapLast(old(t.pools), old(pool.poolNo))
    ensures pool !in t.pools && pool.removed && pool.poolNo == |old(t.pools)|
    ensures forall p :: p in old(t.pools) && p != pool ==> p in t.pools
    ensures forall p :: p in t.pools ==> p in old(t.pools)
    ensures |old(t.pools)| > 0 && t.stale == [old(t.pools)[|old(t.pools)| - 1]] + old(t.stale)
  {
    hide InOrder, Distinct, Closed, Without, ClosedTo, SwapLast, Prios;
    PoolAtNumber(t);
    ghost var r := pool.poolNo;
    ghost var ps := Prios(t.pools);
    RemoveReorders(t.pools, ps, t.order, r);
    SwappedOut(t.pools, r);
    CloseGap(t.pools, pool, r);
    ClosedIs(ps, r);
    DropSlot(t, pool);
    t.order := Without(t.order, pool);
  }

  /** The second half of remove_pool: the last pool into the freed slot, and one pool fewer. */
  method DropSlot(t: Table, pool: Pool)
    requires Distinct(t.pools) && pool in t.pools && forall i :: 0 <= i < |t.pools| ==> t.pools[i].poolNo == i
    modifies t.pools`poolNo, pool`removed, t`pools, t`stale
    ensures 0 <= old(pool.poolNo) < |old(t.pools)| && t.pools == SwapLast(old(t.pools), old(pool.poolNo))
    ensures forall i :: 0 <= i < |t.pools| ==> t.pools[i].poolNo == i
    ensures pool.removed && pool.poolNo == |old(t.pools)|
    ensures Prios(t.pools) == SwapLast(old(Prios(t.pools)), old(pool.poolNo))
    ensures |old(t.pools)| > 0 && t.stale == [old(t.pools)[|old(t.pools)| - 1]] + old(t.stale)
  {
    PriosOfSwap(t.pools, pool.poolNo);
    var lastPool := |t.pools| - 1;
    if pool.poolNo < lastPool {
      t.pools[lastPool].poolNo := pool.poolNo;
      t.pools := t.pools[pool.poolNo := t.pools[lastPool]];
    }
    pool.poolNo := |t.pools|;
    pool.removed := true;
    t.stale := [t.pools[lastPool]] + t.stale;
    t.pools := t.pools[..lastPool];
  }

  lemma SwappedOut(pools: seq<Pool>, r: nat)
    requires Distinct(pools) && r < |pools|
    ensures pools[r] !in SwapLast(pools, r)
    ensures forall p :: p in pools && p != pools[r] ==> p in SwapLast(pools, r)
    ensures forall p :: p in SwapLast(pools, r) ==> p in pools
    ensures forall i :: 0 <= i < |pools| - 1 ==>
      SwapLast(pools, r)[i] == if i == r then pools[|pools| - 1] else pools[i]
  {
    var q := SwapLast(pools, r);
    forall p | p in pools && p != pools[r]
      ensures p in q
    {
      var i :| 0 <= i < |pools| && pools[i] == p;
      assert q[if i == |pools| - 1 then r else i] == p;
    }
  }
}
