/** Runs of everything that happens to the pool table, with the selections made in between. */
module PoolRuns {
  import opened Sequences
  import opened PoolOrder
  import opened PoolTable
  import opened Pools
  import opened QuotaAdjust
  import opened PoolCommands
  import opened PoolSelect
  import opened QuotaRotation

  /**
   * Commands, selections, and what threads find out. Shares are accepted or rejected for any pool there ever was, for
   * work keeps its pool when that is removed; so the pools are given by when they became known.
   */
  datatype Event =
    | Add
    | Remove(id: int)
    | Switch(id: int)
    | Enable(id: int)
    | Disable(id: int)
    | Priority(param: string)
    | Quota(param: string)
    | Reselect
    | Accepted(k: nat)
    | Rejected(k: nat)
    | Found(k: nat, idle: bool, stratumActive: bool)
    | Select(lagging: bool)

  /**
   * What came of an event: a removed pool was enabled again; a pool was selected, from inside the table or not; or the
   * selection reads outside the array, which has no defined result.
   */
  datatype Entry = Served | Revived(pool: Pool) | Selected(pool: Pool, inside: bool) | OutOfArray

  /** Every pool of the table and behind it is known. */
  ghost predicate Sound(t: Table, known: seq<Pool>)
    reads t`pools, t`stale, t`order, t`currentpool, t.pools`poolNo, t.pools`prio, t.pools`quota
  {
    t.Running() && QuotasSet(t.pools) && (forall p <- t.pools :: p in known) && forall p <- t.stale :: p in known
  }

  lemma SoundHas(t: Table, known: seq<Pool>)
    requires Sound(t, known)
    ensures t.Running() && t.Valid() && QuotasSet(t.pools) && t.currentpool != null && t.currentpool in t.pools
    ensures (forall i :: 0 <= i < |t.pools| ==> t.pools[i] in known)
    ensures (forall i :: 0 <= i < |t.stale| ==> t.stale[i] in known)
  {
  }

  lemma SoundOf(t: Table, known: seq<Pool>)
    requires t.Running() && QuotasSet(t.pools)
    requires (forall p <- t.pools :: p in known) && forall p <- t.stale :: p in known
    ensures Sound(t, known)
  {
  }

  lemma RunningOf(t: Table)
    requires t.Valid() && t.currentpool != null && t.currentpool in t.pools
    ensures t.Running()
  {
  }

  /** While pools that leave are not enabled, and those that have left stay as they are, what is behind is retired. */
  twostate lemma RetiredStays(t: Table)
    requires old(Retired(t))
    requires forall p :: p in t.stale ==> p in old(t.stale) || p in t.pools || p.state != Enabled
    requires forall p :: p in old(t.stale) && p in old(t.pools) ==> p in t.pools || p.state != Enabled
    requires forall p :: p in old(t.stale) && p !in old(t.pools) ==> p.state == old(p.state) || p.state != Enabled
    ensures Retired(t)
  {
  }

  /** No pool is put aside, and none can be: none is known as rejecting, and at most one is counted as enabled. */
  ghost predicate Calm(t: Table, known: seq<Pool>)
    reads t`enabledPools, known`state
  {
    t.enabledPools <= 1 && forall p :: p in known ==> p.state != Rejecting
  }

  lemma CalmHas(t: Table, known: seq<Pool>)
    requires Calm(t, known)
    ensures t.enabledPools <= 1 && forall i :: 0 <= i < |known| ==> known[i].state != Rejecting
  {
  }

  lemma CalmOf(t: Table, known: seq<Pool>)
    requires t.enabledPools <= 1 && forall i :: 0 <= i < |known| ==> known[i].state != Rejecting
    ensures Calm(t, known)
  {
  }

  method ServeAdd(t: Table, known: seq<Pool>) returns (more: seq<Pool>)
    requires Sound(t, known)
    modifies t, known
    ensures t.strategy == old(t.strategy) && t.failOnly == old(t.failOnly) && t.rotatingPool == old(t.rotatingPool)
    ensures Sound(t, more) && known <= more && (forall p <- more :: p in known || fresh(p))
    ensures |more| == |known| + 1 && t.pools == old(t.pools) + [more[|known|]]
    ensures (old(Retired(t)) ==> Retired(t)) && (old(Calm(t, known)) ==> Calm(t, more))
  {
    hide *;
    SoundHas(t, known);
    if Calm(t, known) {
      CalmHas(t, known);
    }
    var p := AddPool(t);
    more := known + [p];
    RunningOf(t);
    SoundOf(t, more);
    if old(Retired(t)) {
      RetiredStays(t);
    }
    if old(Calm(t, known)) {
      CalmOf(t, more);
    }
  }

  method ServeRemove(t: Table, known: seq<Pool>, id: int)
    requires Sound(t, known)
    modifies t, known
    ensures t.strategy == old(t.strategy) && t.failOnly == old(t.failOnly) && t.rotatingPool == old(t.rotatingPool)
    ensures t.globalQuotaGcd == old(t.globalQuotaGcd)
    ensures Sound(t, known) && (old(Retired(t)) ==> Retired(t)) && (old(Calm(t, known)) ==> Calm(t, known))
  {
    hide *;
    SoundHas(t, known);
    if Calm(t, known) {
      CalmHas(t, known);
    }
    var s := RemovePoolCommand(t, id);
    SoundOf(t, known);
    if old(Retired(t)) {
      RetiredStays(t);
    }
    if old(Calm(t, known)) {
      CalmOf(t, known);
    }
  }

  /** The commands that leave the table and what is behind it alone. */
  method ServeInPlace(t: Table, known: seq<Pool>, e: Event, wild: string -> int32)
    requires Sound(t, known)
    modifies t, known
    ensures t.strategy == old(t.strategy) && t.failOnly == old(t.failOnly) && t.rotatingPool == old(t.rotatingPool)
    ensures !e.Quota? ==> t.globalQuotaGcd == old(t.globalQuotaGcd)
    ensures Sound(t, known) && (old(Retired(t)) ==> Retired(t)) && (old(Calm(t, known)) ==> Calm(t, known))
  {
    hide *;
    SoundHas(t, known);
    if Calm(t, known) {
      CalmHas(t, known);
    }
    match e {
      case Switch(id) =>
        var s := SwitchPoolCommand(t, id);
      case Enable(id) =>
        var s := EnablePoolCommand(t, id);
      case Disable(id) =>
        var s := DisablePoolCommand(t, id);
      case Priority(param) =>
        var s := PoolPriority(t, param, wild);
      case Quota(param) =>
        var s := PoolQuotaCommand(t, param, wild);
        RunningOf(t);
      case Reselect =>
        SwitchPools(t, null);
      case _ =>
    }
    SoundOf(t, known);
    if old(Retired(t)) {
      RetiredStays(t);
    }
    if old(Calm(t, known)) {
      CalmOf(t, known);
    }
  }

  /** An accepted share or too many rejected ones, for any pool. */
  method ServeShare(t: Table, known: seq<Pool>, pool: Pool, accepted: bool) returns (revived: bool)
    requires Sound(t, known) && pool in known
    modifies t, known
    ensures t.strategy == old(t.strategy) && t.failOnly == old(t.failOnly) && t.rotatingPool == old(t.rotatingPool)
    ensures t.globalQuotaGcd == old(t.globalQuotaGcd)
    ensures Sound(t, known) && t.pools == old(t.pools)
    ensures revived <==> accepted && pool !in t.pools && old(pool.state) == Rejecting
    ensures revived ==> pool.state == Enabled
    ensures !revived && old(Retired(t)) ==> Retired(t)
    ensures old(Calm(t, known)) ==> Calm(t, known) && !revived
  {
    hide *;
    SoundHas(t, known);
    if Calm(t, known) {
      CalmHas(t, known);
    }
    revived := accepted && pool !in t.pools && pool.state == Rejecting;
    if accepted {
      ShareAccepted(t, pool);
    } else {
      SharesRejected(t, pool);
    }
    SoundOf(t, known);
    if !revived && old(Retired(t)) {
      RetiredStays(t);
    }
    if old(Calm(t, known)) {
      CalmOf(t, known);
    }
  }

  /** A pool is found dead or alive, and its stratum connection up or down. */
  method ServeFound(t: Table, known: seq<Pool>, pool: Pool, idle: bool, stratumActive: bool)
    requires Sound(t, known) && pool in known
    modifies t, known
    ensures t.strategy == old(t.strategy) && t.failOnly == old(t.failOnly) && t.rotatingPool == old(t.rotatingPool)
    ensures t.globalQuotaGcd == old(t.globalQuotaGcd)
    ensures Sound(t, known) && pool.idle == idle && pool.stratumActive == stratumActive
    ensures (old(Retired(t)) ==> Retired(t)) && (old(Calm(t, known)) ==> Calm(t, known))
  {
    hide *;
    pool.idle, pool.stratumActive := idle, stratumActive;
  }

  /** With what is behind the table retired, a selection does not stray. */
  lemma RetiredWithin(t: Table)
    requires t.Valid() && Retired(t)
    ensures !Strays(t)
  {
    hide Table.Valid, HasQuota, Gcds, Now;
  }

  /** A selection, unless it would read outside the array. */
  method ServeSelect(t: Table, known: seq<Pool>, lagging: bool) returns (entry: Entry)
    requires Sound(t, known)
    modifies t, known
    ensures t.strategy == old(t.strategy) && t.failOnly == old(t.failOnly)
    ensures t.globalQuotaGcd == old(t.globalQuotaGcd)
    ensures Sound(t, known) && (old(Retired(t)) ==> Retired(t)) && (old(Calm(t, known)) ==> Calm(t, known))
    ensures entry == OutOfArray <==> ByQuota(t.strategy, lagging, t.failOnly) && !old(Readable(t))
    ensures entry != OutOfArray ==> entry.Selected? && (entry.inside <==> entry.pool in t.pools)
    ensures entry.Selected? ==> (entry.inside <==> !(ByQuota(t.strategy, lagging, t.failOnly) && old(Strays(t))))
    ensures old(Retired(t)) && entry.Selected? ==> entry.inside
  {
    hide *;
    SoundHas(t, known);
    var readable := PositionReadable(t);
    if ByQuota(t.strategy, lagging, t.failOnly) && !readable {
      return OutOfArray;
    }
    if Retired(t) {
      RetiredWithin(t);
    }
    var pool := SelectPool(t, lagging);
    entry := Selected(pool, pool in t.pools);
    SoundOf(t, known);
  }

  method PositionReadable(t: Table) returns (r: bool)
    ensures r == Readable(t)
  {
    hide HasQuota, Gcds, Used;
    var avail := QuotaAvailable(t.pools, Now(t));
    r := t.rotatingPool < |t.pools| + |t.stale| || !avail;
  }

  /** Any event. */
  method ServeOne(t: Table, known: seq<Pool>, e: Event, wild: string -> int32) returns (more: seq<Pool>, entry: Entry)
    requires Sound(t, known)
    modifies t, known
    ensures t.strategy == old(t.strategy) && t.failOnly == old(t.failOnly)
    ensures !e.Select? ==> t.rotatingPool == old(t.rotatingPool)
    ensures !e.Add? && !e.Quota? ==> t.globalQuotaGcd == old(t.globalQuotaGcd)
    ensures Sound(t, more) && known <= more && forall p <- more :: p in known || fresh(p)
    ensures entry.Revived? <==>
      e.Accepted? && e.k < |known| && known[e.k] !in old(t.pools) && old(known[e.k].state) == Rejecting
    ensures entry.Revived? ==> entry.pool == known[e.k] && entry.pool.state == Enabled && entry.pool !in t.pools
    ensures old(Retired(t)) && !entry.Revived? ==> Retired(t)
    ensures old(Calm(t, known)) ==> Calm(t, more) && !entry.Revived?
    ensures entry.Selected? || entry == OutOfArray <==> e.Select?
    ensures if e.Add? then |more| == |known| + 1 && t.pools == old(t.pools) + [more[|known|]] else more == known
    ensures entry.Selected? ==> (entry.inside <==> entry.pool in t.pools) && (old(Retired(t)) ==> entry.inside)
  {
    hide *;
    more, entry := known, Served;
    match e {
      case Add =>
        more := ServeAdd(t, known);
      case Remove(id) =>
        ServeRemove(t, known, id);
      case Accepted(k) =>
        if k < |known| {
          var revived := ServeShare(t, known, known[k], true);
          entry := if revived then Revived(known[k]) else Served;
        }
      case Rejected(k) =>
        if k < |known| {
          var revived := ServeShare(t, known, known[k], false);
        }
      case Found(k, idle, stratumActive) =>
        if k < |known| {
          ServeFound(t, known, known[k], idle, stratumActive);
        }
      case Select(lagging) =>
        entry := ServeSelect(t, known, lagging);
      case _ =>
        ServeInPlace(t, known, e, wild);
    }
  }

  /** Entries are those of their events, and nothing follows a selection from outside the array. */
  predicate Logged(events: seq<Event>, log: seq<Entry>) {
    && |log| <= |events|
    && (forall i :: 0 <= i < |log| ==>
          && (log[i].Revived? ==> events[i].Accepted?)
          && (log[i].Selected? || log[i] == OutOfArray <==> events[i].Select?)
          && (log[i] == OutOfArray ==> i == |log| - 1))
    && (|log| < |events| ==> |log| > 0 && log[|log| - 1] == OutOfArray)
  }

  predicate Revives(log: seq<Entry>) {
    exists j :: 0 <= j < |log| && log[j].Revived?
  }

  /** A pool from outside the table comes back only after an accepted share has enabled a removed one. */
  predicate Explained(log: seq<Entry>) {
    forall i :: 0 <= i < |log| && log[i].Selected? && !log[i].inside ==> Revives(log[..i])
  }

  lemma {:induction false} ExplainedMore(log: seq<Entry>, entry: Entry)
    requires Explained(log) && (entry.Selected? && !entry.inside ==> Revives(log))
    ensures Explained(log + [entry])
    ensures Revives(log + [entry]) <==> Revives(log) || entry.Revived?
  {
    var more := log + [entry];
    forall i | 0 <= i < |more| && more[i].Selected? && !more[i].inside
      ensures Revives(more[..i])
    {
      assert more[..i] == log[..i];
      assert i == |log| ==> log[..i] == log;
    }
    if Revives(log) {
      var j :| 0 <= j < |log| && log[j].Revived?;
      assert more[j].Revived?;
    }
    if entry.Revived? {
      assert more[|log|].Revived?;
    }
  }

  /**
   * Any run after startup, whatever becomes of the pools in it, keeps the table numbered, ordered and with its current
   * pool inside. Every selection returns a pool of the table, unless an accepted share has enabled a removed pool
   * before; and only then can a pool behind the table be worked with. A run that starts calm has no such share: all its
   * selections are of the table.
   */
  method Serve(t: Table, pools: seq<Pool>, events: seq<Event>, wild: string -> int32)
    returns (known: seq<Pool>, log: seq<Entry>)
    requires Sound(t, pools) && Retired(t)
    modifies t, pools
    ensures t.strategy == old(t.strategy) && t.failOnly == old(t.failOnly)
    ensures Sound(t, known) && Logged(events, log) && Explained(log)
    ensures !Revives(log) ==> Retired(t)
    ensures old(Calm(t, pools)) ==> Calm(t, known) && !Revives(log)
  {
    hide Sound, Retired, Calm, Explained, Revives;
    known, log := pools, [];
    NothingLogged();
    var going := true;
    while going && |log| < |events|
      invariant Sound(t, known) && (forall p <- known :: p in pools || fresh(p))
      invariant t.strategy == old(t.strategy) && t.failOnly == old(t.failOnly)
      invariant |log| <= |events| && Explained(log) && (!Revives(log) ==> Retired(t))
      invariant old(Calm(t, pools)) ==> Calm(t, known) && !Revives(log)
      invariant forall i :: 0 <= i < |log| ==>
        && (log[i].Revived? ==> events[i].Accepted?)
        && (log[i].Selected? || log[i] == OutOfArray <==> events[i].Select?)
        && (log[i] == OutOfArray ==> i == |log| - 1 && !going)
      invariant !going ==> |log| > 0 && log[|log| - 1] == OutOfArray
      decreases |events| - |log|
    {
      assert forall i :: 0 <= i < |known| ==> known[i] in pools || fresh(known[i]);
      var entry;
      known, entry := ServeOne(t, known, events[|log|], wild);
      ExplainedMore(log, entry);
      log := log + [entry];
      going := entry != OutOfArray;
    }
  }

  lemma NothingLogged()
    ensures Explained([]) && !Revives([])
  {
  }

  /** Startup with n pools of which none is configured otherwise: all are enabled, and none of them is counted. */
  method Startup(n: nat, strategy: Strategy, failOnly: bool) returns (t: Table, pools: seq<Pool>)
    requires n > 0
    ensures fresh(t) && (forall k :: 0 <= k < |pools| ==> fresh(pools[k])) && |t.pools| == n && t.strategy == strategy
    ensures t.failOnly == failOnly && t.rotatingPool == 0 && t.stale == []
    ensures Sound(t, pools) && Retired(t) && Calm(t, pools)
  {
    hide *;
    t := new Table();
    t.strategy, t.failOnly := strategy, failOnly;
    EmptyValid(t);
    pools := [];
    for i := 0 to n
      invariant t.Valid() && QuotasSet(t.pools) && t.pools == pools && |pools| == i
      invariant t.stale == [] && t.enabledPools == 0 && t.rotatingPool == 0
      invariant t.strategy == strategy && t.failOnly == failOnly
      invariant forall k :: 0 <= k < |pools| ==> fresh(pools[k]) && pools[k].state == Enabled
    {
      ghost var before := pools;
      var p := AddPool(t);
      pools := pools + [p];
      assert forall k :: 0 <= k < |before| ==> pools[k] == before[k];
    }
    t.currentpool := t.pools[0];
    RunningOf(t);
    SoundOf(t, pools);
    NoneRetired(t);
    CalmOf(t, pools);
  }

  lemma EmptyValid(t: Table)
    requires t.pools == [] && t.order == []
    ensures t.Valid() && QuotasSet(t.pools)
  {
  }

  lemma NoneRetired(t: Table)
    requires t.stale == []
    ensures Retired(t)
  {
  }

  /** A pool that comes from a selection is in the table. */
  predicate AllInside(log: seq<Entry>) {
    forall i :: 0 <= i < |log| && log[i].Selected? ==> log[i].inside
  }

  lemma InsideAll(log: seq<Entry>)
    requires Explained(log) && !Revives(log)
    ensures AllInside(log)
  {
    forall i | 0 <= i < |log|
      ensures !Revives(log[..i])
    {
      RevivesFront(log, i);
    }
  }

  lemma RevivesFront(log: seq<Entry>, i: nat)
    requires i <= |log|
    ensures Revives(log[..i]) ==> Revives(log)
  {
    if Revives(log[..i]) {
      var j :| 0 <= j < i && log[..i][j].Revived?;
      assert log[j].Revived?;
    }
  }

  /** So from a plain startup every selection of every run is of the table. */
  method ServeFromStart(n: nat, strategy: Strategy, failOnly: bool, events: seq<Event>, wild: string -> int32)
    returns (log: seq<Entry>)
    requires n > 0
    ensures Logged(events, log) && !Revives(log) && AllInside(log)
  {
    hide *;
    var t, pools := Startup(n, strategy, failOnly);
    var known;
    known, log := Serve(t, pools, events, wild);
    InsideAll(log);
  }
}
