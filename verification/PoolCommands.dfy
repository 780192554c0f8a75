/** The commands of api.c that change the pool table, and add_pool, over any run of them. */
module PoolCommands {
  import opened Sequences
  import opened Decimals
  import opened PoolOrder
  import opened PoolTable
  import opened Pools
  import opened QuotaAdjust

  /**
   * add_pool: a new pool, enabled and of quota 1, takes the next number and the last priority. The array is given
   * room for one slot more, so at most that one still holds what was behind the table.
   */
  method AddPool(t: Table) returns (pool: Pool)
    requires t.Valid() && QuotasSet(t.pools)
    modifies t`pools, t`stale, t`order, t.pools`quotaUsed, t.pools`quotaGcd, t`globalQuotaGcd
    ensures fresh(pool) && pool.quota == 1 && pool.state == Enabled && pool.quotaUsed == 0
    ensures !pool.idle && !pool.hasStratum && !pool.stratumActive && !pool.removed && pool.shares == 0
    ensures t.Valid() && QuotasSet(t.pools)
    ensures t.pools == old(t.pools) + [pool] && t.order == old(t.order) + [pool]
    ensures t.stale == if |old(t.stale)| > 1 then [old(t.stale)[1]] else []
    ensures t.globalQuotaGcd == QuotaMath.AdjustedGcd(Quotas(t.pools))
    ensures forall p <- t.pools :: p.quotaGcd == p.quota / t.globalQuotaGcd
    ensures forall p <- old(t.pools) ::
      p.quotaUsed == Rescaled(old(p.quotaUsed), old(t.globalQuotaGcd), t.globalQuotaGcd)
  {
    hide InOrder, Distinct, Prios, Quotas, QuotaMath.AdjustedGcd, Rescaled, Table.Valid;
    pool := new Pool(|t.pools|);
    AppendPool(t, pool);
    AdjustQuotaGcd(t);
    assert pool == t.pools[|t.pools| - 1];
    RescaledNothing(old(t.globalQuotaGcd), t.globalQuotaGcd);
    assert forall i :: 0 <= i < |old(t.pools)| ==> old(t.pools)[i] == t.pools[i];
  }

  lemma RescaledNothing(oldGcd: nat, gcd: nat)
    requires gcd > 0
    ensures Rescaled(0, oldGcd, gcd) == 0
  {
  }

  /** The table with one pool more. */
  method AppendPool(t: Table, pool: Pool)
    requires t.Valid() && pool !in t.pools && pool.poolNo == pool.prio == |t.pools|
    modifies t`pools, t`stale, t`order
    ensures t.Valid() && Distinct(t.pools) && t.pools == old(t.pools) + [pool] && t.order == old(t.order) + [pool]
    ensures t.stale == if |old(t.stale)| > 1 then [old(t.stale)[1]] else []
  {
    hide InOrder, Prios;
    AddKeepsOrder(t.pools, Prios(t.pools), t.order, pool);
    PriosSnoc(t.pools, pool);
    t.pools := t.pools + [pool];
    t.stale := if |t.stale| > 1 then [t.stale[1]] else [];
    t.order := t.order + [pool];
  }

  lemma PriosSnoc(pools: seq<Pool>, p: Pool)
    ensures Prios(pools + [p]) == Prios(pools) + [p.prio]
  {
  }

  datatype Status =
    | NoPool
    | MissingId
    | InvalidId(id: int)
    | DuplicateId(id: int)
    | LastPool
    | ActivePool
    | AlreadyEnabled
    | AlreadyDisabled
    | MissingQuota
    | NegativeQuota
    | Done

  type int32 = n: int | -INT_MAX - 1 <= n <= INT_MAX

  predicate IsSpace(c: char) { c == ' ' || '\t' <= c <= '\r' }
  predicate IsDigit(c: char) { '0' <= c <= '9' }

  function Digits(s: string, acc: nat): nat {
    if |s| > 0 && IsDigit(s[0]) then Digits(s[1..], 10 * acc + (s[0] as int - '0' as int)) else acc
  }

  /** The number a text starts with. */
  function Number(s: string): int {
    if |s| == 0 then 0
    else if IsSpace(s[0]) then Number(s[1..])
    else if s[0] == '-' then (var d: int := Digits(s[1..], 0); -d)
    else if s[0] == '+' then Digits(s[1..], 0)
    else Digits(s, 0)
  }

  /** atoi. Numbers that are no int can come out as anything, here as wild says. */
  function Atoi(s: string, wild: string -> int32): (r: int32)
    ensures -0x8000_0000 <= Number(s) <= 0x7fff_ffff ==> r == Number(s)
  {
    var n := Number(s);
    if -INT_MAX - 1 <= n <= INT_MAX then n else wild(s)
  }

  /** The length of the text up to the first comma. */
  function UptoComma(s: string): (n: nat)
    ensures n <= |s|
  {
    if |s| == 0 || s[0] == ',' then 0 else 1 + UptoComma(s[1..])
  }

  /** The ids of a comma-separated list; a comma at the very end starts no further one. */
  function Ids(s: string, wild: string -> int32): seq<int>
    decreases |s|
  {
    if |s| == 0 then []
    else
      var n := UptoComma(s);
      [Atoi(s[..n], wild)] + if n < |s| then Ids(s[n + 1..], wild) else []
  }

  lemma {:induction false} DigitsStop(s: string, rest: string, acc: nat)
    requires (forall c <- s :: IsDigit(c)) && (rest == "" || !IsDigit(rest[0]))
    ensures Digits(s + rest, acc) == Digits(s, acc)
  {
    if |s| == 0 {
      assert s + rest == rest;
    } else {
      assert (s + rest)[1..] == s[1..] + rest && (s + rest)[0] == s[0] && s[0] in s;
      DigitsStop(s[1..], rest, 10 * acc + (s[0] as int - '0' as int));
    }
  }

  lemma {:induction false} DigitsLast(s: string, c: char, acc: nat)
    requires (forall d <- s :: IsDigit(d)) && IsDigit(c)
    ensures Digits(s + [c], acc) == 10 * Digits(s, acc) + (c as int - '0' as int)
  {
    if |s| == 0 {
      assert (s + [c])[1..] == "";
    } else {
      assert (s + [c])[1..] == s[1..] + [c] && (s + [c])[0] == s[0] && s[0] in s;
      DigitsLast(s[1..], c, 10 * acc + (s[0] as int - '0' as int));
    }
  }

  /** Decimal text is read as its number. */
  lemma {:induction false} DigitsOfDecimal(n: nat)
    ensures Digits(Decimal(n), 0) == n
  {
    var c := ('0' as int + n % 10) as char;
    if n < 10 {
      assert Decimal(n) == [c] && [c][1..] == "";
    } else {
      DigitsOfDecimal(n / 10);
      DecimalDigits(n / 10);
      DigitsLast(Decimal(n / 10), c, 0);
    }
  }

  /** White space in front counts for nothing. */
  lemma {:induction false} NumberBlank(blank: string, s: string)
    requires forall c <- blank :: c == ' ' || 9 <= c as int <= 13
    ensures Number(blank + s) == Number(s)
  {
    if |blank| == 0 {
      assert blank + s == s;
    } else {
      assert blank[0] in blank && (blank + s)[0] == blank[0] && (blank + s)[1..] == blank[1..] + s;
      assert forall c <- blank[1..] :: c in blank;
      NumberBlank(blank[1..], s);
      hide Digits;
    }
  }

  lemma {:induction false} NumberPlain(s: string)
    requires |s| > 0 && '0' <= s[0] <= '9'
    ensures Number(s) == Digits(s, 0)
  {
    hide Digits;
    assert s[0] as int >= '0' as int > '+' as int && s[0] as int > '-' as int;
  }

  /** A sign counts, and what follows the number does not. */
  lemma {:induction false} NumberSigned(sign: string, n: nat, rest: string)
    requires sign in {"", "+", "-"} && (rest == "" || !('0' <= rest[0] <= '9'))
    ensures var m: int := n; Number(sign + (Decimal(n) + rest)) == if sign == "-" then -m else m
  {
    var d := Decimal(n) + rest;
    DecimalDigits(n);
    DigitsOfDecimal(n);
    DigitsStop(Decimal(n), rest, 0);
    hide Digits, Decimal;
    assert '0' <= d[0] <= '9' && d[0] == Decimal(n)[0] && Digits(d, 0) == n;
    if sign == "" {
      assert sign + d == d;
      NumberPlain(d);
    } else {
      assert (sign + d)[1..] == d && (sign + d)[0] == sign[0];
    }
  }

  /** What atoi makes of white space, a sign, a number and anything else behind it. */
  lemma {:induction false} NumberReads(blank: string, sign: string, n: nat, rest: string)
    requires (forall c <- blank :: c == ' ' || 9 <= c as int <= 13) && sign in {"", "+", "-"}
    requires rest == "" || !('0' <= rest[0] <= '9')
    ensures var m: int := n; Number(blank + (sign + (Decimal(n) + rest))) == if sign == "-" then -m else m
  {
    hide *;
    NumberBlank(blank, sign + (Decimal(n) + rest));
    NumberSigned(sign, n, rest);
  }

  /** Numbers with commas between them. */
  function Listing(ids: seq<nat>): string {
    if |ids| == 0 then "" else if |ids| == 1 then Decimal(ids[0]) else Decimal(ids[0]) + "," + Listing(ids[1..])
  }

  lemma {:induction false} CommaAt(s: string, rest: string)
    requires ',' !in s && (rest == "" || rest[0] == ',')
    ensures UptoComma(s + rest) == |s|
  {
    if |s| == 0 {
      assert s + rest == rest;
    } else {
      assert (s + rest)[1..] == s[1..] + rest && (s + rest)[0] == s[0];
      CommaAt(s[1..], rest);
    }
  }

  /** The first number of a list, and what is left of the list behind the comma. */
  lemma {:induction false} FirstListed(n: nat, rest: string, wild: string -> int32)
    requires n <= INT_MAX && (rest == "" || rest[0] == ',')
    ensures var s := Decimal(n) + rest; UptoComma(s) == |Decimal(n)| && Atoi(s[..|Decimal(n)|], wild) == n
  {
    DecimalDigits(n);
    CommaAt(Decimal(n), rest);
    NumberReads("", "", n, "");
    assert "" + ("" + (Decimal(n) + "")) == Decimal(n) == (Decimal(n) + rest)[..|Decimal(n)|];
  }

  /** Ids that fit in an int are read as they were written. */
  lemma {:induction false} IdsOfListing(ids: seq<nat>, wild: string -> int32)
    requires forall k :: 0 <= k < |ids| ==> ids[k] <= INT_MAX
    ensures Ids(Listing(ids), wild) == ids
  {
    if |ids| == 0 {
    } else if |ids| == 1 {
      FirstListed(ids[0], "", wild);
      assert Decimal(ids[0]) + "" == Decimal(ids[0]);
    } else {
      var first, more := Decimal(ids[0]), Listing(ids[1..]);
      IdsOfListing(ids[1..], wild);
      FirstListed(ids[0], "," + more, wild);
      assert first + "," + more == first + ("," + more);
      assert (first + "," + more)[|first| + 1..] == more;
      hide Listing;
    }
  }

  /** strchr(ptr, ','). */
  method FindComma(s: string) returns (n: nat)
    ensures n == UptoComma(s)
  {
    n := 0;
    while n < |s| && s[n] != ','
      invariant n <= |s| && UptoComma(s) == n + UptoComma(s[n..])
    {
      n := n + 1;
    }
  }

  /** Every id names a pool, and none twice. */
  ghost predicate GoodIds(ids: seq<int>, n: nat) {
    Distinct(ids) && forall k :: 0 <= k < |ids| ==> 0 <= ids[k] < n
  }

  /** What the parsing loop has recorded of the ids so far. */
  ghost predicate Recorded(ids: seq<int>, changed: seq<bool>, newPrio: seq<int>, n: nat) {
    && |changed| == |newPrio| == n && GoodIds(ids, n)
    && (forall i :: 0 <= i < n ==> changed[i] == (i in ids))
    && (forall k :: 0 <= k < |ids| ==> newPrio[ids[k]] == k)
  }

  lemma RecordNext(ids: seq<int>, changed: seq<bool>, newPrio: seq<int>, n: nat, i: int)
    requires Recorded(ids, changed, newPrio, n) && 0 <= i < n && !changed[i]
    ensures Recorded(ids + [i], changed[i := true], newPrio[i := |ids|], n)
  {
  }

  /** The parsing loop of poolpriority: it stops at the first bad id, before anything is changed. */
  method ParseIds(param: string, n: nat, wild: string -> int32)
    returns (status: Status, changed: array<bool>, newPrio: array<int>, prio: nat)
    ensures fresh(changed) && fresh(newPrio) && changed.Length == newPrio.Length == n
    ensures status == Done <==> GoodIds(Ids(param, wild), n)
    ensures status == Done ==> prio == |Ids(param, wild)| && Recorded(Ids(param, wild), changed[..], newPrio[..], n)
    ensures status != Done ==>
      (status.InvalidId? || status.DuplicateId?) && status.id in Ids(param, wild)
      && (status.InvalidId? <==> !(0 <= status.id < n))
  {
    hide Atoi, UptoComma, Number;
    changed := new bool[n](_ => false);
    newPrio := new int[n](_ => 0);
    prio := 0;
    var next := param;
    ghost var ids: seq<int> := [];
    while next != ""
      invariant ids + Ids(next, wild) == Ids(param, wild) && prio == |ids|
      invariant Recorded(ids, changed[..], newPrio[..], n)
      decreases |next|
    {
      var comma := FindComma(next);
      var i := Atoi(next[..comma], wild);
      ghost var rest := if comma < |next| then Ids(next[comma + 1..], wild) else [];
      assert Ids(next, wild) == [i] + rest;
      assert ids + Ids(next, wild) == (ids + [i]) + rest;
      if i < 0 || i >= n {
        BadId(ids, i, rest, n);
        status := InvalidId(i);
        return;
      }
      if changed[i] {
        BadId(ids, i, rest, n);
        status := DuplicateId(i);
        return;
      }
      RecordNext(ids, changed[..], newPrio[..], n, i);
      changed[i] := true;
      newPrio[i] := prio;
      prio := prio + 1;
      ids := ids + [i];
      next := if comma < |next| then next[comma + 1..] else "";
    }
    assert ids + Ids("", wild) == ids;
    status := Done;
  }

  lemma BadId(ids: seq<int>, i: int, rest: seq<int>, n: nat)
    requires !(0 <= i < n) || i in ids
    ensures !GoodIds((ids + [i]) + rest, n)
    ensures i in (ids + [i]) + rest
  {
    var all := (ids + [i]) + rest;
    assert all[|ids|] == i;
    if i in ids {
      var k :| 0 <= k < |ids| && ids[k] == i;
      assert all[k] == i;
    }
  }

  /** The pools an id list names, in list order. */
  function Listed(pools: seq<Pool>, ids: seq<int>): (r: seq<Pool>)
    requires forall k :: 0 <= k < |ids| ==> 0 <= ids[k] < |pools|
    ensures |r| == |ids| && forall k :: 0 <= k < |r| ==> r[k] == pools[ids[k]]
  {
    seq(|ids|, k requires 0 <= k < |ids| => pools[ids[k]])
  }

  lemma ListedFacts(pools: seq<Pool>, ids: seq<int>)
    requires Distinct(pools) && GoodIds(ids, |pools|)
    ensures Distinct(Listed(pools, ids)) && forall x :: x in Listed(pools, ids) ==> x in pools
    ensures forall i :: 0 <= i < |pools| ==> (pools[i] in Listed(pools, ids) <==> i in ids)
  {
    var l := Listed(pools, ids);
    forall i | 0 <= i < |pools|
      ensures pools[i] in l <==> i in ids
    {
      if i in ids {
        var k :| 0 <= k < |ids| && ids[k] == i;
        assert l[k] == pools[i];
      }
    }
  }

  /** The second loop of poolpriority: the listed pools take their places. */
  method ApplyListed(pools: seq<Pool>, changed: array<bool>, newPrio: array<int>)
    requires Distinct(pools) && changed.Length == newPrio.Length == |pools|
    modifies pools`prio
    ensures forall i :: 0 <= i < |pools| ==> Prios(pools)[i] == if changed[i] then newPrio[i] else old(Prios(pools))[i]
  {
    hide Prios;
    ghost var ps := Prios(pools);
    for i := 0 to |pools|
      invariant forall k :: 0 <= k < |pools| ==> Prios(pools)[k] == if k < i && changed[k] then newPrio[k] else ps[k]
    {
      if changed[i] {
        SetPrio(pools, i, newPrio[i]);
      }
    }
  }

  lemma AppliedIsRenumbered(pools: seq<Pool>, ps: seq<int>, ord: seq<Pool>, ids: seq<int>,
                            qs: seq<int>, changed: seq<bool>, newPrio: seq<int>)
    requires InOrder(pools, ps, ord) && Distinct(pools) && Recorded(ids, changed, newPrio, |pools|) && |qs| == |pools|
    requires forall i :: 0 <= i < |pools| ==> qs[i] == if changed[i] then newPrio[i] else ps[i]
    ensures Renumbered(pools, ps, ord, Listed(pools, ids), qs, changed, 0)
  {
    ListedFacts(pools, ids);
    var l := Listed(pools, ids);
    forall i | 0 <= i < |pools| && pools[i] in l
      ensures changed[i] && 0 <= qs[i] < |l| && l[qs[i]] == pools[i]
    {
      var k :| 0 <= k < |ids| && ids[k] == i;
    }
  }

  /** The table as poolpriority found it, and the pools it was given. */
  datatype Plan = Plan(pools: seq<Pool>, ps: seq<int>, ord: seq<Pool>, listed: seq<Pool>) {
    ghost predicate Sound() { InOrder(pools, ps, ord) && Distinct(pools) }

    ghost predicate Reached(qs: seq<int>, changed: seq<bool>, pr: nat)
      requires Sound()
      ensures Reached(qs, changed, pr) ==> |qs| == |changed| == |pools|
    {
      Renumbered(pools, ps, ord, listed, qs, changed, pr)
    }

    /** The next number to give when old priorities below pr are done. */
    ghost function Place(pr: nat): nat
      requires Sound() && pr <= |pools|
    {
      |listed| + |Except(ord[..pr], listed)|
    }

    lemma Pass(qs: seq<int>, changed: seq<bool>, pr: nat, i: nat)
      requires Sound() && pr < |pools| && Reached(qs, changed, pr) && i <= |pools|
      requires i < |pools| ==> !changed[i] && qs[i] == pr
      requires forall k :: 0 <= k < i ==> changed[k] || qs[k] != pr
      ensures i < |pools| ==> Place(pr + 1) == Place(pr) + 1 && Reached(qs[i := Place(pr)], changed[i := true], pr + 1)
      ensures i == |pools| ==> Place(pr + 1) == Place(pr) && Reached(qs, changed, pr + 1)
    {
      hide InOrder, Distinct, Renumbered, Except;
      OrderLengthOf(pools, ps, ord);
      RenumberPass(pools, ps, ord, listed, qs, changed, pr, i);
    }
  }

  /** One pass of the last loop of poolpriority: the unlisted pool of old priority pr, if any, takes the next place. */
  method RenumberOne(pools: seq<Pool>, changed: array<bool>, pr: nat, prio: nat, ghost plan: Plan) returns (next: nat)
    requires plan.Sound() && plan.pools == pools && changed.Length == |pools| && pr < |pools|
    requires plan.Reached(Prios(pools), changed[..], pr) && prio == plan.Place(pr)
    modifies pools`prio, changed
    ensures plan.Reached(Prios(pools), changed[..], pr + 1) && next == plan.Place(pr + 1)
  {
    assert Distinct(pools);
    hide Prios, Distinct, Plan.Reached, Plan.Place, Plan.Sound;
    var i := FindUnchanged(pools, changed, pr);
    ghost var qs, marks := Prios(pools), changed[..];
    plan.Pass(qs, marks, pr, i);
    next := prio;
    if i < |pools| {
      TakePlace(pools, changed, i, prio);
      next := prio + 1;
    }
  }

  method TakePlace(pools: seq<Pool>, changed: array<bool>, i: nat, prio: nat)
    requires Distinct(pools) && changed.Length == |pools| && i < |pools|
    modifies pools`prio, changed
    ensures Prios(pools) == old(Prios(pools))[i := prio] && changed[..] == old(changed[..])[i := true]
  {
    hide Prios;
    SetPrio(pools, i, prio);
    changed[i] := true;
  }

  /** The inner search: the first unchanged pool that shows priority pr, or the number of pools. */
  method FindUnchanged(pools: seq<Pool>, changed: array<bool>, pr: nat) returns (i: nat)
    requires changed.Length == |pools|
    ensures i <= |pools| && (i < |pools| ==> !changed[i] && Prios(pools)[i] == pr)
    ensures forall k :: 0 <= k < i ==> changed[k] || Prios(pools)[k] != pr
  {
    hide Prios;
    i := 0;
    while i < |pools|
      invariant i <= |pools| && forall k :: 0 <= k < i ==> changed[k] || Prios(pools)[k] != pr
    {
      if !changed[i] && pools[i].prio == pr {
        return;
      }
      i := i + 1;
    }
  }

  /** The renumbering of poolpriority once the list has been accepted. */
  method Reprioritise(t: Table, changed: array<bool>, newPrio: array<int>, prio0: nat, ghost ids: seq<int>)
    requires t.Valid() && changed.Length == newPrio.Length == |t.pools|
    requires Recorded(ids, changed[..], newPrio[..], |t.pools|) && prio0 == |ids|
    modifies t.pools`prio, t`order, changed
    ensures t.Valid()
    ensures t.order == Listed(t.pools, ids) + Except(old(t.order), Listed(t.pools, ids))
  {
    hide Prios, InOrder, Except, Distinct, Listed;
    RenumberPools(t.pools, changed, newPrio, prio0, ids, t.order);
    t.order := Listed(t.pools, ids) + Except(t.order, Listed(t.pools, ids));
  }

  method RenumberPools(pools: seq<Pool>, changed: array<bool>, newPrio: array<int>, prio0: nat,
                       ghost ids: seq<int>, ghost ord: seq<Pool>)
    requires Distinct(pools) && InOrder(pools, Prios(pools), ord) && changed.Length == newPrio.Length == |pools|
    requires Recorded(ids, changed[..], newPrio[..], |pools|) && prio0 == |ids|
    modifies pools`prio, changed
    ensures InOrder(pools, Prios(pools), Listed(pools, ids) + Except(ord, Listed(pools, ids)))
  {
    hide Prios, InOrder, Except, Distinct, Listed, Plan.Reached, Plan.Place;
    ghost var plan := Plan(pools, Prios(pools), ord, Listed(pools, ids));
    ApplyListed(pools, changed, newPrio);
    Started(plan, ids, Prios(pools), changed[..], newPrio[..]);
    RenumberRest(pools, changed, prio0, plan);
    Finished(plan, ids, Prios(pools), changed[..]);
  }

  /** The last loop of poolpriority. */
  method RenumberRest(pools: seq<Pool>, changed: array<bool>, prio0: nat, ghost plan: Plan)
    requires plan.Sound() && plan.pools == pools && changed.Length == |pools|
    requires plan.Reached(Prios(pools), changed[..], 0) && prio0 == plan.Place(0)
    modifies pools`prio, changed
    ensures plan.Reached(Prios(pools), changed[..], |pools|)
  {
    hide Prios, Distinct, Plan.Reached, Plan.Place, Plan.Sound;
    var prio := prio0;
    for pr := 0 to |pools|
      invariant plan.Reached(Prios(pools), changed[..], pr) && prio == plan.Place(pr)
    {
      prio := RenumberOne(pools, changed, pr, prio, plan);
    }
  }

  lemma Started(plan: Plan, ids: seq<int>, qs: seq<int>, changed: seq<bool>, newPrio: seq<int>)
    requires plan.Sound() && Recorded(ids, changed, newPrio, |plan.pools|) && |qs| == |plan.pools| == |plan.ps|
    requires plan.listed == Listed(plan.pools, ids)
    requires forall i :: 0 <= i < |qs| ==> qs[i] == if changed[i] then newPrio[i] else plan.ps[i]
    ensures plan.Reached(qs, changed, 0) && plan.Place(0) == |ids|
  {
    NoneBefore(plan.ord, plan.listed);
    AppliedIsRenumbered(plan.pools, plan.ps, plan.ord, ids, qs, changed, newPrio);
  }

  lemma Finished(plan: Plan, ids: seq<int>, qs: seq<int>, changed: seq<bool>)
    requires plan.Sound() && GoodIds(ids, |plan.pools|) && plan.listed == Listed(plan.pools, ids)
    requires plan.Reached(qs, changed, |plan.pools|)
    ensures InOrder(plan.pools, qs, plan.listed + Except(plan.ord, plan.listed))
  {
    hide Renumbered, Except, Distinct;
    ListedFacts(plan.pools, ids);
    OrderLengthOf(plan.pools, plan.ps, plan.ord);
    RenumberDone(plan.pools, plan.ps, plan.ord, plan.listed, qs, changed);
  }

  lemma NoneBefore(ord: seq<Pool>, listed: seq<Pool>)
    ensures |Except(ord[..0], listed)| == 0
  {
  }

  lemma OrderLengthOf(pools: seq<Pool>, ps: seq<int>, ord: seq<Pool>)
    requires InOrder(pools, ps, ord)
    ensures |pools| == |ps| == |ord|
  {
  }

  /**
   * poolpriority: a bad list changes nothing; a good one puts the listed pools first, in list order, and keeps
   * the others in their old order behind them. If that displaces the current pool, the pools are switched.
   */
  method PoolPriority(t: Table, param: string, wild: string -> int32) returns (status: Status)
    requires t.Running()
    modifies t.pools`prio, t`order, t`currentpool
    ensures t.Running()
    ensures status == Done <==> param != "" && GoodIds(Ids(param, wild), |t.pools|)
    ensures status != Done ==>
      Prios(t.pools) == old(Prios(t.pools)) && t.order == old(t.order) && t.currentpool == old(t.currentpool)
    ensures status == Done ==>
      t.order == Listed(t.pools, Ids(param, wild)) + Except(old(t.order), Listed(t.pools, Ids(param, wild)))
    ensures status == Done && old(t.currentpool) != t.order[0] ==>
      old(t.currentpool).poolNo < |t.pools|
      && t.currentpool == Chosen(t.strategy, t.pools, t.order, old(t.currentpool), old(t.currentpool).poolNo, null)
    ensures status == Done && old(t.currentpool) == t.order[0] ==> t.currentpool == old(t.currentpool)
  {
    hide Prios, InOrder, Except, Distinct, Chosen, Listed, GoodIds, Recorded, Ids;
    if param == "" {
      return MissingId;
    }
    var changed, newPrio, prio;
    status, changed, newPrio, prio := ParseIds(param, |t.pools|, wild);
    if status != Done {
      return;
    }
    Reprioritise(t, changed, newPrio, prio, Ids(param, wild));
    FrontPool(t, t.currentpool);
    if t.currentpool.prio != 0 {
      SwitchPools(t, null);
    }
  }

  /** poolpriority with a list of ids as anyone would write them: exactly those pools come first, in that order. */
  method PriorityOfListed(t: Table, ids: seq<nat>, wild: string -> int32) returns (status: Status)
    requires t.Running() && forall k :: 0 <= k < |ids| ==> ids[k] <= INT_MAX
    modifies t.pools`prio, t`order, t`currentpool
    ensures t.Running()
    ensures status == Done <==> ids != [] && Distinct(ids) && forall k :: 0 <= k < |ids| ==> ids[k] < |t.pools|
    ensures status == Done ==> |ids| <= |t.order| && forall k :: 0 <= k < |ids| ==> t.order[k] == t.pools[ids[k]]
    ensures status != Done ==> t.order == old(t.order) && t.currentpool == old(t.currentpool)
  {
    hide Prios, InOrder, Except, Chosen, Ids, Listing;
    IdsOfListing(ids, wild);
    ListingEmpty(ids);
    status := PoolPriority(t, Listing(ids), wild);
  }

  lemma {:induction false} ListingEmpty(ids: seq<nat>)
    ensures Listing(ids) == "" <==> ids == []
  {
  }

  /** The pool of priority 0 is the first of the order. */
  lemma FrontPool(t: Table, p: Pool)
    requires t.Valid() && p in t.pools
    ensures |t.order| > 0 && (p.prio == 0 <==> p == t.order[0])
  {
    var i :| 0 <= i < |t.pools| && t.pools[i] == p;
    assert Prios(t.pools)[i] == p.prio;
    assert 0 in Prios(t.pools);
    var k :| 0 <= k < |t.pools| && Prios(t.pools)[k] == 0;
    assert t.order[0] == t.pools[k];
  }

  /** removepool: never the last pool, and never the current one, which is switched away from first if it can be. */
  method RemovePoolCommand(t: Table, id: int) returns (status: Status)
    requires t.Running()
    modifies t.pools`prio, t.pools`poolNo, t.pools`state, t.pools`removed, t`pools, t`stale, t`order, t`currentpool
    ensures t.Running()
    ensures status == Done ==>
      0 <= id < |old(t.pools)| && 1 < |old(t.pools)|
      && t.pools == SwapLast(old(t.pools), id) && t.order == Without(old(t.order), old(t.pools)[id])
    ensures forall p :: p in t.pools ==> p in old(t.pools)
    ensures status != Done ==> t.pools == old(t.pools) && t.order == old(t.order) && t.stale == old(t.stale)
    ensures status == Done ==> t.stale == [old(t.pools)[|old(t.pools)| - 1]] + old(t.stale)
    ensures forall p :: p in old(t.pools) && !(status == Done && p == old(t.pools)[id]) ==> p in t.pools
    ensures status in {Done, InvalidId(id), LastPool, ActivePool}
    ensures status.InvalidId? <==> !(0 <= id < |old(t.pools)|)
    ensures status == LastPool <==> id == 0 && |old(t.pools)| == 1
    ensures status == ActivePool <==>
      0 <= id < |old(t.pools)| && |old(t.pools)| != 1 && t.currentpool == old(t.pools)[id]
    ensures 0 <= old(t.currentpool.poolNo) < |old(t.pools)|
    ensures t.currentpool ==
      if 0 <= id < |old(t.pools)| && |old(t.pools)| > 1 && old(t.currentpool) == old(t.pools)[id]
      then old(Chosen(t.strategy, t.pools, t.order, t.currentpool, t.currentpool.poolNo, null))
      else old(t.currentpool)
    ensures status == Done ==>
      old(t.pools)[id].removed && old(t.pools)[id].state == Disabled && old(t.pools)[id] !in t.pools
    ensures forall p :: p in old(t.pools) && !(status == Done && p == old(t.pools)[id]) ==>
      p.state == old(p.state) && p.removed == old(p.removed)
  {
    hide Prios, InOrder, Distinct, Chosen, SwapLast, Without;
    PoolAtNumber(t);
    if id < 0 || id >= |t.pools| {
      return InvalidId(id);
    }
    if |t.pools| <= 1 {
      return LastPool;
    }
    var pool := t.pools[id];
    if pool == t.currentpool {
      SwitchPools(t, null);
    }
    if pool == t.currentpool {
      return ActivePool;
    }
    DisableAndRemove(t, pool);
    status := Done;
  }

  method DisableAndRemove(t: Table, pool: Pool)
    requires t.Running() && pool in t.pools && pool != t.currentpool
    modifies t.pools`prio, t.pools`poolNo, pool`state, pool`removed, t`pools, t`stale, t`order
    ensures t.Running() && t.order == Without(old(t.order), pool)
    ensures 0 <= old(pool.poolNo) < |old(t.pools)| && t.pools == SwapLast(old(t.pools), old(pool.poolNo))
    ensures pool.removed && pool.state == Disabled && pool !in t.pools
    ensures forall p :: p in old(t.pools) && p != pool ==> p in t.pools
    ensures forall p :: p in t.pools ==> p in old(t.pools)
    ensures |old(t.pools)| > 0 && t.stale == [old(t.pools)[|old(t.pools)| - 1]] + old(t.stale)
  {
    hide Prios, InOrder, Distinct, SwapLast, Without;
    pool.state := Disabled;
    RemovePool(t, pool);
  }

  /** switchpool: the pool is enabled and selected. */
  method SwitchPoolCommand(t: Table, id: int) returns (status: Status)
    requires t.Running()
    modifies t.pools`prio, t.pools`state, t`order, t`currentpool
    ensures t.Running() && t.pools == old(t.pools)
    ensures status == Done <==> 0 <= id < |t.pools|
    ensures status == Done ==> t.order == Fronted(old(t.order), t.pools[id])
    ensures status != Done ==> t.order == old(t.order) && t.currentpool == old(t.currentpool)
    ensures status == Done ==>
      old(t.currentpool).poolNo < |t.pools|
      && t.currentpool
           == Chosen(t.strategy, t.pools, t.order, old(t.currentpool), old(t.currentpool).poolNo, t.pools[id])
    ensures forall i :: 0 <= i < |t.pools| ==> t.pools[i].state == if i == id then Enabled else old(t.pools[i].state)
  {
    hide Prios, InOrder, Chosen, Fronted;
    if id < 0 || id >= |t.pools| {
      return InvalidId(id);
    }
    t.pools[id].state := Enabled;
    SwitchPools(t, t.pools[id]);
    status := Done;
  }

  /** enablepool: a pool that comes before the current one is selected as well. */
  method EnablePoolCommand(t: Table, id: int) returns (status: Status)
    requires t.Running()
    modifies t.pools`prio, t.pools`state, t`order, t`currentpool
    ensures t.Running() && t.pools == old(t.pools)
    ensures status == Done <==> 0 <= id < |t.pools| && old(t.pools[id].state) != Enabled
    ensures status.InvalidId? <==> !(0 <= id < |t.pools|)
    ensures forall i :: 0 <= i < |t.pools| ==> t.pools[i].state == if i == id then Enabled else old(t.pools[i].state)
    ensures 0 <= old(t.currentpool.poolNo) < |t.pools|
    ensures if status == Done && old(t.pools[id].prio < t.currentpool.prio)
      then
        t.order == Fronted(old(t.order), t.pools[id])
        && t.currentpool
             == Chosen(t.strategy, t.pools, t.order, old(t.currentpool), old(t.currentpool.poolNo), t.pools[id])
      else t.order == old(t.order) && t.currentpool == old(t.currentpool)
  {
    hide Prios, InOrder, Distinct, Chosen, Fronted;
    PoolAtNumber(t);
    if id < 0 || id >= |t.pools| {
      return InvalidId(id);
    }
    var pool := t.pools[id];
    if pool.state == Enabled {
      return AlreadyEnabled;
    }
    pool.state := Enabled;
    if pool.prio < t.currentpool.prio {
      SwitchPools(t, pool);
    }
    status := Done;
  }

  /** disablepool: the current pool is switched away from, if any other is usable. */
  method DisablePoolCommand(t: Table, id: int) returns (status: Status)
    requires t.Running()
    modifies t.pools`prio, t.pools`state, t`order, t`currentpool
    ensures t.Running() && t.pools == old(t.pools) && t.order == old(t.order)
    ensures status == Done <==> 0 <= id < |t.pools| && old(t.pools[id].state) != Disabled
    ensures status.InvalidId? <==> !(0 <= id < |t.pools|)
    ensures forall i :: 0 <= i < |t.pools| ==> t.pools[i].state == if i == id then Disabled else old(t.pools[i].state)
    ensures 0 <= old(t.currentpool.poolNo) < |t.pools|
    ensures t.currentpool ==
      if status == Done && t.pools[id] == old(t.currentpool)
      then Chosen(t.strategy, t.pools, t.order, old(t.currentpool), old(t.currentpool.poolNo), null)
      else old(t.currentpool)
  {
    hide Prios, InOrder, Distinct, Chosen;
    PoolAtNumber(t);
    if id < 0 || id >= |t.pools| {
      return InvalidId(id);
    }
    var pool := t.pools[id];
    if pool.state == Disabled {
      return AlreadyDisabled;
    }
    pool.state := Disabled;
    if pool == t.currentpool {
      SwitchPools(t, null);
    }
    status := Done;
  }

  /** poolquota: a pool's number and its new quota, with a comma between them. All quotas are normalised again. */
  method PoolQuotaCommand(t: Table, param: string, wild: string -> int32) returns (status: Status)
    requires t.Valid() && QuotasSet(t.pools)
    modifies t.pools`quota, t.pools`quotaUsed, t.pools`quotaGcd, t`globalQuotaGcd
    ensures t.Valid() && QuotasSet(t.pools)
    ensures var c := UptoComma(param); var id := Atoi(param[..c], wild);
      status == Done <==> c < |param| && 0 <= id < |t.pools| && Atoi(param[c + 1..], wild) >= 0
    ensures status == Done ==>
      var c := UptoComma(param); var id := Atoi(param[..c], wild);
      && Quotas(t.pools) == old(Quotas(t.pools))[id := Atoi(param[c + 1..], wild)]
      && t.globalQuotaGcd == QuotaMath.AdjustedGcd(Quotas(t.pools))
      && forall p <- t.pools ::
           p.quotaGcd == p.quota / t.globalQuotaGcd
           && p.quotaUsed == Rescaled(old(p.quotaUsed), old(t.globalQuotaGcd), t.globalQuotaGcd)
    ensures status != Done ==>
      Quotas(t.pools) == old(Quotas(t.pools)) && t.globalQuotaGcd == old(t.globalQuotaGcd)
      && forall p <- t.pools :: p.quotaGcd == old(p.quotaGcd) && p.quotaUsed == old(p.quotaUsed)
  {
    hide Atoi, UptoComma, Number, InOrder, Prios, Distinct, Quotas, QuotaMath.AdjustedGcd, Rescaled, Table.Valid;
    if |t.pools| == 0 {
      return NoPool;
    }
    if param == "" {
      return MissingId;
    }
    var comma := FindComma(param);
    if comma == |param| {
      return MissingQuota;
    }
    var id := Atoi(param[..comma], wild);
    if id < 0 || id >= |t.pools| {
      return InvalidId(id);
    }
    var quota := Atoi(param[comma + 1..], wild);
    if quota < 0 {
      return NegativeQuota;
    }
    SetAndAdjust(t, id, quota);
    status := Done;
  }

  /** poolquota with two numbers: exactly the quota of that pool becomes that number. */
  method QuotaOfListed(t: Table, id: nat, quota: nat, wild: string -> int32) returns (status: Status)
    requires t.Valid() && QuotasSet(t.pools) && id <= INT_MAX && quota <= INT_MAX
    modifies t.pools`quota, t.pools`quotaUsed, t.pools`quotaGcd, t`globalQuotaGcd
    ensures t.Valid() && QuotasSet(t.pools)
    ensures status == Done <==> id < |t.pools|
    ensures Quotas(t.pools) == if status == Done then old(Quotas(t.pools))[id := quota] else old(Quotas(t.pools))
    ensures status == Done ==>
      t.globalQuotaGcd == QuotaMath.AdjustedGcd(Quotas(t.pools))
      && forall p <- t.pools ::
           p.quotaGcd == p.quota / t.globalQuotaGcd
           && p.quotaUsed == Rescaled(old(p.quotaUsed), old(t.globalQuotaGcd), t.globalQuotaGcd)
    ensures status != Done ==>
      t.globalQuotaGcd == old(t.globalQuotaGcd)
      && forall p <- t.pools :: p.quotaGcd == old(p.quotaGcd) && p.quotaUsed == old(p.quotaUsed)
  {
    hide Atoi, UptoComma, Number, Quotas, QuotaMath.AdjustedGcd, Rescaled, Table.Valid, Decimal;
    var param := Decimal(id) + ("," + Decimal(quota));
    FirstListed(id, "," + Decimal(quota), wild);
    FirstListed(quota, "", wild);
    assert param[|Decimal(id)| + 1..] == Decimal(quota) == Decimal(quota) + "";
    assert Decimal(quota)[..|Decimal(quota)|] == Decimal(quota);
    status := PoolQuotaCommand(t, param, wild);
  }

  method SetAndAdjust(t: Table, i: nat, quota: int)
    requires t.Valid() && QuotasSet(t.pools) && i < |t.pools| && 0 <= quota <= INT_MAX
    modifies t.pools`quota, t.pools`quotaUsed, t.pools`quotaGcd, t`globalQuotaGcd
    ensures t.Valid() && QuotasSet(t.pools) && Quotas(t.pools) == old(Quotas(t.pools))[i := quota]
    ensures t.globalQuotaGcd == QuotaMath.AdjustedGcd(Quotas(t.pools))
    ensures forall p <- t.pools ::
      p.quotaGcd == p.quota / t.globalQuotaGcd
      && p.quotaUsed == Rescaled(old(p.quotaUsed), old(t.globalQuotaGcd), t.globalQuotaGcd)
  {
    hide InOrder, Prios, Quotas, QuotaMath.AdjustedGcd, Rescaled;
    SetQuota(t.pools, i, quota);
    AdjustQuotaGcd(t);
  }

  method SetQuota(pools: seq<Pool>, i: nat, quota: int)
    requires Distinct(pools) && QuotasSet(pools) && i < |pools| && 0 <= quota <= INT_MAX
    modifies pools`quota
    ensures QuotasSet(pools) && Quotas(pools) == old(Quotas(pools))[i := quota]
  {
    hide Quotas;
    pools[i].quota := quota;
  }

  /** enable_pool. The commands set states without it. */
  method EnablePool(t: Table, pool: Pool)
    modifies pool`state, t`enabledPools
    ensures pool.state == Enabled
    ensures t.enabledPools == old(t.enabledPools) + if old(pool.state) != Enabled then 1 else 0
  {
    if pool.state != Enabled {
      t.enabledPools := t.enabledPools + 1;
    }
    pool.state := Enabled;
  }

  /** reject_pool. */
  method RejectPool(t: Table, pool: Pool)
    modifies pool`state, t`enabledPools
    ensures pool.state == Rejecting
    ensures t.enabledPools == old(t.enabledPools) - if old(pool.state) == Enabled then 1 else 0
  {
    if pool.state == Enabled {
      t.enabledPools := t.enabledPools - 1;
    }
    pool.state := Rejecting;
  }

  /** share_result of an accepted share: a pool put aside for its rejects is taken back, even one that was removed. */
  method ShareAccepted(t: Table, pool: Pool)
    requires t.Running()
    modifies t.pools`prio, pool`state, t`order, t`currentpool, t`enabledPools
    ensures t.Running() && t.order == old(t.order)
    ensures pool.state == if old(pool.state) == Rejecting then Enabled else old(pool.state)
    ensures t.enabledPools == old(t.enabledPools) + if old(pool.state) == Rejecting then 1 else 0
    ensures old(pool.state) != Rejecting ==> t.currentpool == old(t.currentpool)
    ensures old(t.currentpool).poolNo < |t.pools|
    ensures old(pool.state) == Rejecting ==>
      t.currentpool == Chosen(t.strategy, t.pools, t.order, old(t.currentpool), old(t.currentpool).poolNo, null)
  {
    hide Prios, InOrder, Distinct, Chosen;
    PoolAtNumber(t);
    if pool.state == Rejecting {
      EnablePool(t, pool);
      SwitchPools(t, null);
    }
  }

  /**
   * share_result when a pool has rejected too many shares in a row: while more than one pool is counted as enabled, it
   * is put aside, whatever its state was, and even if it was removed.
   */
  method SharesRejected(t: Table, pool: Pool)
    requires t.Running()
    modifies t.pools`prio, pool`state, t`order, t`currentpool, t`enabledPools
    ensures t.Running() && t.order == old(t.order)
    ensures pool.state == if old(t.enabledPools) > 1 then Rejecting else old(pool.state)
    ensures t.enabledPools
         == old(t.enabledPools) - if old(t.enabledPools) > 1 && old(pool.state) == Enabled then 1 else 0
    ensures old(t.currentpool).poolNo < |t.pools|
    ensures t.currentpool ==
      if old(t.enabledPools) > 1 && pool == old(t.currentpool)
      then Chosen(t.strategy, t.pools, t.order, old(t.currentpool), old(t.currentpool).poolNo, null)
      else old(t.currentpool)
  {
    hide Prios, InOrder, Distinct, Chosen;
    PoolAtNumber(t);
    if t.enabledPools > 1 {
      RejectPool(t, pool);
      if pool == t.currentpool {
        SwitchPools(t, null);
      }
    }
  }
}
