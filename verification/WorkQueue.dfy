/** The queue of staged work of sgminer.c, with its approximate count of rollable items. */
module WorkQueue {
  import opened Sequences
  import opened HashSort
  import opened Options
  import opened Rolling
  import opened Selections

  /** The ntime of a header: four bytes, the most significant first. */
  function TimeOf(data: Header): Ntime32 {
    Be32(data[NTIME_AT..NTIME_AT + 4])
  }

  class Work {
    var id: int
    var data: Header
    var rolls: nat
    var blkNonce: nat
    var clone: bool
    var rolltime: int
    var stratum: bool
    var pool: int
    var tvStaged: int
    var longpoll: bool
    var mandatory: bool

    /** make_clone: a copy under an id of its own that cannot be rolled and looks one second older. */
    constructor Clone(w: Work, newId: int)
      ensures clone && !longpoll && !mandatory && tvStaged == w.tvStaged - 1 && id == newId
      ensures data == w.data && Time() == w.Time() && rolls == w.rolls && blkNonce == w.blkNonce
      ensures rolltime == w.rolltime && stratum == w.stratum && pool == w.pool
    {
      id, data, rolls, blkNonce := newId, w.data, w.rolls, w.blkNonce;
      rolltime, stratum, pool, tvStaged := w.rolltime, w.stratum, w.pool, w.tvStaged - 1;
      clone, longpoll, mandatory := true, false, false;
    }

    function Time(): Ntime32
      reads this`data
    {
      TimeOf(data)
    }

    /** roll_work: the time that a miner reads in the header moves on by one second, and nothing else of it changes. */
    method Roll(newId: int)
      modifies this`data, this`rolls, this`blkNonce, this`id
      ensures Time() == Ntime(old(Time()), 1) && SameOutside(data, old(data))
      ensures rolls == old(rolls) + 1 && blkNonce == 0 && id == newId
    {
      var ntime := Be32(data[NTIME_AT..NTIME_AT + 4]);
      ntime := (ntime + 1) % NTIME_RANGE;
      StoreTime(data, ntime);
      data := data[..NTIME_AT] + Bytes32(ntime) + data[NTIME_AT + 4..];
      rolls := rolls + 1;
      blkNonce := 0;
      id := newId;
    }

    /** What never changes of an item that can_roll demands. A negative pool stands for the null pointer. */
    predicate Master()
      reads this`stratum, this`pool, this`rolltime, this`clone
    {
      !stratum && pool >= 0 && rolltime != 0 && !clone
    }

    /** can_roll of an item that is not stale. */
    predicate CanRoll()
      reads this`stratum, this`pool, this`rolltime, this`clone, this`rolls
    {
      Master() && rolls < MAX_ROLLS
    }
  }

  /** The same header but for the ntime. */
  predicate SameOutside(a: Header, b: Header) {
    a[..68] == b[..68] && a[72..] == b[72..]
  }

  lemma SameOutsideTwice(a: Header, b: Header, c: Header)
    requires SameOutside(a, b) && SameOutside(b, c)
    ensures SameOutside(a, c)
  {
  }

  /** What a clone has from its master and what it does not. */
  predicate Kin(c: Work, w: Work)
    reads c`clone, c`longpoll, c`mandatory, c`pool, c`rolltime, c`stratum, c`tvStaged
    reads w`pool, w`rolltime, w`stratum, w`tvStaged
  {
    && c.clone && !c.longpoll && !c.mandatory && c.tvStaged == w.tvStaged - 1
    && c.pool == w.pool && c.rolltime == w.rolltime && c.stratum == w.stratum
  }

  /** A clone of one of some items, none of which is a clone itself. */
  ghost predicate CloneFrom(v: Work, items: set<Work>)
    reads v`clone, v`longpoll, v`mandatory, v`pool, v`rolltime, v`stratum, v`tvStaged
    reads items`clone, items`pool, items`rolltime, items`stratum, items`tvStaged
  {
    exists m <- items :: !m.clone && Kin(v, m)
  }

  /** A clone of an item from outside, or of the one that is followed. */
  ghost predicate FromEither(v: Work, others: set<Work>, w: Work)
    reads v`clone, v`longpoll, v`mandatory, v`pool, v`rolltime, v`stratum, v`tvStaged
    reads others`pool, others`rolltime, others`stratum, others`tvStaged
    reads w`pool, w`rolltime, w`stratum, w`tvStaged
  {
    v.clone && exists m <- others + {w} :: Kin(v, m)
  }

  lemma EitherOf(v: Work, others: set<Work>, w: Work)
    requires Kin(v, w)
    ensures FromEither(v, others, w)
  {
    assert w in others + {w};
  }

  /** Clones of staged items that are no clones are of one of these. */
  lemma EitherFrom(w: Work, others: set<Work>, queue: seq<Work>, clones: seq<Work>, left: seq<Work>)
    requires forall v <- queue :: v in others || v == w || FromEither(v, others, w)
    requires forall v <- clones :: FromEither(v, others, w)
    requires forall v <- left :: v in clones || CloneFrom(v, set x | x in queue)
    ensures forall v <- left :: FromEither(v, others, w)
  {
    forall v <- left
      ensures FromEither(v, others, w)
    {
      if v !in clones {
        var some := set x | x in queue;
        var m :| m in some && !m.clone && Kin(v, m);
        assert m in others + {w};
      }
    }
  }

  /** work_rollable. */
  predicate Rollable(w: Work)
    reads w`clone, w`rolltime
  {
    !w.clone && w.rolltime != 0
  }

  function CountRollable(s: seq<Work>): (n: nat)
    reads s`clone, s`rolltime
    ensures n <= |s|
  {
    if |s| == 0 then 0 else CountRollable(s[..|s| - 1]) + if Rollable(s[|s| - 1]) then 1 else 0
  }

  ghost predicate Sorted(s: seq<Work>)
    reads s`tvStaged
  {
    forall i, j :: 0 <= i < j < |s| ==> s[i].tvStaged <= s[j].tvStaged
  }

  lemma {:induction false} CountConcat(a: seq<Work>, b: seq<Work>)
    ensures CountRollable(a + b) == CountRollable(a) + CountRollable(b)
  {
    if |b| == 0 {
      assert a + b == a;
    } else {
      CountConcat(a, b[..|b| - 1]);
      assert (a + b)[..|a + b| - 1] == a + b[..|b| - 1];
    }
  }

  lemma {:induction false} CountOne(w: Work)
    ensures CountRollable([w]) == if Rollable(w) then 1 else 0
  {
    assert [w][..0] == [];
  }

  lemma {:induction false} CountAround(a: seq<Work>, w: Work, b: seq<Work>)
    ensures CountRollable((a + [w]) + b) == CountRollable(a + b) + if Rollable(w) then 1 else 0
  {
    CountConcat(a + [w], b);
    CountConcat(a, [w]);
    CountConcat(a, b);
    CountOne(w);
    hide CountRollable, Rollable;
  }

  lemma {:induction false} CountSplit(s: seq<Work>, k: nat)
    requires k < |s|
    ensures CountRollable(s) == CountRollable(s[..k] + s[k + 1..]) + if Rollable(s[k]) then 1 else 0
  {
    hide CountRollable;
    CountAround(s[..k], s[k], s[k + 1..]);
    assert s == (s[..k] + [s[k]]) + s[k + 1..];
  }

  /** Taking an item out of a sorted queue: what stays is sorted, and is younger unless it was passed over. */
  lemma {:induction false} Oldest(s: seq<Work>, k: nat)
    requires Sorted(s) && k < |s| && forall i :: 0 <= i < k ==> Rollable(s[i]) && !Rollable(s[k])
    ensures Sorted(s[..k] + s[k + 1..])
    ensures forall v :: v in s[..k] + s[k + 1..] ==> s[k].tvStaged <= v.tvStaged || (Rollable(v) && !Rollable(s[k]))
  {
    hide Rollable;
    var r := s[..k] + s[k + 1..];
    forall i | 0 <= i < |r|
      ensures s[k].tvStaged <= r[i].tvStaged || (Rollable(r[i]) && !Rollable(s[k]))
    {
      assert r[i] == s[if i < k then i else i + 1];
    }
  }

  /** If every item is rollable the count is the length. */
  lemma {:induction false} AllRollable(s: seq<Work>)
    requires forall i :: 0 <= i < |s| ==> Rollable(s[i])
    ensures CountRollable(s) == |s|
  {
    if |s| == 0 {
    } else {
      AllRollable(s[..|s| - 1]);
    }
  }

  lemma {:induction false} KeepMembers(s: seq<Work>, kept: seq<bool>)
    requires |s| == |kept|
    ensures forall w :: w in Keep(s, kept) ==> w in s
  {
    if |s| == 0 {
    } else {
      var n := |s| - 1;
      KeepMembers(s[..n], kept[..n]);
      assert s == s[..n] + [s[n]];
    }
  }

  lemma {:induction false} KeepSorted(s: seq<Work>, kept: seq<bool>)
    requires |s| == |kept| && Sorted(s)
    ensures Sorted(Keep(s, kept))
  {
    if |s| == 0 {
    } else {
      var n := |s| - 1;
      KeepSorted(s[..n], kept[..n]);
      KeepMembers(s[..n], kept[..n]);
      var front := Keep(s[..n], kept[..n]);
      forall i | 0 <= i < |front|
        ensures front[i].tvStaged <= s[n].tvStaged
      {
        assert front[i] in s[..n];
        var k :| 0 <= k < |s[..n]| && s[..n][k] == front[i];
      }
      assert Keep(s, kept) == front + if kept[n] then [s[n]] else [];
      hide Keep;
    }
  }

  /** Dropping items leaves the count of rollable ones alone exactly when nothing dropped could be rolled. */
  lemma {:induction false} KeepExact(s: seq<Work>, kept: seq<bool>)
    requires |s| == |kept|
    ensures CountRollable(Keep(s, kept)) <= CountRollable(s)
    ensures CountRollable(Keep(s, kept)) == CountRollable(s) <==> NoneLost(s, kept)
  {
    hide *;
    if |s| == 0 {
      KeepNothing(s, kept);
    } else {
      var n := |s| - 1;
      KeepExact(s[..n], kept[..n]);
      KeepLast(s, kept);
      CountConcat(Keep(s[..n], kept[..n]), if kept[n] then [s[n]] else []);
      CountConcat(s[..n], [s[n]]);
      CountOne(s[n]);
      NoneLostLast(s, kept);
    }
  }

  /** Every item that could be rolled is kept. */
  predicate NoneLost(s: seq<Work>, kept: seq<bool>)
    requires |s| == |kept|
    reads s`clone, s`rolltime
  {
    forall i :: 0 <= i < |s| && Rollable(s[i]) ==> kept[i]
  }

  lemma {:induction false} NoneLostLast(s: seq<Work>, kept: seq<bool>)
    requires |s| == |kept| > 0
    ensures var n := |s| - 1; NoneLost(s, kept) <==> NoneLost(s[..n], kept[..n]) && (Rollable(s[n]) ==> kept[n])
  {
    hide Rollable;
    var n := |s| - 1;
    assert forall i :: 0 <= i < n ==> s[..n][i] == s[i] && kept[..n][i] == kept[i];
  }

  lemma {:induction false} KeepNothing(s: seq<Work>, kept: seq<bool>)
    requires |s| == |kept| == 0
    ensures CountRollable(Keep(s, kept)) == CountRollable(s) && NoneLost(s, kept)
  {
  }

  lemma {:induction false} KeepLast(s: seq<Work>, kept: seq<bool>)
    requires |s| == |kept| > 0
    ensures var n := |s| - 1;
      && Keep(s, kept) == Keep(s[..n], kept[..n]) + (if kept[n] then [s[n]] else [])
      && s == s[..n] + [s[n]] && CountRollable([]) == 0
  {
  }

  /** Where a stable sort by tv_staged puts a new item of a sorted queue: behind everything not staged later. */
  function InsertAt(s: seq<Work>, tv: int): (k: nat)
    reads s`tvStaged
    ensures k <= |s|
    ensures k > 0 ==> s[k - 1].tvStaged <= tv
    ensures forall i :: k <= i < |s| ==> s[i].tvStaged > tv
  {
    if |s| == 0 || s[|s| - 1].tvStaged <= tv then |s| else InsertAt(s[..|s| - 1], tv)
  }

  function Inserted(s: seq<Work>, w: Work): (r: seq<Work>)
    reads s`tvStaged, w`tvStaged
    ensures |r| == |s| + 1
  {
    var k := InsertAt(s, w.tvStaged);
    s[..k] + [w] + s[k..]
  }

  /** What tv_sort compares. */
  function StagingTimes(s: seq<Work>): (r: seq<int>)
    reads s`tvStaged
    ensures |r| == |s| && forall i :: 0 <= i < |r| ==> r[i] == s[i].tvStaged
  {
    if |s| == 0 then [] else StagingTimes(s[..|s| - 1]) + [s[|s| - 1].tvStaged]
  }

  /** The items that a list of places names. */
  function Arranged(s: seq<Work>, places: seq<nat>): (r: seq<Work>)
    requires forall i :: 0 <= i < |places| ==> places[i] < |s|
    ensures |r| == |places| && forall i :: 0 <= i < |r| ==> r[i] == s[places[i]]
  {
    seq(|places|, i requires 0 <= i < |places| => s[places[i]])
  }

  /** The places of an item put in at k. */
  function PlacesAt(n: nat, k: nat): (r: seq<nat>)
    requires k <= n
    ensures |r| == n + 1 && forall i :: 0 <= i <= n ==> r[i] == if i < k then i else if i == k then n else i - 1
  {
    seq(n + 1, i requires 0 <= i <= n => if i < k then i else if i == k then n else i - 1)
  }

  lemma {:induction false} StableInsertion(s: seq<Work>, w: Work)
    requires Sorted(s)
    ensures StableOrder(StagingTimes(s + [w]), PlacesAt(|s|, InsertAt(s, w.tvStaged)))
  {
    var keys, k, n := StagingTimes(s + [w]), InsertAt(s, w.tvStaged), |s|;
    var places := PlacesAt(n, k);
    hide StagingTimes, InsertAt, PlacesAt;
    forall i, j | 0 <= i < j < |places|
      ensures Before(keys, places[i], places[j])
    {
    }
    forall x: nat
      ensures x in places <==> x < n + 1
    {
      if x < n + 1 {
        assert places[if x < k then x else if x == n then k else x + 1] == x;
      }
    }
  }

  /** Any stable sort by staging time of a sorted queue with a new item at its end puts the item where it belongs. */
  lemma {:induction false} SortInserts(s: seq<Work>, w: Work, places: seq<nat>)
    requires Sorted(s) && StableOrder(StagingTimes(s + [w]), places)
    ensures (forall i :: 0 <= i < |places| ==> places[i] < |s + [w]|) && Arranged(s + [w], places) == Inserted(s, w)
  {
    StableInsertion(s, w);
    var k := InsertAt(s, w.tvStaged);
    StableUnique(StagingTimes(s + [w]), places, PlacesAt(|s|, k));
    hide StableOrder, Sorted, InsertAt;
  }

  /** The queue after a run of pushes. */
  function InsertAll(s: seq<Work>, ws: seq<Work>): (r: seq<Work>)
    reads s`tvStaged, ws`tvStaged
    ensures |r| == |s| + |ws|
    decreases |ws|
  {
    if |ws| == 0 then s else InsertAll(Inserted(s, ws[0]), ws[1..])
  }

  lemma {:induction false} InsertNone(s: seq<Work>)
    ensures forall ws: seq<Work> {:trigger InsertAll(s, ws)} :: |ws| == 0 ==> InsertAll(s, ws) == s
  {
  }

  lemma {:induction false} InsertNext(s: seq<Work>, ws: seq<Work>, w: Work)
    ensures InsertAll(s, ws + [w]) == Inserted(InsertAll(s, ws), w)
    decreases |ws|
  {
    hide Inserted;
    if |ws| == 0 {
      assert (ws + [w])[1..] == [];
    } else {
      assert (ws + [w])[1..] == ws[1..] + [w];
      InsertNext(Inserted(s, ws[0]), ws[1..], w);
    }
  }

  lemma {:induction false} InsertedMembers(s: seq<Work>, w: Work)
    ensures forall v :: v in Inserted(s, w) ==> v in s || v == w
  {
    hide InsertAt;
  }

  lemma {:induction false} InsertKeeps(s: seq<Work>, w: Work)
    requires Sorted(s)
    ensures Sorted(Inserted(s, w))
    ensures CountRollable(Inserted(s, w)) == CountRollable(s) + if Rollable(w) then 1 else 0
  {
    var k := InsertAt(s, w.tvStaged);
    InsertSorted(s, w, k);
    hide CountRollable, InsertAt;
    CountAround(s[..k], w, s[k..]);
    assert s[..k] + s[k..] == s;
  }

  lemma {:induction false} InsertSorted(s: seq<Work>, w: Work, k: nat)
    requires Sorted(s) && k <= |s| && (k > 0 ==> s[k - 1].tvStaged <= w.tvStaged)
    requires forall i :: k <= i < |s| ==> s[i].tvStaged > w.tvStaged
    ensures Sorted(s[..k] + [w] + s[k..])
  {
  }

  function Negated(bs: seq<bool>): (r: seq<bool>)
    ensures |r| == |bs| && forall i :: 0 <= i < |r| ==> r[i] == !bs[i]
  {
    seq(|bs|, i requires 0 <= i < |bs| => !bs[i])
  }

  /** The first item that can be rolled and that the clock does not keep from it. */
  function FirstReady(s: seq<Work>, ready: seq<bool>): (k: nat)
    requires |ready| == |s|
    reads s`stratum, s`pool, s`rolltime, s`clone, s`rolls
    ensures k <= |s| && (k < |s| ==> s[k].CanRoll() && ready[k])
    ensures forall i :: 0 <= i < k ==> !(s[i].CanRoll() && ready[i])
  {
    if |s| == 0 then 0
    else
      var n := |s| - 1;
      var k := FirstReady(s[..n], ready[..n]);
      assert forall i :: 0 <= i < n ==> s[..n][i] == s[i] && ready[..n][i] == ready[i];
      if k < n || (s[n].CanRoll() && ready[n]) then k else |s|
  }

  /** How often clone_work goes round, given what the clock says before each round. */
  function RoundCount(master: bool, rolls: nat, mrs: nat, ready: seq<bool>): (n: nat)
    requires |ready| >= mrs
    ensures n <= mrs
    ensures n > 0 ==> master && rolls + 2 * n - 2 < MAX_ROLLS
    decreases mrs
  {
    if mrs == 0 || !ready[0] || !master || rolls >= MAX_ROLLS then 0
    else 1 + RoundCount(master, rolls + 2, mrs - 1, ready[1..])
  }

  lemma {:induction false} RoundNext(master: bool, rolls: nat, mrs: nat, ready: seq<bool>, i: nat)
    requires i <= mrs <= |ready|
    ensures i < mrs && ready[i] && master && rolls + 2 * i < MAX_ROLLS ==>
      RoundCount(master, rolls + 2 * i, mrs - i, ready[i..])
        == 1 + RoundCount(master, rolls + 2 * (i + 1), mrs - (i + 1), ready[i + 1..])
    ensures !(i < mrs && ready[i] && master && rolls + 2 * i < MAX_ROLLS) ==>
      RoundCount(master, rolls + 2 * i, mrs - i, ready[i..]) == 0
  {
    assert i < mrs ==> ready[i..][0] == ready[i] && ready[i..][1..] == ready[i + 1..];
  }

  /**
   * What may happen to the queue in a run, with what the clock says of the items then staged. clone_available lets go
   * of the lock before it stages its clone, and clone_work takes it for every clone it stages, so others may come in
   * between.
   */
  datatype Operation =
    | Stage(item: Work)
    | Fetch
    | MakeClone
    | CloneRound(may: bool)
    | StopCloning
    | RollAvailable(ready: seq<bool>)
    | StageClone(k: nat)
    | Discard(stale: seq<bool>)
    | Clear(pool: int)

  /** What an operation other than cloning makes of the queue, and of the clones that wait to be staged. */
  ghost predicate Moves(op: Operation, before: seq<Work>, after: seq<Work>, frozen: bool,
                        clones: seq<Work>, left: seq<Work>)
    reads before`tvStaged, before`pool, clones`tvStaged
    reads if op.Stage? then {op.item} else {}
  {
    match op
    case Stage(item) => left == clones && after == if frozen then before else Inserted(before, item)
    case Fetch =>
      && left == clones && |after| == (if |before| == 0 then 0 else |before| - 1)
      && forall v <- after :: v in before
    case StageClone(k) =>
      if k < |clones| then
        left == clones[..k] + clones[k + 1..] && after == if frozen then before else Inserted(before, clones[k])
      else left == clones && after == before
    case Discard(stale) =>
      left == clones && after == if |stale| == |before| then Keep(before, Negated(stale)) else before
    case Clear(pool) =>
      && left == clones && (forall v <- after :: v in before && v.pool != pool)
      && forall v <- before :: v.pool != pool ==> v in after
    case _ => left == clones && after == before
  }

  lemma {:induction false} KeepIn(s: seq<Work>, kept: seq<bool>, pool: int)
    requires |s| == |kept| && forall i :: 0 <= i < |s| ==> kept[i] == (s[i].pool != pool)
    ensures forall v :: v in Keep(s, kept) <==> v in s && v.pool != pool
  {
    if |s| == 0 {
    } else {
      var n := |s| - 1;
      KeepIn(s[..n], kept[..n], pool);
      assert s == s[..n] + [s[n]];
    }
  }

  /** Where a call of clone_work on an item is: it has a clone that is not staged yet, after those it has made. */
  datatype Making = Idle | Cloning(clone: Work, times: seq<nat>)

  /** How far it has moved the item, from an ntime and rolls at its start, and the ntimes of its clones. */
  ghost predicate Moved(w: Work, m: Making, base: nat, rolls: nat)
    reads w`data, w`rolls, w`pool, w`rolltime, w`stratum, w`tvStaged
    reads if m.Cloning? then {m.clone} else {}
  {
    match m
    case Idle => w.Time() == base && w.rolls == rolls
    case Cloning(c, times) =>
      && Kin(c, w) && |times| > 0
      && (forall i :: 0 <= i < |times| ==> times[i] == Ntime(base, if i == 0 then 0 else 2 * i - 1))
      && w.Time() == Ntime(base, 2 * (|times| - 1)) && w.rolls == rolls + 2 * (|times| - 1)
      && (|times| > 1 ==> w.rolls - 2 < MAX_ROLLS)
  }

  lemma MovedKin(w: Work, m: Making, base: nat, rolls: nat)
    requires Moved(w, m, base, rolls) && m.Cloning?
    ensures Kin(m.clone, w)
  {
  }

  lemma MovedIdle(w: Work, base: nat, rolls: nat)
    ensures Moved(w, Idle, base, rolls) <==> w.Time() == base && w.rolls == rolls
  {
  }

  /** What one call of Rolling has made of the item and handed out. */
  ghost predicate Made(w: Work, call: Call, more: seq<nat>, base: nat, rolls: nat)
    reads w`data, w`rolls
  {
    && w.Time() == Ntime(base, Advance(call)) && w.rolls == rolls + Advance(call)
    && |more| == |Handed(call)| && (forall i :: 0 <= i < |more| ==> more[i] == Ntime(base, Handed(call)[i]))
    && (Advance(call) > 0 ==> w.rolls - 2 < MAX_ROLLS)
  }

  /** clone_work is one call of Rolling when it ends. */
  lemma MovedCall(w: Work, m: Making, base: nat, rolls: nat)
    requires Moved(w, m, base, rolls) && m.Cloning?
    ensures |m.times| > 0
    ensures Made(w, Call.CloneWork(|m.times| - 1), if |m.times| > 1 then m.times else [], base, rolls)
  {
    hide Ntime, Work.Time;
  }

  /** One more call. */
  lemma MadeTracks(w: Work, call: Call, more: seq<nat>, start: nat, rolls: nat, cs: seq<Call>, handed: seq<nat>)
    requires Made(w, call, more, Ntime(start, Offset(cs)), rolls + Offset(cs)) && Tracks(start, rolls, cs, handed)
    ensures Tracks(start, rolls, cs + [call], handed + more)
    ensures Moved(w, Idle, Ntime(start, Offset(cs + [call])), rolls + Offset(cs + [call]))
  {
    hide Ntime, Work.Time, Tracks, Offset, Handed, Advance;
    Track(start, rolls, cs, handed, call, more);
    NtimeAdd(start, Offset(cs), Advance(call));
  }

  lemma MasterRolls(w: Work)
    ensures w.Master() ==> Rollable(w)
    ensures w.Master() <==> !w.stratum && w.pool >= 0 && w.rolltime != 0 && !w.clone
  {
  }

  lemma RollableIs(w: Work)
    ensures Rollable(w) <==> !w.clone && w.rolltime != 0
  {
  }

  class Stage {
    var staged: seq<Work>
    var rollable: int
    var frozen: bool
    var totalWork: int

    constructor ()
      ensures Valid() && staged == [] && rollable == 0 && !frozen && Drift() == 0
    {
      staged, rollable, frozen, totalWork := [], 0, false, 0;
    }

    /** The queue is in staging order, and the counter is never below the rollable items actually staged. */
    ghost predicate Valid()
      reads this`staged, this`rollable, staged`clone, staged`rolltime, staged`tvStaged
    {
      Sorted(staged) && CountRollable(staged) <= rollable
    }

    /** How far the counter is above the rollable items actually staged. */
    ghost function Drift(): int
      reads this`staged, this`rollable, staged`clone, staged`rolltime
    {
      rollable - CountRollable(staged)
    }

    /** HASH_SORT of the queue by tv_sort. */
    method SortStaged() returns (ghost places: seq<nat>)
      modifies this`staged
      ensures StableOrder(StagingTimes(old(staged)), places)
      ensures (forall i :: 0 <= i < |places| ==> places[i] < |old(staged)|) && staged == Arranged(old(staged), places)
    {
      hide StagingTimes, Before;
      var order := Sort(StagingTimes(staged));
      staged, places := Arranged(staged, order), order;
    }

    /**
     * hash_push: the item goes to the end of the hash's list, which is then sorted. A frozen queue refuses it, but a
     * rollable item has been counted by then. Nothing in the program freezes this queue.
     */
    method Push(w: Work) returns (rc: bool)
      requires Valid()
      modifies this`staged, this`rollable
      ensures Valid() && rc == !frozen
      ensures staged == if frozen then old(staged) else Inserted(old(staged), w)
      ensures rollable == old(rollable) + if !w.clone && w.rolltime != 0 then 1 else 0
      ensures Drift() == old(Drift()) + if frozen && Rollable(w) then 1 else 0
    {
      hide Inserted, CountRollable, Rollable, Sorted, Arranged, StableOrder, StagingTimes;
      ghost var before := staged;
      RollableIs(w);
      if Rollable(w) {
        rollable := rollable + 1;
      }
      rc := !frozen;
      if !frozen {
        staged := staged + [w];
        ghost var places := SortStaged();
        SortInserts(before, w, places);
      }
      InsertKeeps(before, w);
    }

    /** The search of hash_pop: the first item that cannot be rolled. It cannot run off the end of the queue. */
    method FirstUnrollable() returns (k: nat)
      requires Valid() && |staged| > rollable
      ensures k < |staged| && !Rollable(staged[k]) && forall i :: 0 <= i < k ==> Rollable(staged[i])
    {
      k := 0;
      while k < |staged|
        invariant k <= |staged| && forall i :: 0 <= i < k ==> Rollable(staged[i])
      {
        if !Rollable(staged[k]) {
          return;
        }
        k := k + 1;
      }
      AllRollable(staged);
      assert false;
    }

    /** hash_pop that does not wait: nothing from an empty queue. */
    method TryPop() returns (w: Work?, ghost k: nat)
      requires Valid()
      modifies this`staged, this`rollable
      ensures Valid() && Drift() == old(Drift())
      ensures w == null <==> old(staged) == []
      ensures w == null ==> staged == old(staged) && rollable == old(rollable)
      ensures w != null ==>
        k < |old(staged)| && w == old(staged)[k] && staged == old(staged)[..k] + old(staged)[k + 1..]
        && forall v :: v in staged ==> w.tvStaged <= v.tvStaged || (Rollable(v) && !Rollable(w))
    {
      hide CountRollable, Sorted;
      if staged == [] {
        return null, 0;
      }
      w, k := Pop();
    }

    /**
     * hash_pop on a queue that is not empty: the oldest item, or, when there are more items than the counter
     * says are rollable, the oldest one that cannot be rolled.
     */
    method Pop() returns (w: Work, ghost k: nat)
      requires Valid() && staged != []
      modifies this`staged, this`rollable
      ensures Valid() && Drift() == old(Drift())
      ensures k < |old(staged)| && w == old(staged)[k] && staged == old(staged)[..k] + old(staged)[k + 1..]
      ensures rollable == old(rollable) - if Rollable(w) then 1 else 0
      ensures forall v :: v in staged ==> w.tvStaged <= v.tvStaged || (Rollable(v) && !Rollable(w))
      ensures |old(staged)| > old(rollable) ==> !Rollable(w) && forall i :: 0 <= i < k ==> Rollable(old(staged)[i])
      ensures |old(staged)| <= old(rollable) ==> k == 0
      ensures |old(staged)| > old(rollable) ==> w.clone || w.rolltime == 0
    {
      hide CountRollable, Sorted, Rollable;
      var i := 0;
      if |staged| > rollable {
        i := FirstUnrollable();
      }
      w, k := staged[i], i;
      RollableIs(w);
      CountSplit(staged, i);
      Oldest(staged, i);
      staged := staged[..i] + staged[i + 1..];
      if Rollable(w) {
        rollable := rollable - 1;
      }
    }

    /** HASH_DEL of the item a walk is at, or moving past it. */
    method KeepOrDrop(ghost before: seq<Work>, ghost kept: seq<bool>, at: nat, keep: bool) returns (next: nat)
      requires |kept| < |before| && staged == Walked(before, kept) && at == At(before, kept)
      modifies this`staged
      ensures staged == Walked(before, kept + [keep]) && next == At(before, kept + [keep])
    {
      WalkOn(before, kept, keep);
      next := at + 1;
      if !keep {
        staged := staged[..at] + staged[at + 1..];
        next := at;
      }
    }

    /** discard_stale, with what stale_work says of each item: exactly the stale ones go; the counter stays. */
    method DiscardStale(stale: seq<bool>)
      requires Valid() && |stale| == |staged|
      modifies this`staged
      ensures Valid() && staged == Keep(old(staged), Negated(stale))
      ensures Drift() >= old(Drift())
      ensures Drift() == old(Drift()) <==> forall i :: 0 <= i < |stale| && stale[i] ==> !Rollable(old(staged)[i])
    {
      hide CountRollable, Keep;
      ghost var before, kept := staged, [];
      var at, i := 0, 0;
      WalkStart(before);
      while at < |staged|
        invariant |kept| == i <= |before| && staged == Walked(before, kept) && at == At(before, kept)
        invariant forall j :: 0 <= j < i ==> kept[j] == !stale[j]
        decreases |before| - i
      {
        WalkAhead(before, kept);
        at := KeepOrDrop(before, kept, at, !stale[i]);
        kept := kept + [!stale[i]];
        i := i + 1;
      }
      WalkEnd(before, kept);
      assert kept == Negated(stale);
      KeepSorted(before, kept);
      KeepExact(before, kept);
    }

    /** clear_pool_work: exactly the items of one pool go; the counter is not corrected. */
    method ClearPoolWork(pool: int) returns (ghost kept: seq<bool>)
      requires Valid()
      modifies this`staged
      ensures Valid() && |kept| == |old(staged)| && staged == Keep(old(staged), kept)
      ensures forall i :: 0 <= i < |kept| ==> kept[i] == (old(staged)[i].pool != pool)
      ensures Drift() >= old(Drift())
      ensures Drift() == old(Drift()) <==> forall i :: 0 <= i < |kept| && Rollable(old(staged)[i]) ==> kept[i]
    {
      hide CountRollable, Keep, Walked, At, Sorted;
      ghost var before := staged;
      var at := 0;
      kept := [];
      WalkStart(before);
      while at < |staged|
        invariant |kept| <= |before| && staged == Walked(before, kept) && at == At(before, kept)
        invariant forall i :: 0 <= i < |kept| ==> kept[i] == (before[i].pool != pool)
        decreases |before| - |kept|
      {
        WalkAhead(before, kept);
        WalkOn(before, kept, true);
        var keep := staged[at].pool != pool;
        at := KeepOrDrop(before, kept, at, keep);
        kept := kept + [keep];
      }
      WalkEnd(before, kept);
      KeepSorted(before, kept);
      KeepExact(before, kept);
    }

    /** A fresh id from total_work. */
    method NextId() returns (id: int)
      modifies this`totalWork
      ensures id == old(totalWork) && totalWork == old(totalWork) + 1
    {
      id := totalWork;
      totalWork := totalWork + 1;
    }

    /** make_clone, whose copy gets an id of its own. */
    method CloneOf(w: Work) returns (c: Work)
      modifies this`totalWork
      ensures fresh(c) && Kin(c, w) && c.data == w.data && c.rolls == w.rolls && c.blkNonce == w.blkNonce
      ensures c.Time() == w.Time() && c.id == old(totalWork) && totalWork == old(totalWork) + 1
    {
      hide Work.Time;
      var id := NextId();
      c := new Work.Clone(w, id);
    }

    /** Roll, clone, roll again: what both cloning operations do to a master. The clone lies between the rolls. */
    method RollCloneRoll(w: Work) returns (c: Work)
      modifies this`totalWork, w`data, w`rolls, w`blkNonce, w`id
      ensures fresh(c) && Kin(c, w) && c.blkNonce == 0
      ensures SameOutside(c.data, old(w.data)) && SameOutside(w.data, old(w.data))
      ensures c.Time() == Ntime(old(w.Time()), 1) && c.rolls == old(w.rolls) + 1
      ensures w.Time() == Ntime(old(w.Time()), 2) && w.rolls == old(w.rolls) + 2 && w.blkNonce == 0
      ensures old(totalWork) == c.id - 1 == w.id - 2 == totalWork - 3
    {
      hide Ntime, Work.Time;
      NtimeAdd(w.Time(), 1, 1);
      var id := NextId();
      w.Roll(id);
      c := CloneOf(w);
      id := NextId();
      w.Roll(id);
      SameOutsideTwice(w.data, c.data, old(w.data));
    }

    /** The search of clone_available. */
    method FindReady(ready: seq<bool>) returns (i: nat)
      requires |ready| == |staged|
      ensures i == FirstReady(staged, ready)
    {
      hide FirstReady;
      i := 0;
      while i < |staged|
        invariant i <= FirstReady(staged, ready)
      {
        if staged[i].CanRoll() && ready[i] {
          return;
        }
        i := i + 1;
      }
    }

    /**
     * clone_available under the lock: the first staged item that may be rolled is rolled twice, and a clone is made of
     * what it was in between. ready says of each item whether the clock lets it be rolled: not stale, and should_roll.
     */
    method RollAvailable(ready: seq<bool>) returns (cloned: bool, w: Work?, c: Work?)
      requires Valid() && |ready| == |staged|
      modifies this`totalWork, staged`data, staged`rolls, staged`blkNonce, staged`id
      ensures Valid() && Drift() == old(Drift())
      ensures cloned == (rollable != 0 && old(FirstReady(staged, ready)) < |staged|)
      ensures cloned ==> w == staged[old(FirstReady(staged, ready))] && old(w.rolls) < 7000
      ensures cloned ==> !w.stratum && w.pool >= 0 && w.rolltime != 0 && !w.clone
      ensures cloned ==> c != null && fresh(c) && Kin(c, w)
      ensures cloned ==> SameOutside(c.data, old(w.data)) && SameOutside(w.data, old(w.data))
      ensures cloned ==> c.rolls == old(w.rolls) + 1 && c.blkNonce == 0 && w.blkNonce == 0
      ensures cloned ==> c.id == old(totalWork) + 1 && w.id == c.id + 1 == totalWork - 1
      ensures cloned ==> w.rolls == old(w.rolls) + Advance(Call.CloneAvailable)
      ensures cloned ==> w.Time() == Ntime(old(w.Time()), Advance(Call.CloneAvailable))
      ensures cloned ==> c.Time() == Ntime(old(w.Time()), Handed(Call.CloneAvailable)[0])
      ensures forall v :: v in staged && !(cloned && v == w) ==>
        v.data == old(v.data) && v.rolls == old(v.rolls) && v.blkNonce == old(v.blkNonce) && v.id == old(v.id)
      ensures !cloned ==> totalWork == old(totalWork) && c == null
      ensures !cloned && rollable != 0 ==> forall i :: 0 <= i < |staged| && ready[i] ==>
        var v := staged[i]; v.stratum || v.pool < 0 || v.rolltime == 0 || v.clone || v.rolls >= 7000
    {
      hide CountRollable, Sorted, Ntime, FirstReady;
      cloned, w, c := false, null, null;
      if rollable == 0 {
        return;
      }
      var i := FindReady(ready);
      if i < |staged| {
        w := staged[i];
        c := RollCloneRoll(w);
        cloned := true;
      }
    }

    /** clone_available when nobody comes in between. */
    method CloneAvailable(ready: seq<bool>) returns (cloned: bool, w: Work?, c: Work?)
      requires Valid() && |ready| == |staged|
      modifies this`staged, this`rollable, this`totalWork, staged`data, staged`rolls, staged`blkNonce, staged`id
      ensures Valid() && Drift() == old(Drift()) && rollable == old(rollable)
      ensures cloned == (old(rollable) != 0 && old(FirstReady(staged, ready)) < |old(staged)|)
      ensures cloned ==> w == old(staged)[old(FirstReady(staged, ready))] && old(w.rolls) < 7000
      ensures cloned ==> c != null && fresh(c) && Kin(c, w)
      ensures cloned ==> c.rolls == old(w.rolls) + 1 && c.blkNonce == 0 && w.blkNonce == 0
      ensures cloned ==> c.id == old(totalWork) + 1 && w.id == c.id + 1 == totalWork - 1
      ensures cloned ==> SameOutside(c.data, old(w.data)) && SameOutside(w.data, old(w.data))
      ensures cloned ==> w.rolls == old(w.rolls) + 2 && w.Time() == Ntime(old(w.Time()), 2)
      ensures cloned ==> c.Time() == Ntime(old(w.Time()), 1)
      ensures staged == if cloned && !frozen then Inserted(old(staged), c) else old(staged)
      ensures forall v :: v in old(staged) && !(cloned && v == w) ==>
        v.data == old(v.data) && v.rolls == old(v.rolls) && v.blkNonce == old(v.blkNonce) && v.id == old(v.id)
      ensures !cloned ==> totalWork == old(totalWork) && c == null
    {
      hide CountRollable, Sorted, Inserted, Ntime, FirstReady, Work.Time;
      cloned, w, c := RollAvailable(ready);
      if cloned {
        var _ := Push(c);
      }
    }

    /**
     * The clones of a run of rounds are the master's, whose header was data and which had been rolled so often at the
     * start, and lie at the offsets that Handed gives from its ntime then.
     */
    ghost predicate Chain(w: Work, data: Header, rolls: nat, clones: seq<Work>)
      reads clones, w`pool, w`rolltime, w`stratum, w`tvStaged
    {
      |clones| > 0
      && forall i :: 0 <= i < |clones| ==>
           && Kin(clones[i], w) && SameOutside(clones[i].data, data) && (i > 0 ==> clones[i].blkNonce == 0)
           && clones[i].Time() == Ntime(TimeOf(data), if i == 0 then 0 else 2 * i - 1)
           && clones[i].rolls == rolls + if i == 0 then 0 else 2 * i - 1
    }

    lemma ChainFirst(w: Work, data: Header, rolls: nat, c: Work)
      requires Kin(c, w) && c.rolls == rolls && c.data == data && c.Time() == Ntime(TimeOf(data), 0)
      ensures Chain(w, data, rolls, [c])
    {
    }

    lemma {:induction false} ChainOn(w: Work, data: Header, rolls: nat, clones: seq<Work>, next: Work)
      requires Chain(w, data, rolls, clones) && Kin(next, w) && SameOutside(next.data, data)
      requires next.Time() == Ntime(TimeOf(data), 2 * |clones| - 1) && next.rolls == rolls + 2 * |clones| - 1
      requires next.blkNonce == 0
      ensures Chain(w, data, rolls, clones + [next])
    {
      hide Ntime, Kin, SameOutside, TimeOf, Work.Time;
    }

    lemma TimeIs(w: Work)
      ensures w.Time() == TimeOf(w.data) && SameOutside(w.data, w.data)
    {
    }

    lemma ClonesOnly(w: Work, data: Header, rolls: nat, clones: seq<Work>)
      requires Chain(w, data, rolls, clones)
      ensures |clones| > 0 && forall i :: 0 <= i < |clones| ==> !Rollable(clones[i])
    {
      hide Ntime, SameOutside, Work.Time, TimeOf;
    }

    /** One round of clone_work's loop. */
    method CloneRound(w: Work, ghost clones: seq<Work>, ghost data: Header, ghost rolls: nat, last: Work)
      returns (next: Work)
      requires Valid() && w !in clones && Chain(w, data, rolls, clones) && last == clones[|clones| - 1]
      requires w.Time() == Ntime(TimeOf(data), 2 * (|clones| - 1)) && SameOutside(w.data, data)
      requires w.rolls == rolls + 2 * (|clones| - 1)
      modifies this`staged, this`rollable, this`totalWork, w`data, w`rolls, w`blkNonce, w`id
      ensures Valid() && Drift() == old(Drift()) && rollable == old(rollable)
      ensures Chain(w, data, rolls, clones + [next]) && fresh(next) && w.blkNonce == 0
      ensures totalWork == old(totalWork) + 3 == w.id + 1
      ensures w.Time() == Ntime(TimeOf(data), 2 * |clones|) && w.rolls == old(w.rolls) + 2 && SameOutside(w.data, data)
      ensures staged == if frozen then old(staged) else Inserted(old(staged), last)
    {
      hide CountRollable, Sorted, Inserted, Ntime, Work.Time, TimeOf, Kin, SameOutside, Stage.Chain, Rollable;
      ClonesOnly(w, data, rolls, clones);
      RollableIs(last);
      NtimeAdd(TimeOf(data), 2 * (|clones| - 1), 1);
      NtimeAdd(TimeOf(data), 2 * (|clones| - 1), 2);
      var _ := Push(last);
      next := RollCloneRoll(w);
      SameOutsideTwice(next.data, old(w.data), data);
      SameOutsideTwice(w.data, old(w.data), data);
      ChainOn(w, data, rolls, clones, next);
    }

    /** clone_work's loop: whether the master is still rolled depends on staleness and the clock. */
    method CloneRounds(w: Work, mrs: nat, ready: seq<bool>, first: Work)
      returns (cloned: bool, last: Work, ghost clones: seq<Work>)
      requires Valid() && w != first && Chain(w, w.data, w.rolls, [first]) && |ready| >= mrs
      modifies this`staged, this`rollable, this`totalWork, w`data, w`rolls, w`blkNonce, w`id
      ensures Valid() && Drift() == old(Drift()) && rollable == old(rollable)
      ensures |clones| == 1 + RoundCount(w.Master(), old(w.rolls), mrs, ready) && cloned == (|clones| > 1)
      ensures Chain(w, old(w.data), old(w.rolls), clones) && last == clones[|clones| - 1] && w !in clones
      ensures w.Time() == Ntime(old(w.Time()), 2 * (|clones| - 1)) && w.rolls == old(w.rolls) + 2 * (|clones| - 1)
      ensures SameOutside(w.data, old(w.data)) && (cloned ==> w.blkNonce == 0 && w.id == totalWork - 1)
      ensures !cloned ==> w.data == old(w.data) && w.blkNonce == old(w.blkNonce) && w.id == old(w.id)
      ensures totalWork == old(totalWork) + 3 * (|clones| - 1)
      ensures forall v :: v in clones ==> v == first || fresh(v)
      ensures staged == if frozen then old(staged) else InsertAll(old(staged), clones[..|clones| - 1])
    {
      hide CountRollable, Sorted, Inserted, Ntime, InsertAll, RoundCount;
      hide Stage.Chain, Work.Master, Stage.Valid, Stage.Drift, Work.Time, TimeOf, SameOutside;
      TimeIs(w);
      cloned, last, clones := false, first, [first];
      ghost var master, rolls := w.Master(), w.rolls;
      NtimeStart(w.Time());
      InsertNone(staged);
      var i := 0;
      while i < mrs && w.CanRoll() && ready[i]
        invariant Valid() && Drift() == old(Drift()) && rollable == old(rollable)
        invariant i <= mrs && |clones| == 1 + i && cloned == (i > 0) && last == clones[i] && w !in clones
        invariant Chain(w, old(w.data), old(w.rolls), clones) && SameOutside(w.data, old(w.data))
        invariant if i == 0 then w.data == old(w.data) && w.blkNonce == old(w.blkNonce) && w.id == old(w.id)
          else w.blkNonce == 0 && w.id == totalWork - 1
        invariant totalWork == old(totalWork) + 3 * i
        invariant w.Time() == Ntime(old(w.Time()), 2 * i) && w.rolls == rolls + 2 * i && w.Master() == master
        invariant RoundCount(master, rolls, mrs, ready) == i + RoundCount(master, rolls + 2 * i, mrs - i, ready[i..])
        invariant forall v :: v in clones ==> v == first || fresh(v)
        invariant staged == if frozen then old(staged) else InsertAll(old(staged), clones[..i])
      {
        RoundNext(master, rolls, mrs, ready, i);
        ghost var was := clones;
        InsertNext(old(staged), was[..i], last);
        assert was[..i] + [last] == was;
        last := CloneRound(w, clones, old(w.data), rolls, last);
        clones := clones + [last];
        cloned := true;
        i := i + 1;
        assert clones[..i] == was;
      }
      RoundNext(master, rolls, mrs, ready, i);
    }

    /**
     * clone_work: mrs is how much work is wanted beyond what is staged. Either nothing changes and the item itself
     * comes back, or its clones but the last are staged, then the item itself, and the last clone comes back.
     */
    method CloneWork(w: Work, mrs: int, ready: seq<bool>) returns (r: Work, ghost clones: seq<Work>)
      requires Valid() && |ready| >= mrs
      modifies this`staged, this`rollable, this`totalWork, w`data, w`rolls, w`blkNonce, w`id
      ensures Valid() && var n := if mrs < 1 then 0 else RoundCount(w.Master(), old(w.rolls), mrs, ready);
        |clones| == if n == 0 then 0 else n + 1
      ensures clones == [] ==> r == w && staged == old(staged) && rollable == old(rollable)
      ensures clones == [] ==>
        w.data == old(w.data) && w.rolls == old(w.rolls) && w.blkNonce == old(w.blkNonce) && w.id == old(w.id)
      ensures clones != [] ==> w.blkNonce == 0 && w.id == totalWork - 1
      ensures totalWork
           == old(totalWork) + if mrs < 1 then 0 else 1 + 3 * if clones == [] then 0 else |clones| - 1
      ensures clones != [] ==> Chain(w, old(w.data), old(w.rolls), clones) && r == clones[|clones| - 1] && w !in clones
      ensures clones != [] ==> !w.stratum && w.pool >= 0 && w.rolltime != 0 && !w.clone && old(w.rolls) < 7000
      ensures SameOutside(w.data, old(w.data))
      ensures clones != [] ==> w.Time() == Ntime(old(w.Time()), 2 * (|clones| - 1))
      ensures clones != [] ==> w.rolls == old(w.rolls) + 2 * (|clones| - 1)
      ensures forall v :: v in clones ==> fresh(v)
      ensures clones != [] && !frozen ==> staged == Inserted(InsertAll(old(staged), clones[..|clones| - 1]), w)
      ensures clones != [] && frozen ==> staged == old(staged)
      ensures Drift() == old(Drift()) + if clones != [] && frozen then 1 else 0
    {
      hide CountRollable, Sorted, Inserted, Ntime, InsertAll, RoundCount, Rollable;
      hide Stage.Valid, Stage.Drift, Stage.Chain, Work.Master, Work.Time, Kin, SameOutside, TimeOf;
      clones := [];
      if mrs < 1 {
        TimeIs(w);
        return w, [];
      }
      MasterRolls(w);
      TimeIs(w);
      var c := CloneOf(w);
      NtimeStart(w.Time());
      ChainFirst(w, w.data, w.rolls, c);
      ghost var run;
      var cloned;
      InsertNone(staged);
      cloned, r, run := CloneRounds(w, mrs, ready, c);
      if cloned {
        var _ := Push(w);
        clones := run;
      } else {
        r := w;
      }
    }

    /** The step under the lock as one call of Rolling on w, or, when it rolled another item or none, as no call. */
    method CallRollAvailable(w: Work, ready: seq<bool>, m: Making, ghost base: nat, ghost rolls: nat)
      returns (c: Work?, ghost hit: bool, ghost more: seq<nat>)
      requires Valid() && |ready| == |staged| && Moved(w, m, base, rolls) && (m.Cloning? ==> w !in staged)
      modifies this`totalWork, staged`data, staged`rolls, staged`blkNonce, staged`id
      ensures Valid() && Drift() == old(Drift()) && (c == null || fresh(c))
      ensures c != null ==> CloneFrom(c, set v | v in staged)
      ensures !hit ==> Moved(w, m, base, rolls)
      ensures hit ==> c != null && m.Idle? && Made(w, Call.CloneAvailable, more, base, rolls)
    {
      hide CountRollable, Sorted, Ntime, Work.Time, Work.CanRoll;
      var cloned, v;
      cloned, v, c := RollAvailable(ready);
      hit, more := cloned && v == w, if cloned then [c.Time()] else [];
      assert cloned ==> v in staged && Kin(c, v);
      assert !hit ==> w.Time() == old(w.Time()) && w.rolls == old(w.rolls);
    }

    /** stage_work or hash_pop, or a walk that discards: the items themselves stay as they are. */
    method OneMove(op: Operation, clones: seq<Work>) returns (left: seq<Work>)
      requires Valid()
      modifies this`staged, this`rollable
      ensures Valid() && Drift() >= old(Drift())
      ensures forall v :: v in staged ==> v in old(staged) || v in clones || (op.Stage? && v == op.item)
      ensures forall v :: v in left ==> v in clones
      ensures Moves(op, old(staged), staged, frozen, clones, left)
    {
      hide CountRollable, Sorted, Keep, Rollable, InsertAt, Inserted;
      left := clones;
      match op {
        case Stage(item) =>
          InsertedMembers(staged, item);
          var _ := Push(item);
        case Fetch =>
          ghost var k;
          var v;
          v, k := TryPop();
        case StageClone(k) =>
          if k < |clones| {
            InsertedMembers(staged, clones[k]);
            left := clones[..k] + clones[k + 1..];
            var _ := Push(clones[k]);
          }
        case Discard(stale) =>
          if |stale| == |staged| {
            KeepMembers(staged, Negated(stale));
            DiscardStale(stale);
          }
        case Clear(pool) =>
          ghost var kept := ClearPoolWork(pool);
          KeepMembers(old(staged), kept);
          KeepIn(old(staged), kept, pool);
        case _ =>
      }
    }

    /** A step of clone_work: its first clone, a round of its loop, or its end, where the item is staged again. */
    method OneCloning(w: Work, op: Operation, m: Making, ghost base: nat, ghost rolls: nat) returns (m': Making)
      requires Valid() && Moved(w, m, base, rolls) && base < NTIME_RANGE
      requires m.Cloning? ==> w !in staged && m.clone != w
      modifies this`staged, this`rollable, this`totalWork, w`data, w`rolls, w`blkNonce, w`id
      ensures Valid() && Drift() >= old(Drift())
      ensures forall v :: v in staged ==> v in old(staged) || (m.Cloning? && v == m.clone) || (m'.Idle? && v == w)
      ensures m'.Cloning? ==> w !in staged && (m' == m || fresh(m'.clone)) && Moved(w, m', base, rolls)
      ensures m'.Idle? ==> Moved(w, m, base, rolls)
      ensures m'.Cloning? <==>
        (op.MakeClone? && (m.Cloning? || w !in old(staged))) || (m.Cloning? && !op.MakeClone? && !op.StopCloning?)
      ensures m'.Cloning? && m.Cloning? && m' != m ==>
        op.CloneRound? && |m'.times| == |m.times| + 1
        && staged == if frozen then old(staged) else Inserted(old(staged), m.clone)
      ensures m.Cloning? && op.CloneRound? && op.may && old(w.CanRoll()) ==> m' != m
      ensures m'.Idle? && m.Cloning? && |m.times| > 1 && !frozen ==> staged == Inserted(old(staged), w)
      ensures m.Idle? || m' == m || (m'.Idle? && (|m.times| == 1 || frozen)) ==> staged == old(staged)
    {
      hide CountRollable, Sorted, Rollable, Inserted, Ntime, Work.Time, Work.Master;
      m' := m;
      match op {
        case MakeClone =>
          if m.Idle? && w !in staged {
            m' := FirstClone(w, base, rolls);
          }
        case CloneRound(may) =>
          if m.Cloning? && w.CanRoll() && may {
            InsertedMembers(staged, m.clone);
            m' := RoundOfClone(w, m, base, rolls);
          }
        case StopCloning =>
          if m.Cloning? {
            InsertedMembers(staged, w);
            if |m.times| > 1 {
              var _ := Push(w);
            }
            m' := Idle;
          }
        case _ =>
      }
    }

    method FirstClone(w: Work, ghost base: nat, ghost rolls: nat) returns (m': Making)
      requires Moved(w, Idle, base, rolls) && base < NTIME_RANGE
      modifies this`totalWork
      ensures m'.Cloning? && fresh(m'.clone) && Moved(w, m', base, rolls)
    {
      hide Ntime, Work.Time;
      NtimeStart(base);
      var c := CloneOf(w);
      m' := Cloning(c, [c.Time()]);
    }

    /** The clone is staged; the item is rolled, cloned again, and rolled again. */
    method RoundOfClone(w: Work, m: Making, ghost base: nat, ghost rolls: nat) returns (m': Making)
      requires Valid() && m.Cloning? && m.clone != w && Moved(w, m, base, rolls) && w.rolls < MAX_ROLLS
      modifies this`staged, this`rollable, this`totalWork, w`data, w`rolls, w`blkNonce, w`id
      ensures Valid() && Drift() >= old(Drift())
      ensures staged == if frozen then old(staged) else Inserted(old(staged), m.clone)
      ensures m'.Cloning? && fresh(m'.clone) && Moved(w, m', base, rolls) && |m'.times| == |m.times| + 1
    {
      hide CountRollable, Sorted, Rollable, Inserted, Ntime, Work.Time;
      var n := |m.times|;
      NtimeAdd(base, 2 * (n - 1), 1);
      NtimeAdd(base, 2 * (n - 1), 2);
      var _ := Push(m.clone);
      var c := RollCloneRoll(w);
      m' := Cloning(c, m.times + [c.Time()]);
    }

    static predicate Clones(op: Operation) {
      op.MakeClone? || op.CloneRound? || op.StopCloning? || op.RollAvailable?
    }

    /** Any operation, with the clones of clone_available that wait to be staged. */
    method OneCall(w: Work, op: Operation, clones: seq<Work>, m: Making, ghost base: nat, ghost rolls: nat)
      returns (left: seq<Work>, m': Making, ghost call: Option<Call>, ghost more: seq<nat>)
      requires Valid() && Moved(w, m, base, rolls) && base < NTIME_RANGE
      requires w !in clones && (m.Cloning? ==> w !in staged && m.clone != w)
      modifies this`staged, this`rollable, this`totalWork
      modifies staged`data, staged`rolls, staged`blkNonce, staged`id, w`data, w`rolls, w`blkNonce, w`id
      ensures Valid() && Drift() >= old(Drift())
      ensures forall v :: v in staged ==>
        v in old(staged) || v == w || v in clones || (m.Cloning? && v == m.clone) || (op.Stage? && v == op.item)
      ensures forall v :: v in left ==> v in clones || (fresh(v) && CloneFrom(v, set x | x in old(staged)))
      ensures m'.Cloning? ==> w !in staged && (m' == m || fresh(m'.clone))
      ensures call == None ==> Moved(w, m', base, rolls)
      ensures call.Some? ==> m'.Idle? && Made(w, call.value, more, base, rolls)
      ensures !Clones(op) && (m.Idle? || op != Stage(w)) ==> Moves(op, old(staged), staged, frozen, clones, left)
      ensures op.RollAvailable? ==> |clones| <= |left| <= |clones| + 1 && left[..|clones|] == clones
      ensures call == Some(Call.CloneAvailable) ==> |left| == |clones| + 1
    {
      hide CountRollable, Sorted, Ntime, Work.Time, Moved, Made, Moves;
      left, m', call, more := clones, m, None, [];
      var own := op.Stage? && op.item == w;
      match op {
        case MakeClone | CloneRound(_) =>
          m' := OneCloning(w, op, m, base, rolls);
        case StopCloning =>
          m' := OneCloning(w, op, m, base, rolls);
          if m.Cloning? {
            MovedCall(w, m, base, rolls);
            call := Some(Call.CloneWork(|m.times| - 1));
            more := if |m.times| > 1 then m.times else [];
          }
        case RollAvailable(ready) =>
          if |ready| == |staged| {
            ghost var hit;
            var c;
            c, hit, more := CallRollAvailable(w, ready, m, base, rolls);
            if c != null {
              left := clones + [c];
            }
            call := if hit then Some(Call.CloneAvailable) else None;
          }
        case _ =>
          if m.Idle? || !own {
            left := OneMove(op, clones);
          }
      }
    }

    /**
     * Any run of operations on the queue, with what they do to one item: the counter stays a bound and the queue in
     * order, the counter never gets closer, and what was handed out of the item is exactly what Rolling says of the
     * calls made.
     */
    method RunMaster(w: Work, others: set<Work>, ops: seq<Operation>)
      returns (ghost cs: seq<Call>, ghost handed: seq<nat>)
      requires Valid() && w.rolls <= MAX_ROLLS
      requires (forall v <- staged :: v in others) && forall op <- ops :: op.Stage? ==> op.item in others
      modifies this`staged, this`rollable, this`totalWork
      modifies others`data, others`rolls, others`blkNonce, others`id, w`data, w`rolls, w`blkNonce, w`id
      ensures Valid() && Drift() >= old(Drift()) && Tracks(old(w.Time()), old(w.rolls), cs, handed)
      ensures w.Time() == Ntime(old(w.Time()), Offset(cs)) && w.rolls == old(w.rolls) + Offset(cs) <= MAX_ROLLS + 1
      ensures old(w.rolls) == 0 ==> Distinct(handed + [w.Time()])
      ensures forall v <- staged :: v in others || v == w || (fresh(v) && FromEither(v, others, w))
    {
      hide Distinct, CountRollable, Sorted, Tracks, Ntime, Handed, Advance, Offset, Work.Time, Moved, Made, FromEither;
      var clones: seq<Work> := [];
      var m := Idle;
      cs, handed := [], [];
      NtimeStart(w.Time());
      TrackNone(w.Time(), w.rolls);
      ghost var start, rolls := w.Time(), w.rolls;
      MovedIdle(w, w.Time(), w.rolls);
      for i := 0 to |ops|
        invariant Valid() && Drift() >= old(Drift()) && Tracks(start, rolls, cs, handed)
        invariant Moved(w, m, Ntime(start, Offset(cs)), rolls + Offset(cs))
        invariant forall v :: v in staged ==> v in others || v == w || (fresh(v) && FromEither(v, others, w))
        invariant forall v :: v in clones ==> fresh(v) && FromEither(v, others, w)
        invariant m.Cloning? ==> w !in staged && fresh(m.clone) && FromEither(m.clone, others, w)
      {
        ghost var call, more;
        ghost var was, waiting, queue := m, clones, staged;
        clones, m, call, more := OneCall(w, ops[i], clones, m, Ntime(start, Offset(cs)), rolls + Offset(cs));
        EitherFrom(w, others, queue, waiting, clones);
        if m.Cloning? && m != was {
          MovedKin(w, m, Ntime(start, Offset(cs)), rolls + Offset(cs));
          EitherOf(m.clone, others, w);
        }
        if call.Some? {
          MadeTracks(w, call.value, more, start, rolls, cs, handed);
          cs, handed := cs + [call.value], handed + more;
        }
      }
      if m.Cloning? {
        MovedCall(w, m, Ntime(start, Offset(cs)), rolls + Offset(cs));
        ghost var call, more := Call.CloneWork(|m.times| - 1), if |m.times| > 1 then m.times else [];
        MadeTracks(w, call, more, start, rolls, cs, handed);
        cs, handed := cs + [call], handed + more;
      }
      MovedIdle(w, Ntime(start, Offset(cs)), rolls + Offset(cs));
      TracksBounded(start, rolls, cs, handed);
    }
  }
}
