/**
 * The cglock of miner.h: a mutex and an rwlock combined into a write-biased lock that can be upgraded and
 * downgraded. Any number of threads run it, one pthread call a step, in any interleaving.
 */
module CgLock {
  import opened Options

  /** The pthread calls the operations are made of. */
  datatype Call = MutexLock | MutexUnlock | RdLock | WrLock | RwUnlock

  datatype Op = RLock | ILock | ULock | WLock | DwLock | DwiLock | DLock | RUnlock | RuwLock | WUnlock

  /** The calls of each operation, in the order miner.h makes them. */
  function Script(op: Op): seq<Call> {
    match op
    case RLock => [MutexLock, RdLock, MutexUnlock]
    case ILock => [MutexLock]
    case ULock => [WrLock]
    case WLock => [MutexLock, WrLock]
    case DwLock => [RwUnlock, RdLock, MutexUnlock]
    case DwiLock => [RwUnlock]
    case DLock => [RdLock, MutexUnlock]
    case RUnlock => [RwUnlock]
    case RuwLock => [RwUnlock, MutexLock, WrLock]
    case WUnlock => [RwUnlock, MutexUnlock]
  }

  /** What one thread holds. */
  datatype Holding = Holding(mutex: bool, rd: bool, wr: bool)

  const FREE := Holding(false, false, false)
  const READER := Holding(false, true, false)
  const INTERMEDIATE := Holding(true, false, false)
  const WRITER := Holding(true, false, true)

  /** The variant of the lock a caller must own to use an operation, and the one it owns afterwards. */
  function Before(op: Op): Holding {
    match op
    case RLock => FREE
    case ILock => FREE
    case ULock => INTERMEDIATE
    case WLock => FREE
    case DwLock => WRITER
    case DwiLock => WRITER
    case DLock => INTERMEDIATE
    case RUnlock => READER
    case RuwLock => READER
    case WUnlock => WRITER
  }

  function After(op: Op): Holding {
    match op
    case RLock => READER
    case ILock => INTERMEDIATE
    case ULock => WRITER
    case WLock => WRITER
    case DwLock => READER
    case DwiLock => INTERMEDIATE
    case DLock => READER
    case RUnlock => FREE
    case RuwLock => WRITER
    case WUnlock => FREE
  }

  /** todo[t] is what thread t still has to call in the operation it is in; nothing between operations. */
  datatype State = State(mutex: Option<nat>, writer: Option<nat>, readers: set<nat>, todo: seq<seq<Call>>)

  function Held(s: State, t: nat): Holding {
    Holding(s.mutex == Some(t), t in s.readers, s.writer == Some(t))
  }

  predicate Init(s: State) {
    s.mutex == None && s.writer == None && s.readers == {} && forall t :: 0 <= t < |s.todo| ==> s.todo[t] == []
  }

  /** A thread between operations enters one it owns the right variant for. */
  predicate Start(s: State, t: nat, op: Op, s': State) {
    && t < |s.todo| && s.todo[t] == [] && Held(s, t) == Before(op)
    && s' == s.(todo := s.todo[t := Script(op)])
  }

  /** Whether the next call of a thread returns now. An unlock never blocks. */
  predicate Enabled(s: State, t: nat) {
    && t < |s.todo| && s.todo[t] != []
    && match s.todo[t][0]
       case MutexLock => s.mutex == None
       case RdLock => s.writer == None
       case WrLock => s.writer == None && s.readers == {}
       case MutexUnlock => true
       case RwUnlock => true
  }

  function Effect(s: State, t: nat): State
    requires Enabled(s, t)
  {
    var rest := s.(todo := s.todo[t := s.todo[t][1..]]);
    match s.todo[t][0]
    case MutexLock => rest.(mutex := Some(t))
    case MutexUnlock => rest.(mutex := None)
    case RdLock => rest.(readers := s.readers + {t})
    case WrLock => rest.(writer := Some(t))
    case RwUnlock => if s.writer == Some(t) then rest.(writer := None) else rest.(readers := s.readers - {t})
  }

  predicate Exec(s: State, t: nat, s': State) {
    Enabled(s, t) && s' == Effect(s, t)
  }

  ghost predicate Next(s: State, s': State) {
    (exists t, op :: Start(s, t, op, s')) || (exists t :: Exec(s, t, s'))
  }

  ghost predicate Run(ss: seq<State>) {
    |ss| > 0 && Init(ss[0]) && forall i :: 0 <= i < |ss| - 1 ==> Next(ss[i], ss[i + 1])
  }

  /** The holding of a thread after one more call. */
  function Gain(h: Holding, c: Call): Holding {
    match c
    case MutexLock => h.(mutex := true)
    case MutexUnlock => h.(mutex := false)
    case RdLock => h.(rd := true)
    case WrLock => h.(wr := true)
    case RwUnlock => if h.wr then h.(wr := false) else h.(rd := false)
  }

  /** The four variants a caller can own between operations. */
  predicate AtRest(h: Holding) {
    h == FREE || h == READER || h == INTERMEDIATE || h == WRITER
  }

  predicate Allowed(h: Holding, c: Call) {
    match c
    case MutexLock => h == FREE
    case MutexUnlock => h.mutex && !h.wr
    case RdLock => h == INTERMEDIATE
    case WrLock => h == INTERMEDIATE
    case RwUnlock => h == READER || h == WRITER
  }

  /**
   * The discipline the operations keep: the rwlock is only acquired by the owner of the mutex, the mutex is
   * never released over a write lock, nothing is taken twice or released unowned.
   */
  predicate Disciplined(h: Holding, todo: seq<Call>)
    decreases |todo|
  {
    if todo == [] then AtRest(h)
    else
      && Allowed(h, todo[0])
      && Disciplined(Gain(h, todo[0]), todo[1..])
  }

  function Ending(h: Holding, todo: seq<Call>): Holding
    decreases |todo|
  {
    if todo == [] then h else Ending(Gain(h, todo[0]), todo[1..])
  }

  /** Every operation of miner.h keeps the discipline and turns its entry variant into its exit variant. */
  lemma ScriptsDisciplined(op: Op)
    ensures Disciplined(Before(op), Script(op))
    ensures Ending(Before(op), Script(op)) == After(op)
  {
    match op
    case RLock | RuwLock | DwLock => Three(Before(op), Script(op)[0], Script(op)[1], Script(op)[2]);
    case WLock | DLock | WUnlock => Two(Before(op), Script(op)[0], Script(op)[1]);
    case ILock | ULock | DwiLock | RUnlock => One(Before(op), Script(op)[0]);
  }

  lemma One(h: Holding, a: Call)
    ensures Disciplined(h, [a]) == (Allowed(h, a) && AtRest(Gain(h, a)))
    ensures Ending(h, [a]) == Gain(h, a)
  {
    assert [a][1..] == [];
  }

  lemma Two(h: Holding, a: Call, b: Call)
    ensures Disciplined(h, [a, b]) == (Allowed(h, a) && Disciplined(Gain(h, a), [b]))
    ensures Disciplined(Gain(h, a), [b]) == (Allowed(Gain(h, a), b) && AtRest(Gain(Gain(h, a), b)))
    ensures Ending(h, [a, b]) == Gain(Gain(h, a), b)
  {
    assert [a, b][1..] == [b];
    One(Gain(h, a), b);
  }

  lemma Three(h: Holding, a: Call, b: Call, c: Call)
    ensures Disciplined(h, [a, b, c]) == (Allowed(h, a) && Disciplined(Gain(h, a), [b, c]))
    ensures Disciplined(Gain(h, a), [b, c]) == (Allowed(Gain(h, a), b) && Disciplined(Gain(Gain(h, a), b), [c]))
    ensures Disciplined(Gain(Gain(h, a), b), [c])
      == (Allowed(Gain(Gain(h, a), b), c) && AtRest(Gain(Gain(Gain(h, a), b), c)))
    ensures Ending(h, [a, b, c]) == Gain(Gain(Gain(h, a), b), c)
  {
    assert [a, b, c][1..] == [b, c];
    Two(Gain(h, a), b, c);
  }

  /** What holds in every reachable state. */
  ghost predicate Inv(s: State) {
    && (forall t :: 0 <= t < |s.todo| ==> Disciplined(Held(s, t), s.todo[t]))
    && (s.writer.Some? ==> s.readers == {} && s.writer == s.mutex)
    && (s.mutex.Some? ==> s.mutex.value < |s.todo|)
    && (forall t :: t in s.readers ==> t < |s.todo|)
  }

  lemma InitInv(s: State)
    requires Init(s)
    ensures Inv(s)
  {
  }

  lemma StartInv(s: State, t: nat, op: Op, s': State)
    requires Inv(s) && Start(s, t, op, s')
    ensures Inv(s')
  {
    ScriptsDisciplined(op);
    forall u | 0 <= u < |s'.todo|
      ensures Disciplined(Held(s', u), s'.todo[u])
    {
      assert Held(s', u) == Held(s, u);
    }
  }

  /** One call changes what its own thread holds, as the discipline says, and nobody else's holding. */
  lemma ExecHeld(s: State, t: nat, s': State)
    requires Inv(s) && Exec(s, t, s')
    ensures Held(s', t) == Gain(Held(s, t), s.todo[t][0])
    ensures forall u :: 0 <= u < |s.todo| && u != t ==> Held(s', u) == Held(s, u)
  {
    assert Disciplined(Held(s, t), s.todo[t]);
  }

  lemma ExecInv(s: State, t: nat, s': State)
    requires Inv(s) && Exec(s, t, s')
    ensures Inv(s')
  {
    ExecHeld(s, t, s');
    assert Disciplined(Held(s, t), s.todo[t]);
    forall u | 0 <= u < |s'.todo|
      ensures Disciplined(Held(s', u), s'.todo[u])
    {
      if u != t {
        assert s'.todo[u] == s.todo[u];
      }
    }
  }

  lemma NextInv(s: State, s': State)
    requires Inv(s) && Next(s, s')
    ensures Inv(s')
  {
    if t, op :| Start(s, t, op, s') {
      StartInv(s, t, op, s');
    } else {
      var t :| Exec(s, t, s');
      ExecInv(s, t, s');
    }
  }

  lemma {:induction false} RunInv(ss: seq<State>, i: nat)
    requires Run(ss) && i < |ss|
    ensures Inv(ss[i])
  {
    if i == 0 {
      InitInv(ss[0]);
    } else {
      RunInv(ss, i - 1);
      NextInv(ss[i - 1], ss[i]);
    }
  }

  predicate Waiting(s: State, t: nat, c: Call) {
    t < |s.todo| && s.todo[t] != [] && s.todo[t][0] == c
  }

  /** A writer is alone, and whoever holds or waits for the write lock owns the mutex. */
  lemma Exclusion(ss: seq<State>, i: nat, t: nat, u: nat)
    requires Run(ss) && i < |ss| && t < |ss[i].todo| && u < |ss[i].todo| && t != u
    ensures Held(ss[i], t).wr ==> Held(ss[i], t) == WRITER && Held(ss[i], u) == FREE
    ensures Waiting(ss[i], t, WrLock) ==> Held(ss[i], t) == INTERMEDIATE && !Held(ss[i], u).mutex && !Held(ss[i], u).wr
  {
    RunInv(ss, i);
    assert Disciplined(Held(ss[i], t), ss[i].todo[t]);
    assert Disciplined(Held(ss[i], u), ss[i].todo[u]);
    DisciplinedShape(Held(ss[i], t), ss[i].todo[t]);
  }

  lemma DisciplinedShape(h: Holding, todo: seq<Call>)
    requires Disciplined(h, todo)
    ensures AtRest(h) || (h == Holding(true, true, false) && todo != [] && todo[0] == MutexUnlock)
  {
  }

  /**
   * A thread about to call rd_lock is never made to wait: there is no writer, and, should the rwlock prefer
   * writers, no other thread waiting to write either.
   */
  lemma ReadNeverBlocks(ss: seq<State>, i: nat, t: nat)
    requires Run(ss) && i < |ss| && Waiting(ss[i], t, RdLock)
    ensures Enabled(ss[i], t)
    ensures forall u :: 0 <= u < |ss[i].todo| ==> !Waiting(ss[i], u, WrLock)
  {
    RunInv(ss, i);
    var s := ss[i];
    assert Disciplined(Held(s, t), s.todo[t]);
    forall u | 0 <= u < |s.todo|
      ensures !Waiting(s, u, WrLock)
    {
      assert Disciplined(Held(s, u), s.todo[u]);
    }
  }

  /** The write bias: while some thread waits to write, the set of readers never grows. */
  lemma ReadersShrink(s: State, s': State, t: nat)
    requires Inv(s) && Next(s, s') && Waiting(s, t, WrLock)
    ensures s'.readers <= s.readers
  {
    assert Disciplined(Held(s, t), s.todo[t]);
    if u: nat :| Exec(s, u, s') {
      assert Disciplined(Held(s, u), s.todo[u]);
    }
  }

  lemma {:induction false} ReadersShrinkAlong(ss: seq<State>, i: nat, j: nat, t: nat)
    requires Run(ss) && i <= j < |ss|
    requires forall k :: i <= k < j ==> Waiting(ss[k], t, WrLock)
    ensures ss[j].readers <= ss[i].readers
    decreases j
  {
    hide Inv, Waiting;
    if i == j {
    } else {
      ReadersShrinkAlong(ss, i, j - 1, t);
      RunInv(ss, j - 1);
      ReadersShrink(ss[j - 1], ss[j], t);
    }
  }

  /** The thread holds the mutex or a read lock now and after each remaining call of its operation. */
  predicate Covered(h: Holding, todo: seq<Call>)
    decreases |todo|
  {
    (h.mutex || h.rd) && (todo == [] || Covered(Gain(h, todo[0]), todo[1..]))
  }

  /** Upgrading, downgrading and demoting never let go; cg_ruwlock and the unlocks do. */
  lemma CoveredOps(op: Op)
    ensures Covered(Before(op), Script(op)) <==> op in {ULock, DwLock, DwiLock, DLock}
  {
    var sc := Script(op);
    if |sc| == 1 {
      assert sc[1..] == [];
    } else if |sc| == 2 {
      CoveredTwo(Before(op), sc[0], sc[1]);
    } else {
      CoveredThree(Before(op), sc[0], sc[1], sc[2]);
    }
  }

  predicate Holds(h: Holding) { h.mutex || h.rd }

  lemma CoveredTwo(h: Holding, a: Call, b: Call)
    ensures Covered(h, [a, b]) == (Holds(h) && Holds(Gain(h, a)) && Holds(Gain(Gain(h, a), b)))
  {
    assert [a, b][1..] == [b] && [b][1..] == [];
    assert Covered(Gain(h, a), [b]) == (Holds(Gain(h, a)) && Holds(Gain(Gain(h, a), b)));
  }

  lemma CoveredThree(h: Holding, a: Call, b: Call, c: Call)
    ensures Covered(h, [a, b, c])
         == (Holds(h) && Holds(Gain(h, a)) && Holds(Gain(Gain(h, a), b)) && Holds(Gain(Gain(Gain(h, a), b), c)))
  {
    assert [a, b, c][1..] == [b, c];
    CoveredTwo(Gain(h, a), b, c);
  }

  predicate Starts(s: State, t: nat, s': State) {
    t < |s.todo| && t < |s'.todo| && s.todo[t] == [] && s'.todo[t] != []
  }

  lemma CoveredStep(s: State, s': State, t: nat)
    requires Inv(s) && Next(s, s') && t < |s.todo| && Covered(Held(s, t), s.todo[t]) && !Starts(s, t, s')
    ensures t < |s'.todo| && Covered(Held(s', t), s'.todo[t])
  {
    if u, op :| Start(s, u, op, s') {
      assert Script(op) != [];
      assert Held(s', t) == Held(s, t);
    } else {
      var u :| Exec(s, u, s');
      ExecHeld(s, u, s');
    }
  }

  lemma {:induction false} CoveredAlong(ss: seq<State>, i: nat, k: nat, t: nat)
    requires Run(ss) && i <= k < |ss| && t < |ss[i].todo| && Covered(Held(ss[i], t), ss[i].todo[t])
    requires forall m :: i <= m < k ==> !Starts(ss[m], t, ss[m + 1])
    ensures t < |ss[k].todo| && Covered(Held(ss[k], t), ss[k].todo[t])
    decreases k
  {
    hide *;
    if i == k {
    } else {
      CoveredAlong(ss, i, k - 1, t);
      RunInv(ss, k - 1);
      RunNext(ss, k - 1);
      CoveredStep(ss[k - 1], ss[k], t);
    }
  }

  lemma RunNext(ss: seq<State>, i: nat)
    requires Run(ss) && i < |ss| - 1
    ensures Next(ss[i], ss[i + 1])
  {
    hide Next, Init;
  }

  /**
   * From the start of cg_ulock, cg_dwlock, cg_dwilock or cg_dlock until the caller's next operation, no other
   * thread is a writer at any point: the change of variant has no gap.
   */
  lemma NoGap(ss: seq<State>, i: nat, k: nat, t: nat, op: Op)
    requires Run(ss) && i + 1 <= k < |ss| && Start(ss[i], t, op, ss[i + 1])
    requires op in {ULock, DwLock, DwiLock, DLock}
    requires forall m :: i + 1 <= m < k ==> !Starts(ss[m], t, ss[m + 1])
    ensures ss[k].writer.Some? ==> ss[k].writer == Some(t)
  {
    CoveredOps(op);
    assert Held(ss[i + 1], t) == Before(op) && ss[i + 1].todo[t] == Script(op);
    CoveredAlong(ss, i + 1, k, t);
    RunInv(ss, k);
  }

  /** The run in which cg_ruwlock loses its data: thread 0 gives up its read lock and thread 1 writes first. */
  function GapRun(): seq<State> {
    [ State(None, None, {}, [[], []]),
      State(None, None, {}, [[MutexLock, RdLock, MutexUnlock], []]),
      State(Some(0), None, {}, [[RdLock, MutexUnlock], []]),
      State(Some(0), None, {0}, [[MutexUnlock], []]),
      State(None, None, {0}, [[], []]),
      State(None, None, {0}, [[], [MutexLock, WrLock]]),
      State(Some(1), None, {0}, [[], [WrLock]]),
      State(Some(1), None, {0}, [[RwUnlock, MutexLock, WrLock], [WrLock]]),
      State(Some(1), None, {}, [[MutexLock, WrLock], [WrLock]]),
      State(Some(1), Some(1), {}, [[MutexLock, WrLock], []]) ]
  }

  lemma GapStep(ss: seq<State>, i: nat, t: nat, c: Call, rest: seq<Call>)
    requires i + 1 < |ss| && t < |ss[i].todo| && ss[i].todo[t] == [c] + rest && Enabled(ss[i], t)
    requires ss[i + 1].todo == ss[i].todo[t := rest]
    requires ss[i + 1].(todo := []) == Effect(ss[i], t).(todo := [])
    ensures Next(ss[i], ss[i + 1])
  {
    assert ss[i].todo[t][1..] == rest;
    assert Exec(ss[i], t, ss[i + 1]);
  }

  lemma GapFirstHalf(ss: seq<State>)
    requires ss == GapRun()
    ensures Next(ss[0], ss[1]) && Next(ss[1], ss[2]) && Next(ss[2], ss[3]) && Next(ss[3], ss[4]) && Next(ss[4], ss[5])
  {
    assert Start(ss[0], 0, RLock, ss[1]);
    GapStep(ss, 1, 0, MutexLock, [RdLock, MutexUnlock]);
    GapStep(ss, 2, 0, RdLock, [MutexUnlock]);
    GapStep(ss, 3, 0, MutexUnlock, []);
    assert Start(ss[4], 1, WLock, ss[5]);
  }

  lemma GapSecondHalf(ss: seq<State>)
    requires ss == GapRun()
    ensures Next(ss[5], ss[6]) && Next(ss[6], ss[7]) && Next(ss[7], ss[8]) && Next(ss[8], ss[9])
    ensures Start(ss[6], 0, RuwLock, ss[7])
  {
    GapStep(ss, 5, 1, MutexLock, [WrLock]);
    assert Start(ss[6], 0, RuwLock, ss[7]);
    GapStep(ss, 7, 0, RwUnlock, [MutexLock, WrLock]);
    GapStep(ss, 8, 1, WrLock, []);
  }

  lemma RuwLockGap()
    ensures var ss := GapRun();
      && Run(ss) && |ss| == 10 && Start(ss[6], 0, RuwLock, ss[7])
      && ss[8].todo[0] != [] && ss[9].todo[0] != [] && ss[9].writer == Some(1)
  {
    var ss := GapRun();
    hide Next, Run;
    GapFirstHalf(ss);
    GapSecondHalf(ss);
    TenSteps(ss);
  }

  lemma TenSteps(ss: seq<State>)
    requires |ss| == 10 && Init(ss[0])
    requires Next(ss[0], ss[1]) && Next(ss[1], ss[2]) && Next(ss[2], ss[3]) && Next(ss[3], ss[4]) && Next(ss[4], ss[5])
    requires Next(ss[5], ss[6]) && Next(ss[6], ss[7]) && Next(ss[7], ss[8]) && Next(ss[8], ss[9])
    ensures Run(ss)
  {
    hide Next;
    forall i | 0 <= i < 9
      ensures Next(ss[i], ss[i + 1])
    {
      assert i == 0 || i == 1 || i == 2 || i == 3 || i == 4 || i == 5 || i == 6 || i == 7 || i == 8;
    }
  }

  /** The calls never deadlock on each other: when nothing can move, some thread is resting on a lock it owns. */
  lemma Progress(ss: seq<State>, i: nat, t: nat)
    requires Run(ss) && i < |ss| && t < |ss[i].todo| && ss[i].todo[t] != []
    ensures (exists u :: Enabled(ss[i], u))
         || (exists u :: 0 <= u < |ss[i].todo| && ss[i].todo[u] == [] && Held(ss[i], u) != FREE)
  {
    RunInv(ss, i);
    var s := ss[i];
    if !Enabled(s, t) {
      assert Disciplined(Held(s, t), s.todo[t]);
      if s.todo[t][0] == MutexLock {
        OwnerMoves(s, s.mutex.value);
      } else {
        OwnerMoves(s, t);
      }
    }
  }

  lemma OwnerMoves(s: State, v: nat)
    requires Inv(s) && s.mutex == Some(v)
    ensures (exists u :: Enabled(s, u)) || (exists u :: 0 <= u < |s.todo| && s.todo[u] == [] && Held(s, u) != FREE)
  {
    assert Disciplined(Held(s, v), s.todo[v]);
    if s.todo[v] != [] && !Enabled(s, v) {
      var r :| r in s.readers;
      assert Disciplined(Held(s, r), s.todo[r]);
      assert s.todo[r] == [] || Enabled(s, r);
    } else if s.todo[v] == [] {
      assert Held(s, v) != FREE;
    }
  }
}
