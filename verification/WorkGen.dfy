/**
 * gen_stratum_work, or gen_gbt_work, run by any number of threads on one pool, over the cglock of miner.h. A thread
 * stamps its nonce2 into the shared coinbase a byte at a time under the write lock, downgrades, and reads the
 * coinbase back a byte at a time under the read lock; every step of every thread may interleave with every other.
 */
module WorkGen {
  import opened Words
  import opened ByteValues
  import opened Nonce2
  import opened Merkle
  import L = CgLock

  /** Where a thread is in generating work; a bystander uses the lock without writing the coinbase. */
  datatype Phase =
    | Idle | Locking | Load | Copy(i: nat) | Take | Bump | Downgrade | Downgrading | Hashing | Unlocking
    | Bystander

  datatype Worker = Worker(phase: Phase, nonce2le: nat, nonce2: nat, read: seq<byte>)

  /** A finished work item: its nonce2 and the Merkle root it was given. */
  datatype Item = Item(nonce2: nat, root: Hash)

  datatype State = State(lock: L.State, coinbase: seq<byte>, nonce2: nat, workers: seq<Worker>, items: seq<Item>)

  /** What a pool hashes a coinbase with: the branch of a Stratum notify, or the transactions of a block template. */
  datatype Siblings = StratumBranch(branch: seq<Hash>) | TemplateTransactions(txns: seq<Hash>)

  /** The parts of the pool a notify or a template sets, fixed for the run. */
  datatype Job = Job(template: seq<byte>, offset: nat, n2size: nat, siblings: Siblings) {
    predicate Valid() { offset + n2size <= |template| && n2size <= 8 }
  }

  /** The coinbase carrying a nonce2. */
  function Stamped(j: Job, v: nat): (c: seq<byte>)
    requires j.Valid()
    ensures |c| == |j.template|
  {
    j.template[..j.offset] + LowBytes(v, j.n2size) + j.template[j.offset + j.n2size..]
  }

  /** The Merkle root of a coinbase in the job. */
  function RootOf(j: Job, coinbase: seq<byte>): Hash {
    match j.siblings
    case StratumBranch(branch) => Fold(GenHash(coinbase), branch)
    case TemplateTransactions(txns) => Root([GenHash(coinbase)] + txns)
  }

  predicate Init(j: Job, s: State) {
    && j.Valid() && L.Init(s.lock) && |s.lock.todo| == |s.workers| && s.items == [] && s.coinbase == j.template
    && forall t :: 0 <= t < |s.workers| ==> s.workers[t].phase in {Idle, Bystander}
  }

  predicate SetWorker(s: State, t: nat, w: Worker, s': State) {
    t < |s.workers| && s'.workers == s.workers[t := w] && s'.items == s.items
  }

  predicate SameData(s: State, s': State) {
    s'.coinbase == s.coinbase && s'.nonce2 == s.nonce2
  }

  /** A lock call of the operation in progress; the phase moves on when the operation is over. */
  predicate LockStep(s: State, t: nat, next: Phase, s': State) {
    && t < |s.workers| && L.Exec(s.lock, t, s'.lock) && SameData(s, s')
    && SetWorker(s, t, s.workers[t].(phase := if s'.lock.todo[t] == [] then next else s.workers[t].phase), s')
  }

  predicate EnterStep(s: State, t: nat, op: L.Op, w: Worker, s': State) {
    L.Start(s.lock, t, op, s'.lock) && SameData(s, s') && t < |s.workers| && s'.workers == s.workers[t := w]
  }

  /** One step of thread t. */
  ghost predicate Step(j: Job, s: State, t: nat, s': State)
    requires j.Valid()
  {
    t < |s.workers| && var w := s.workers[t];
    match w.phase
    case Idle => EnterStep(s, t, L.WLock, w.(phase := Locking), s') && s'.items == s.items
    case Locking => LockStep(s, t, Load, s')
    case Load =>
      s'.lock == s.lock && SameData(s, s') && SetWorker(s, t, w.(phase := Copy(0), nonce2le := s.nonce2), s')
    case Copy(i) =>
      && s'.lock == s.lock && s'.nonce2 == s.nonce2
      && if i < j.n2size && |s.coinbase| == |j.template| then
           s'.coinbase == s.coinbase[j.offset + i := LowBytes(w.nonce2le, j.n2size)[i]]
           && SetWorker(s, t, w.(phase := Copy(i + 1)), s')
         else s'.coinbase == s.coinbase && SetWorker(s, t, w.(phase := Take), s')
    case Take =>
      s'.lock == s.lock && SameData(s, s') && SetWorker(s, t, w.(phase := Bump, nonce2 := s.nonce2), s')
    case Bump =>
      && s'.lock == s.lock && s'.coinbase == s.coinbase && s'.nonce2 == w.nonce2 + 1
      && SetWorker(s, t, w.(phase := Downgrade), s')
    case Downgrade => EnterStep(s, t, L.DwLock, w.(phase := Downgrading, read := []), s') && s'.items == s.items
    case Downgrading => LockStep(s, t, Hashing, s')
    case Hashing =>
      if |w.read| < |s.coinbase| then
        s'.lock == s.lock && SameData(s, s') && SetWorker(s, t, w.(read := w.read + [s.coinbase[|w.read|]]), s')
      else
        EnterStep(s, t, L.RUnlock, w.(phase := Unlocking), s')
        && s'.items == s.items + [Item(w.nonce2, RootOf(j, w.read))]
    case Unlocking => LockStep(s, t, Idle, s')
    case Bystander =>
      && SameData(s, s') && SetWorker(s, t, w, s')
      && (L.Exec(s.lock, t, s'.lock) || exists op :: L.Start(s.lock, t, op, s'.lock))
  }

  ghost predicate Next(j: Job, s: State, s': State)
    requires j.Valid()
  {
    exists t :: Step(j, s, t, s')
  }

  ghost predicate Run(j: Job, ss: seq<State>) {
    && |ss| > 0 && Init(j, ss[0])
    && forall i :: 0 <= i < |ss| - 1 ==> Next(j, ss[i], ss[i + 1])
  }

  /** What each phase implies about the lock. */
  predicate LockOk(p: Phase, h: L.Holding, todo: seq<L.Call>) {
    match p
    case Idle => h == L.FREE && todo == []
    case Locking => todo != [] && L.Ending(h, todo) == L.WRITER
    case Downgrading => todo != [] && L.Covered(h, todo) && L.Ending(h, todo) == L.READER
    case Hashing => h == L.READER && todo == []
    case Unlocking => todo != [] && L.Ending(h, todo) == L.FREE
    case Bystander => true
    case Load | Copy(_) | Take | Bump | Downgrade => h == L.WRITER && todo == []
  }

  /** A thread whose nonce2 is taken and whose item is not finished yet. */
  predicate Carries(p: Phase) {
    p == Downgrade || p == Downgrading || p == Hashing
  }

  /** What each phase implies about the pool. */
  predicate DataOk(j: Job, w: Worker, coinbase: seq<byte>, nonce2: nat)
    requires j.Valid() && |coinbase| == |j.template|
  {
    match w.phase
    case Copy(i) =>
      && i <= j.n2size && w.nonce2le == nonce2
      && coinbase[j.offset..j.offset + i] == LowBytes(w.nonce2le, j.n2size)[..i]
    case Take => w.nonce2le == nonce2 && coinbase == Stamped(j, w.nonce2le)
    case Bump => w.nonce2 == nonce2 && coinbase == Stamped(j, w.nonce2)
    case Downgrade | Downgrading | Hashing =>
      && w.nonce2 < nonce2 && coinbase == Stamped(j, w.nonce2)
      && (w.phase == Downgrading ==> w.read == [])
      && (w.phase == Hashing ==> |w.read| <= |coinbase| && w.read == coinbase[..|w.read|])
    case Idle | Locking | Load | Unlocking | Bystander => true
  }

  /** Outside the nonce2 field the coinbase never changes. */
  predicate Framed(j: Job, coinbase: seq<byte>)
    requires j.Valid()
  {
    && |coinbase| == |j.template|
    && coinbase[..j.offset] == j.template[..j.offset]
    && coinbase[j.offset + j.n2size..] == j.template[j.offset + j.n2size..]
  }

  ghost predicate Workers(j: Job, s: State)
    requires j.Valid() && |s.coinbase| == |j.template|
  {
    && |s.workers| == |s.lock.todo|
    && (forall t :: 0 <= t < |s.workers| ==> LockOk(s.workers[t].phase, L.Held(s.lock, t), s.lock.todo[t]))
    && (forall t :: 0 <= t < |s.workers| ==> DataOk(j, s.workers[t], s.coinbase, s.nonce2))
  }

  ghost predicate RootsOk(j: Job, items: seq<Item>, nonce2: nat)
    requires j.Valid()
  {
    forall i :: 0 <= i < |items| ==> items[i].nonce2 < nonce2 && items[i].root == RootOf(j, Stamped(j, items[i].nonce2))
  }

  ghost predicate DistinctNonces(items: seq<Item>) {
    forall i, k :: 0 <= i < k < |items| ==> items[i].nonce2 != items[k].nonce2
  }

  /** A nonce2 in flight is not one of a finished item. */
  ghost predicate Apart(workers: seq<Worker>, items: seq<Item>) {
    forall t, i :: 0 <= t < |workers| && 0 <= i < |items| && Carries(workers[t].phase) ==>
      items[i].nonce2 != workers[t].nonce2
  }

  ghost predicate OneCarrier(workers: seq<Worker>) {
    forall t, u :: 0 <= t < |workers| && 0 <= u < |workers| && t != u ==>
      !(Carries(workers[t].phase) && Carries(workers[u].phase))
  }

  /** The items finished so far, and the one that may be in flight. */
  ghost predicate Items(j: Job, s: State)
    requires j.Valid()
  {
    RootsOk(j, s.items, s.nonce2) && DistinctNonces(s.items) && Apart(s.workers, s.items) && OneCarrier(s.workers)
  }

  ghost predicate Inv(j: Job, s: State)
    requires j.Valid()
  {
    L.Inv(s.lock) && Framed(j, s.coinbase) && Workers(j, s) && Items(j, s)
  }

  lemma InitInv(j: Job, s: State)
    requires j.Valid() && Init(j, s)
    ensures Inv(j, s)
  {
    L.InitInv(s.lock);
  }

  /** A step is a step of the lock or leaves it alone, and touches one worker. */
  lemma StepLock(j: Job, s: State, t: nat, s': State)
    requires j.Valid() && Inv(j, s) && Step(j, s, t, s')
    ensures L.Inv(s'.lock) && |s'.lock.todo| == |s.lock.todo| && |s'.workers| == |s.workers|
    ensures forall u :: 0 <= u < |s.workers| && u != t ==>
      s'.workers[u] == s.workers[u] && L.Held(s'.lock, u) == L.Held(s.lock, u) && s'.lock.todo[u] == s.lock.todo[u]
  {
    hide L.Inv, Framed, Items, RootOf, LockOk, DataOk;
    if s'.lock == s.lock {
    } else if L.Exec(s.lock, t, s'.lock) {
      L.ExecInv(s.lock, t, s'.lock);
      L.ExecHeld(s.lock, t, s'.lock);
    } else {
      var op :| L.Start(s.lock, t, op, s'.lock);
      L.StartInv(s.lock, t, op, s'.lock);
    }
  }

  /** The lock side of the stepping thread's own phase. */
  lemma OwnLock(j: Job, s: State, t: nat, s': State)
    requires j.Valid() && Inv(j, s) && Step(j, s, t, s')
    ensures t < |s'.workers| && t < |s'.lock.todo|
    ensures LockOk(s'.workers[t].phase, L.Held(s'.lock, t), s'.lock.todo[t])
  {
    hide Framed, Items, RootOf, DataOk, Stamped, L.Inv;
    StepLock(j, s, t, s');
    if s.lock != s'.lock && s.workers[t].phase != Bystander {
      var h, todo := L.Held(s.lock, t), s.lock.todo[t];
      if todo != [] {
        OwnExec(s.workers[t].phase, h, todo);
        L.ExecHeld(s.lock, t, s'.lock);
      } else {
        L.ScriptsDisciplined(L.WLock);
        L.ScriptsDisciplined(L.DwLock);
        L.ScriptsDisciplined(L.RUnlock);
        L.CoveredOps(L.DwLock);
      }
    }
  }

  lemma OwnExec(p: Phase, h: L.Holding, todo: seq<L.Call>)
    requires todo != [] && LockOk(p, h, todo) && p in {Locking, Downgrading, Unlocking}
    ensures var h', todo' := L.Gain(h, todo[0]), todo[1..];
      LockOk(
        if todo' != [] then p else if p == Locking then Load else if p == Downgrading then Hashing else Idle, h', todo')
  {
    var h', todo' := L.Gain(h, todo[0]), todo[1..];
    assert L.Ending(h, todo) == L.Ending(h', todo');
    if todo' == [] {
      assert L.Ending(h', todo') == h';
    }
  }

  /** Every thread but the stepping one keeps what its phase promises: it holds no lock if the pool changed. */
  lemma OthersKeep(j: Job, s: State, t: nat, s': State, u: nat)
    requires j.Valid() && Inv(j, s) && Step(j, s, t, s') && u < |s.workers| && u != t
    requires Framed(j, s'.coinbase)
    ensures u < |s'.workers| && u < |s'.lock.todo| && |s.lock.todo| == |s.workers|
    ensures LockOk(s'.workers[u].phase, L.Held(s'.lock, u), s'.lock.todo[u])
    ensures DataOk(j, s'.workers[u], s'.coinbase, s'.nonce2)
  {
    hide Items, RootOf, Stamped;
    StepLock(j, s, t, s');
    assert LockOk(s.workers[t].phase, L.Held(s.lock, t), s.lock.todo[t]);
    assert LockOk(s.workers[u].phase, L.Held(s.lock, u), s.lock.todo[u]);
    assert DataOk(j, s.workers[u], s.coinbase, s.nonce2);
    if !SameData(s, s') {
      assert L.Held(s.lock, t) == L.WRITER;
      assert L.Held(s.lock, u) == L.FREE;
      FreePhases(s.workers[u].phase, s.lock.todo[u]);
    }
  }

  lemma FreePhases(p: Phase, todo: seq<L.Call>)
    requires LockOk(p, L.FREE, todo)
    ensures p in {Idle, Locking, Unlocking, Bystander}
  {
  }

  /** One more byte of nonce2 in place. */
  lemma CopyByte(j: Job, c: seq<byte>, v: nat, i: nat)
    requires j.Valid() && Framed(j, c) && i < j.n2size
    requires c[j.offset..j.offset + i] == LowBytes(v, j.n2size)[..i]
    ensures var c' := c[j.offset + i := LowBytes(v, j.n2size)[i]];
      Framed(j, c') && c'[j.offset..j.offset + i + 1] == LowBytes(v, j.n2size)[..i + 1]
  {
    hide LowBytes;
    var c' := c[j.offset + i := LowBytes(v, j.n2size)[i]];
    assert c'[j.offset..j.offset + i] == c[j.offset..j.offset + i];
    assert c'[..j.offset] == c[..j.offset];
    assert c'[j.offset + j.n2size..] == c[j.offset + j.n2size..];
  }

  lemma FullyCopied(j: Job, c: seq<byte>, v: nat)
    requires j.Valid() && Framed(j, c)
    requires c[j.offset..j.offset + j.n2size] == LowBytes(v, j.n2size)[..j.n2size]
    ensures c == Stamped(j, v)
  {
    hide LowBytes;
    assert c == c[..j.offset] + c[j.offset..j.offset + j.n2size] + c[j.offset + j.n2size..];
  }

  /** The pool side of the stepping thread's own phase. */
  lemma OwnData(j: Job, s: State, t: nat, s': State)
    requires j.Valid() && Inv(j, s) && Step(j, s, t, s')
    ensures Framed(j, s'.coinbase) && |s'.coinbase| == |j.template| && t < |s'.workers|
    ensures DataOk(j, s'.workers[t], s'.coinbase, s'.nonce2)
  {
    hide L.Inv, L.Exec, L.Start, Items, RootOf, Stamped, LowBytes, LockOk;
    var w := s.workers[t];
    assert DataOk(j, w, s.coinbase, s.nonce2);
    if w.phase.Copy? {
      if w.phase.i < j.n2size {
        CopyByte(j, s.coinbase, w.nonce2le, w.phase.i);
      } else {
        FullyCopied(j, s.coinbase, w.nonce2le);
      }
    }
  }

  /** While a thread holds the write lock nobody else has a nonce2 in flight. */
  lemma WriterAlone(j: Job, s: State, t: nat)
    requires j.Valid() && Inv(j, s) && t < |s.workers| && L.Held(s.lock, t) == L.WRITER
    ensures forall u :: 0 <= u < |s.workers| && u != t ==> !Carries(s.workers[u].phase)
  {
    forall u | 0 <= u < |s.workers| && u != t
      ensures !Carries(s.workers[u].phase)
    {
      assert LockOk(s.workers[u].phase, L.Held(s.lock, u), s.lock.todo[u]);
      assert L.Held(s.lock, u) == L.FREE;
      FreePhases(s.workers[u].phase, s.lock.todo[u]);
    }
  }

  lemma ItemsKept(j: Job, s: State, t: nat, s': State)
    requires j.Valid() && Inv(j, s) && Step(j, s, t, s') && s.workers[t].phase != Bump && s'.items == s.items
    ensures Items(j, s')
  {
    hide L.Inv, L.Exec, L.Start, RootOf, Stamped, LowBytes, LockOk, DataOk, Framed;
  }

  lemma ItemsBump(j: Job, s: State, t: nat, s': State)
    requires j.Valid() && Inv(j, s) && Step(j, s, t, s') && s.workers[t].phase == Bump
    ensures Items(j, s')
  {
    assert LockOk(s.workers[t].phase, L.Held(s.lock, t), s.lock.todo[t]);
    assert DataOk(j, s.workers[t], s.coinbase, s.nonce2);
    WriterAlone(j, s, t);
    hide L.Inv, L.Exec, L.Start, RootOf, Stamped, LowBytes, LockOk, DataOk, Framed;
  }

  /** The item a thread finishes carries its own nonce2 and the root of the coinbase it read back whole. */
  lemma FinishedItem(j: Job, s: State, t: nat, s': State)
    requires j.Valid() && Inv(j, s) && Step(j, s, t, s') && s'.items != s.items
    ensures s.workers[t].phase == Hashing && s.workers[t].nonce2 < s.nonce2 && s'.nonce2 == s.nonce2
    ensures s'.workers == s.workers[t := s.workers[t].(phase := Unlocking)]
    ensures s'.items == s.items + [Item(s.workers[t].nonce2, RootOf(j, Stamped(j, s.workers[t].nonce2)))]
  {
    hide L.Inv, L.Exec, L.Start, RootOf, Stamped, LowBytes, LockOk, Items;
    assert DataOk(j, s.workers[t], s.coinbase, s.nonce2);
    assert s.workers[t].read == s.coinbase[..|s.workers[t].read|];
    assert s.workers[t].read == s.coinbase;
  }

  lemma ItemsFinish(j: Job, s: State, t: nat, s': State)
    requires j.Valid() && Inv(j, s) && Step(j, s, t, s') && s'.items != s.items
    ensures Items(j, s')
  {
    FinishedItem(j, s, t, s');
    hide L.Inv, Step, RootOf, Stamped, LowBytes, LockOk, DataOk, Framed, Workers;
    hide RootsOk, DistinctNonces, Apart, OneCarrier;
    FinishRoots(j, s.items, s.nonce2, s.workers[t].nonce2);
    FinishApart(s.workers, s.items, t, Item(s.workers[t].nonce2, RootOf(j, Stamped(j, s.workers[t].nonce2))));
  }

  lemma FinishRoots(j: Job, items: seq<Item>, nonce2: nat, v: nat)
    requires j.Valid() && RootsOk(j, items, nonce2) && v < nonce2
    ensures RootsOk(j, items + [Item(v, RootOf(j, Stamped(j, v)))], nonce2)
  {
    hide RootOf, Stamped;
  }

  lemma FinishApart(workers: seq<Worker>, items: seq<Item>, t: nat, item: Item)
    requires t < |workers| && workers[t].phase == Hashing && item.nonce2 == workers[t].nonce2
    requires DistinctNonces(items) && Apart(workers, items) && OneCarrier(workers)
    ensures var workers' := workers[t := workers[t].(phase := Unlocking)];
      DistinctNonces(items + [item]) && Apart(workers', items + [item]) && OneCarrier(workers')
  {
  }

  lemma StepInv(j: Job, s: State, t: nat, s': State)
    requires j.Valid() && Inv(j, s) && Step(j, s, t, s')
    ensures Inv(j, s')
  {
    hide L.Inv, RootOf, Stamped, LowBytes, LockOk, DataOk, Framed, Items, Step;
    StepLock(j, s, t, s');
    OwnLock(j, s, t, s');
    OwnData(j, s, t, s');
    forall u | 0 <= u < |s.workers| && u != t
      ensures LockOk(s'.workers[u].phase, L.Held(s'.lock, u), s'.lock.todo[u])
      ensures DataOk(j, s'.workers[u], s'.coinbase, s'.nonce2)
    {
      OthersKeep(j, s, t, s', u);
    }
    if s'.items != s.items {
      ItemsFinish(j, s, t, s');
    } else if s.workers[t].phase == Bump {
      ItemsBump(j, s, t, s');
    } else {
      ItemsKept(j, s, t, s');
    }
  }

  lemma {:induction false} RunInv(j: Job, ss: seq<State>, i: nat)
    requires j.Valid() && Run(j, ss) && i < |ss|
    ensures Inv(j, ss[i])
  {
    hide Inv, Step;
    if i == 0 {
      InitInv(j, ss[0]);
    } else {
      RunInv(j, ss, i - 1);
      assert Next(j, ss[i - 1], ss[i]);
      var t: nat :| Step(j, ss[i - 1], t, ss[i]);
      StepInv(j, ss[i - 1], t, ss[i]);
    }
  }

  /** The template with a nonce2 in its field, which holds it as a little-endian number, and nothing else changed. */
  ghost predicate Carrying(j: Job, c: seq<byte>, v: nat)
    requires j.Valid()
  {
    && |c| == |j.template| && c[..j.offset] == j.template[..j.offset]
    && LittleEndian(c[j.offset..j.offset + j.n2size]) == v % Pow256(j.n2size)
    && c[j.offset + j.n2size..] == j.template[j.offset + j.n2size..]
  }

  /** There is one such coinbase. */
  lemma StampedCarries(j: Job, v: nat, c: seq<byte>)
    requires j.Valid()
    ensures Carrying(j, c, v) <==> c == Stamped(j, v)
  {
    hide LowBytes, LittleEndian, Pow256;
    var s, n := Stamped(j, v), j.offset + j.n2size;
    LowBytesValue(v, j.n2size);
    assert s[j.offset..n] == LowBytes(v, j.n2size);
    assert s[..j.offset] == j.template[..j.offset] && s[n..] == j.template[n..];
    if Carrying(j, c, v) {
      LittleEndianUnique(c[j.offset..n], LowBytes(v, j.n2size));
      assert c == c[..j.offset] + c[j.offset..n] + c[n..];
    }
  }

  /** Every item any interleaving produces has the Merkle root of the coinbase that carries its own nonce2. */
  lemma OwnCoinbase(j: Job, ss: seq<State>, i: nat, k: nat)
    requires j.Valid() && Run(j, ss) && i < |ss| && k < |ss[i].items|
    ensures var item := ss[i].items[k];
      && Carrying(j, Stamped(j, item.nonce2), item.nonce2)
      && forall c :: Carrying(j, c, item.nonce2) ==>
           item.root ==
             match j.siblings
             case StratumBranch(branch) => Fold(GenHash(c), branch)
             case TemplateTransactions(txns) => Root([GenHash(c)] + txns)
  {
    var v := ss[i].items[k].nonce2;
    RunInv(j, ss, i);
    hide L.Inv, Stamped, LockOk, DataOk, Framed, Carrying, Fold, GenHash, Root, Workers;
    StampedCarries(j, v, Stamped(j, v));
    forall c | Carrying(j, c, v)
      ensures c == Stamped(j, v)
    {
      StampedCarries(j, v, c);
    }
  }

  ghost predicate Finished(items: seq<Item>, v: nat) {
    exists i :: 0 <= i < |items| && items[i].nonce2 == v
  }

  ghost predicate InFlight(workers: seq<Worker>, v: nat) {
    exists t :: 0 <= t < |workers| && Carries(workers[t].phase) && workers[t].nonce2 == v
  }

  /** Every nonce2 from start up to the counter was given to an item, or is about to be. */
  ghost predicate Used(s: State, start: nat) {
    start <= s.nonce2 && forall v :: start <= v < s.nonce2 ==> Finished(s.items, v) || InFlight(s.workers, v)
  }

  /** What one worker does keeps every other one in flight, and itself unless it finishes. */
  lemma FlightKept(a: seq<Worker>, t: nat, w: Worker, v: nat)
    requires t < |a| && InFlight(a, v)
    requires Carries(a[t].phase) && a[t].nonce2 == v ==> Carries(w.phase) && w.nonce2 == v
    ensures InFlight(a[t := w], v)
  {
    var u :| 0 <= u < |a| && Carries(a[u].phase) && a[u].nonce2 == v;
    assert Carries(a[t := w][u].phase) && a[t := w][u].nonce2 == v;
  }

  lemma FinishedKept(items: seq<Item>, item: Item, v: nat)
    ensures Finished(items + [item], v) <==> Finished(items, v) || item.nonce2 == v
  {
    var more := items + [item];
    assert more[|items|] == item;
    if Finished(items, v) {
      var i :| 0 <= i < |items| && items[i].nonce2 == v;
      assert more[i].nonce2 == v;
    }
  }

  /** A worker with a nonce2 keeps it until its item is finished. */
  lemma CarrierStays(j: Job, s: State, t: nat, s': State)
    requires j.Valid() && Inv(j, s) && Step(j, s, t, s') && s'.items == s.items
    ensures t < |s.workers| == |s'.workers| && s'.workers == s.workers[t := s'.workers[t]]
    ensures Carries(s.workers[t].phase) ==>
      Carries(s'.workers[t].phase) && s'.workers[t].nonce2 == s.workers[t].nonce2
  {
    hide L.Inv, L.Exec, L.Start, RootOf, Stamped, LowBytes, LockOk, DataOk, Framed, Items, Workers;
  }

  lemma StepUses(j: Job, s: State, t: nat, s': State, start: nat)
    requires j.Valid() && Inv(j, s) && Step(j, s, t, s') && Used(s, start)
    ensures Used(s', start)
  {
    StepCounts(j, s, t, s');
    if s'.items != s.items {
      FinishedItem(j, s, t, s');
    } else {
      CarrierStays(j, s, t, s');
    }
    hide *;
    UsedAt(s, start);
    forall v | start <= v < s'.nonce2
      ensures Finished(s'.items, v) || InFlight(s'.workers, v)
    {
      if v == s.nonce2 {
        FlightOf(s'.workers, t);
      } else if s'.items != s.items {
        FinishedKept(s.items, s'.items[|s.items|], v);
        if InFlight(s.workers, v) && s.workers[t].nonce2 != v {
          FlightKept(s.workers, t, s'.workers[t], v);
        }
      } else if InFlight(s.workers, v) {
        FlightKept(s.workers, t, s'.workers[t], v);
      }
    }
    UsedOf(s', start);
  }

  lemma UsedAt(s: State, start: nat)
    requires Used(s, start)
    ensures start <= s.nonce2 && forall v :: start <= v < s.nonce2 ==> Finished(s.items, v) || InFlight(s.workers, v)
  {
  }

  lemma UsedOf(s: State, start: nat)
    requires start <= s.nonce2
    requires forall v :: start <= v < s.nonce2 ==> Finished(s.items, v) || InFlight(s.workers, v)
    ensures Used(s, start)
  {
  }

  lemma FlightOf(workers: seq<Worker>, t: nat)
    requires t < |workers| && Carries(workers[t].phase)
    ensures InFlight(workers, workers[t].nonce2)
  {
  }

  /** The counter moves by one at a time, and the worker that moves it carries what it was. */
  lemma StepCounts(j: Job, s: State, t: nat, s': State)
    requires j.Valid() && Inv(j, s) && Step(j, s, t, s')
    ensures t < |s'.workers|
    ensures s'.nonce2 == s.nonce2
      || (s'.nonce2 == s.nonce2 + 1 && Carries(s'.workers[t].phase) && s'.workers[t].nonce2 == s.nonce2)
  {
    assert DataOk(j, s.workers[t], s.coinbase, s.nonce2);
    hide L.Inv, L.Exec, L.Start, RootOf, Stamped, LowBytes, LockOk, Framed, Items, Workers;
  }

  lemma {:induction false} RunUses(j: Job, ss: seq<State>, i: nat)
    requires j.Valid() && Run(j, ss) && i < |ss|
    ensures Used(ss[i], ss[0].nonce2)
  {
    hide Inv, Step, Used;
    if i == 0 {
      UsedOf(ss[0], ss[0].nonce2);
    } else {
      RunUses(j, ss, i - 1);
      RunInv(j, ss, i - 1);
      assert Next(j, ss[i - 1], ss[i]);
      var t: nat :| Step(j, ss[i - 1], t, ss[i]);
      StepUses(j, ss[i - 1], t, ss[i], ss[0].nonce2);
    }
  }

  /** No nonce2 is left out: with nobody in between, the items have exactly those the counter has passed. */
  lemma NoneSkipped(j: Job, ss: seq<State>, i: nat, v: nat)
    requires j.Valid() && Run(j, ss) && i < |ss| && ss[0].nonce2 <= v < ss[i].nonce2
    requires forall t :: 0 <= t < |ss[i].workers| ==> !Carries(ss[i].workers[t].phase)
    ensures Finished(ss[i].items, v)
  {
    RunUses(j, ss, i);
    hide Run, Finished;
  }

  /**
   * No two items share a nonce2, and as long as the counter fits the nonce2 field they do not share its bytes,
   * so their coinbases differ.
   */
  lemma DistinctWork(j: Job, ss: seq<State>, i: nat, a: nat, b: nat)
    requires j.Valid() && Run(j, ss) && i < |ss| && a < b < |ss[i].items|
    ensures var x, y := ss[i].items[a].nonce2, ss[i].items[b].nonce2;
      && x != y
      && (Stamped(j, x) == Stamped(j, y) <==> x % Pow256(j.n2size) == y % Pow256(j.n2size))
      && (ss[i].nonce2 <= Pow256(j.n2size) ==> Stamped(j, x) != Stamped(j, y))
  {
    hide L.Inv, RootOf, LockOk, DataOk, Framed, LowBytes;
    RunInv(j, ss, i);
    var x, y := ss[i].items[a].nonce2, ss[i].items[b].nonce2;
    SameLowBytes(x, y, j.n2size);
    StampedApart(j, x, y);
    if ss[i].nonce2 <= Pow256(j.n2size) {
      DistinctLowBytes(x, y, j.n2size);
    }
  }

  lemma StampedApart(j: Job, x: nat, y: nat)
    requires j.Valid()
    ensures Stamped(j, x) == Stamped(j, y) <==> LowBytes(x, j.n2size) == LowBytes(y, j.n2size)
  {
    hide LowBytes;
    assert Stamped(j, x)[j.offset..j.offset + j.n2size] == LowBytes(x, j.n2size);
    assert Stamped(j, y)[j.offset..j.offset + j.n2size] == LowBytes(y, j.n2size);
  }
}
