/** How a GPU thread walks the nonces of one work item: driver-opencl.c's scan sizes and sgminer.c's hash_sole_work. */
module NonceScan {
  import opened Division

  const WORD: nat := 0x1_0000_0000
  const LONG: nat := 0x1_0000_0000_0000_0000
  const MIN_INTENSITY: nat := 8
  const MAX_INTENSITY: nat := 31
  const MAXTHREADS: nat := 0xFFFF_FFFE

  /** Every kernel there is works on one nonce at a time. */
  const VECTORS: nat := 1

  /** A 32-bit unsigned number. */
  type word = x: nat | x < WORD

  function Larger(a: int, b: nat): nat {
    if a > b then a else b
  }

  /** What a device was configured with. At most one of the three intensities is used, the raw one first. */
  datatype Config = Config(dynamic: bool, shaders: word, minthreads: word, xintensity: word, rawintensity: word) {

    /** The threads one round of set_threads_hashes comes up with, in 32-bit unsigned arithmetic. */
    function Try(intensity: nat): word
      requires intensity <= MAX_INTENSITY
    {
      Pow2Word(intensity);
      if rawintensity > 0 then rawintensity
      else if xintensity > 0 then (shaders * xintensity) % WORD
      else Pow2(intensity)
    }

    /** The lowest intensity from the given one on that is enough, or the highest there is. */
    function Settled(intensity: nat): (r: nat)
      requires intensity <= MAX_INTENSITY
      ensures intensity <= r <= MAX_INTENSITY
      ensures Try(r) >= minthreads || r == MAX_INTENSITY
      ensures forall i :: intensity <= i < r ==> Try(i) < minthreads
      decreases MAX_INTENSITY - intensity
    {
      if Try(intensity) >= minthreads || intensity == MAX_INTENSITY then intensity else Settled(intensity + 1)
    }

    /** The threads that are run in the end, and so the nonces one scan covers. */
    function Threads(intensity: nat): (t: word)
      requires intensity <= MAX_INTENSITY
      ensures t >= minthreads
      ensures t == 0 <==> minthreads == 0
    {
      if minthreads == 0 then 0
      else if Try(Settled(intensity)) >= minthreads then Try(Settled(intensity))
      else minthreads
    }

    /** Dynamic intensity goes up or down by one between two scans, as the time that scans take asks for. */
    function Adjusted(intensity: nat, drift: Drift): (r: nat)
      requires intensity <= MAX_INTENSITY
      ensures r <= MAX_INTENSITY
      ensures 8 <= intensity ==> 8 <= r <= 31
      ensures dynamic && drift.Lower? && 8 < intensity ==> r < intensity
      ensures dynamic && drift.Raise? && intensity < 31 ==> r > intensity
    {
      if !dynamic then intensity
      else
        match drift
        case Keep => intensity
        case Lower => if intensity > MIN_INTENSITY then intensity - 1 else intensity
        case Raise => if intensity < MAX_INTENSITY then intensity + 1 else intensity
    }

    /** Once it has settled, the intensity stays, and so do the threads. */
    lemma Idempotent(intensity: nat)
      requires intensity <= MAX_INTENSITY
      ensures Settled(Settled(intensity)) == Settled(intensity) && Threads(Settled(intensity)) == Threads(intensity)
    {
    }

    /** Raw threads if there are any, then shaders times their factor in 32 bits, or else a power of two. */
    lemma TryIs(intensity: nat, threads: nat)
      requires intensity <= MAX_INTENSITY
      requires rawintensity > 0 ==> threads == rawintensity
      requires rawintensity == 0 && xintensity > 0 ==> threads == (shaders * xintensity) % WORD
      requires rawintensity == 0 && xintensity == 0 ==> threads == Pow2(intensity)
      ensures threads == Try(intensity)
    {
      hide Pow2;
    }

    /** One round of the loop. */
    lemma OneRound(intensity: nat)
      requires intensity <= MAX_INTENSITY && minthreads > 0
      ensures Try(intensity) >= minthreads ==> Settled(intensity) == intensity && Threads(intensity) == Try(intensity)
      ensures Try(intensity) < minthreads && intensity == MAX_INTENSITY ==>
        Settled(intensity) == intensity && Threads(intensity) == minthreads
      ensures Try(intensity) < minthreads && intensity < MAX_INTENSITY ==>
        Settled(intensity + 1) == Settled(intensity) && Threads(intensity + 1) == Threads(intensity)
    {
      hide Config.Try;
    }

    lemma NoThreads(intensity: nat)
      requires intensity <= MAX_INTENSITY && minthreads == 0
      ensures Settled(intensity) == intensity && Threads(intensity) == 0
    {
      hide Config.Try;
    }

    /** A lower intensity does not mean more threads. */
    lemma LowerNarrows(intensity: nat)
      requires 0 < intensity <= MAX_INTENSITY
      ensures Threads(intensity - 1) <= Threads(intensity)
    {
      if Try(intensity - 1) >= minthreads {
        assert Settled(intensity - 1) == intensity - 1;
        assert Try(intensity) >= Try(intensity - 1);
      } else {
        assert Settled(intensity - 1) == Settled(intensity);
      }
    }
  }

  lemma {:induction false} Pow2Grows(i: nat, j: nat)
    requires i <= j
    ensures Pow2(i) <= Pow2(j)
  {
    if i == j {
    } else {
      Pow2Grows(i, j - 1);
    }
  }

  lemma {:induction false} Pow2Word(i: nat)
    requires i <= MAX_INTENSITY
    ensures Pow2(i) < WORD
  {
    hide Pow2;
    Pow2Grows(i, MAX_INTENSITY);
    Pow2Highest();
  }

  lemma Pow2Highest()
    ensures Pow2(MAX_INTENSITY) == 0x8000_0000
  {
    assert Pow2(8) == 0x100;
    assert Pow2(16) == 0x1_0000;
    assert Pow2(24) == 0x100_0000;
  }

  /** What dynamic intensity does before a scan. */
  datatype Drift = Keep | Raise | Lower

  /** How far a scan gets: not to the kernel, not to reading it, not to clearing its buffer, or to the end. */
  datatype Outcome = NotStarted | Unread | Uncleared | Done {

    /** Whether the kernel was started. */
    predicate Started() {
      !NotStarted?
    }

    /** Whether the nonce was moved on. */
    predicate Moved() {
      Uncleared? || Done?
    }
  }

  /** A scan: what dynamic intensity does before, how far it gets, and whether the work ends after it as too old. */
  datatype Turn = Turn(drift: Drift, outcome: Outcome, late: bool)

  class Gpu {
    const config: Config
    var intensity: nat
    var maxHashes: nat

    constructor (config: Config, intensity: nat)
      ensures this.config == config && this.intensity == intensity && maxHashes == 0
    {
      this.config, this.intensity, maxHashes := config, intensity, 0;
    }

    /** set_threads_hashes. With one vector the product is the number of threads itself. */
    method SetThreadsHashes() returns (globalThreads: nat, hashes: nat)
      requires intensity <= MAX_INTENSITY
      modifies this`intensity
      ensures globalThreads == config.Threads(old(intensity))
      ensures intensity == config.Settled(old(intensity))
      ensures hashes == globalThreads
    {
      hide *;
      var threads := 0;
      if config.minthreads == 0 {
        config.NoThreads(intensity);
      }
      while threads < config.minthreads
        invariant intensity <= MAX_INTENSITY
        invariant config.Settled(intensity) == config.Settled(old(intensity))
        invariant config.Threads(intensity) == config.Threads(old(intensity))
        invariant threads >= config.minthreads ==>
          threads == config.Threads(intensity) && intensity == config.Settled(intensity)
        decreases MAX_INTENSITY - intensity + if threads < config.minthreads then 1 else 0
      {
        config.OneRound(intensity);
        if config.rawintensity > 0 {
          threads := config.rawintensity;
        } else if config.xintensity > 0 {
          threads := (config.shaders * config.xintensity) % WORD;
        } else {
          threads := Pow2(intensity);
        }
        config.TryIs(intensity, threads);
        if threads < config.minthreads {
          if intensity < MAX_INTENSITY {
            intensity := intensity + 1;
          } else {
            threads := config.minthreads;
          }
        }
      }
      globalThreads := threads;
      hashes := (threads * VECTORS) % WORD;
      OneVector(threads);
    }

    /** Dynamic intensity, at the start of opencl_scanhash. */
    method Adjust(drift: Drift)
      requires intensity <= MAX_INTENSITY
      modifies this`intensity
      ensures intensity == config.Adjusted(old(intensity), drift)
    {
      if config.dynamic {
        match drift {
          case Lower =>
            if intensity > MIN_INTENSITY {
              intensity := intensity - 1;
            }
          case Raise =>
            if intensity < MAX_INTENSITY {
              intensity := intensity + 1;
            }
          case Keep =>
        }
      }
    }

    /**
     * opencl_scanhash: a kernel starts at the nonce, which moves on by the most that any scan of the item has had.
     * If a call fails before the results can be read, the nonce stays; if any call fails, the result is -1.
     */
    method Scan(nonce: nat, turn: Turn) returns (next: nat, result: int, ghost kernels: seq<Kernel>)
      requires intensity <= MAX_INTENSITY && nonce < WORD
      modifies this`intensity, this`maxHashes
      ensures var p := Progress([], old(intensity), old(maxHashes), nonce, true).After(config, turn);
        intensity == p.intensity && maxHashes == p.maxHashes && next == p.nonce && kernels == p.kernels
      ensures result == if turn.outcome.Done? then config.Threads(config.Adjusted(old(intensity), turn.drift)) else -1
    {
      kernels := [];
      Adjust(turn.drift);
      var globalThreads, hashes := SetThreadsHashes();
      if hashes > maxHashes {
        maxHashes := hashes;
      }
      if turn.outcome.NotStarted? {
        return nonce, -1, kernels;
      }
      kernels := [Kernel(nonce, globalThreads, turn.outcome.Moved())];
      if turn.outcome.Unread? {
        return nonce, -1, kernels;
      }
      next := (nonce + maxHashes) % WORD;
      result := if turn.outcome.Uncleared? then -1 else hashes;
    }

    /** abandon_work, in 64-bit unsigned arithmetic. The clock or a stale item may end the work as well. */
    method Abandon(nonce: nat, late: bool) returns (abandon: bool)
      requires maxHashes < LONG
      ensures abandon == (late || nonce + maxHashes >= MAXTHREADS) == (late || nonce + maxHashes >= 0xFFFF_FFFE)
    {
      abandon := late || nonce >= (MAXTHREADS - maxHashes) % LONG || maxHashes >= MAXTHREADS;
    }

    /** What hash_sole_work makes of a scan: the result is divided by 8 before it is looked at. */
    method ScanAndCheck(nonce: nat, turn: Turn) returns (next: nat, disable: bool, ghost kernels: seq<Kernel>)
      requires intensity <= MAX_INTENSITY && nonce < WORD
      modifies this`intensity, this`maxHashes
      ensures var p := Progress([], old(intensity), old(maxHashes), nonce, true).After(config, turn);
        intensity == p.intensity && maxHashes == p.maxHashes && next == p.nonce && kernels == p.kernels && !disable
    {
      var result;
      next, result, kernels := Scan(nonce, turn);
      FailureUnseen(result);
      var hashes := TruncatedQuotient(result, 8);
      disable := hashes == -1;
      maxHashes := Larger(hashes, maxHashes);
    }

    /**
     * The loop of hash_sole_work on one item, given how each scan turns out, with the kernels that were started.
     * The kernels work on distinct nonces exactly if the turns are clean, which can be said before: every result that
     * had to make the nonce move on could be read and no kernel reaches beyond the 32-bit nonces. The latter never
     * happens while no intensity is raised.
     */
    method MineItem(turns: seq<Turn>) returns (ghost kernels: seq<Kernel>)
      requires intensity <= MAX_INTENSITY
      modifies this`intensity, this`maxHashes
      ensures var p := Mined(config, old(intensity), turns);
        kernels == p.kernels && intensity == p.intensity && maxHashes == p.maxHashes
      ensures NoRepeat(kernels) <==> config.minthreads == 0 || Clean(config, old(intensity), turns)
      ensures NoRepeat(kernels) <==> config.minthreads == 0 || (AllRead(kernels) && AllFit(kernels))
      ensures NeverRaised(config, turns) ==> AllFit(kernels)
    {
      hide *;
      var nonce: nat, i, going := 0, 0, true;
      maxHashes := 0;
      kernels := [];
      MinedNone(config, intensity, turns);
      while going && i < |turns|
        invariant i <= |turns| && intensity <= MAX_INTENSITY
        invariant Mined(config, old(intensity), turns[..i]) == Progress(kernels, intensity, maxHashes, nonce, going)
      {
        ghost var p := Progress(kernels, intensity, maxHashes, nonce, going);
        MinedNext(config, old(intensity), turns, i);
        MinedSound(config, old(intensity), turns[..i]);
        SoundBounds(p, config);
        AfterApart(p, config, turns[i]);
        ghost var more;
        var disable;
        nonce, disable, more := ScanAndCheck(nonce, turns[i]);
        kernels := kernels + more;
        if disable {
          break;
        }
        MinedSound(config, old(intensity), turns[..i + 1]);
        SoundBounds(p.After(config, turns[i]), config);
        var abandon := Abandon(nonce, turns[i].late);
        going := !abandon;
        i := i + 1;
      }
      MinedStops(config, old(intensity), turns, i);
      MinedSound(config, old(intensity), turns);
      RepeatsExactly(Mined(config, old(intensity), turns), config);
      CleanExactly(config, old(intensity), turns);
      if NeverRaised(config, turns) {
        NeverRaisedFits(config, old(intensity), turns);
      }
    }
  }

  /** A kernel that was started: its first nonce, its threads, and whether the nonce was moved on behind it. */
  datatype Kernel = Kernel(start: nat, width: nat, read: bool) {

    function End(): nat {
      start + width
    }

    /** The nonce its k-th thread works on: the global identifier in 32 bits. */
    function Nonce(k: nat): nat {
      (start + k) % WORD
    }
  }

  /** Where the work on an item has got to. */
  datatype Progress = Progress(kernels: seq<Kernel>, intensity: nat, maxHashes: nat, nonce: nat, going: bool) {

    /** Where the kernel after this one starts, or the work goes on. */
    function NextOf(i: nat): nat
      requires i < |kernels|
    {
      if i < |kernels| - 1 then kernels[i + 1].start else nonce
    }

    /** One more scan. */
    function After(c: Config, turn: Turn): (p: Progress)
      requires intensity <= MAX_INTENSITY
      ensures p.intensity <= MAX_INTENSITY
    {
      var from := c.Adjusted(intensity, turn.drift);
      var width := c.Threads(from);
      var most := Larger(maxHashes, width);
      var next := if turn.outcome.Moved() then (nonce + most) % WORD else nonce;
      Progress(
        kernels + if turn.outcome.Started() then [Kernel(nonce, width, turn.outcome.Moved())] else [],
        c.Settled(from), most, next, !turn.late && next + most < MAXTHREADS
      )
    }
  }

  /** The scans of one item. */
  function Mined(c: Config, intensity: nat, turns: seq<Turn>): (p: Progress)
    requires intensity <= MAX_INTENSITY
    ensures p.intensity <= MAX_INTENSITY
  {
    if |turns| == 0 then Progress([], intensity, 0, 0, true)
    else
      var p := Mined(c, intensity, turns[..|turns| - 1]);
      if p.going then p.After(c, turns[|turns| - 1]) else p
  }

  lemma {:induction false} MinedNone(c: Config, intensity: nat, turns: seq<Turn>)
    requires intensity <= MAX_INTENSITY
    ensures Mined(c, intensity, turns[..0]) == Progress([], intensity, 0, 0, true)
  {
  }

  lemma {:induction false} MinedNext(c: Config, intensity: nat, turns: seq<Turn>, i: nat)
    requires intensity <= MAX_INTENSITY && i < |turns| && Mined(c, intensity, turns[..i]).going
    ensures Mined(c, intensity, turns[..i + 1]) == Mined(c, intensity, turns[..i]).After(c, turns[i])
  {
    assert turns[..i + 1][..i] == turns[..i];
  }

  lemma {:induction false} MinedStops(c: Config, intensity: nat, turns: seq<Turn>, i: nat)
    requires intensity <= MAX_INTENSITY && i <= |turns| && (i < |turns| ==> !Mined(c, intensity, turns[..i]).going)
    ensures Mined(c, intensity, turns) == Mined(c, intensity, turns[..i])
  {
    if i < |turns| {
      assert turns[..|turns| - 1][..i] == turns[..i];
      MinedStops(c, intensity, turns[..|turns| - 1], i);
    } else {
      assert turns[..i] == turns;
    }
  }

  /** The kernels come out the same wherever they are added to. */
  lemma AfterApart(p: Progress, c: Config, turn: Turn)
    requires p.intensity <= MAX_INTENSITY
    ensures var q, r := p.After(c, turn), Progress([], p.intensity, p.maxHashes, p.nonce, true).After(c, turn);
      && q == Progress(p.kernels + r.kernels, r.intensity, r.maxHashes, r.nonce, r.going)
      && (r.going <==> !turn.late && r.nonce + r.maxHashes < MAXTHREADS)
  {
  }

  /** What follows a kernel: the same nonce if its result could not be read, or else the nonces behind it. */
  predicate Followed(k: Kernel, next: nat) {
    (!k.read ==> next == k.start)
    && (k.read && k.End() < WORD ==> next >= k.End())
    && (k.read && k.End() == WORD ==> next == 0)
  }

  /** Every kernel but the last is followed by the next. */
  predicate Linked(kernels: seq<Kernel>) {
    forall i :: 0 <= i < |kernels| - 1 ==> Followed(kernels[i], kernels[i + 1].start)
  }

  /** What every run of scans keeps. */
  ghost predicate Sound(p: Progress, c: Config) {
    && p.nonce < WORD && p.maxHashes < WORD && (p.going ==> p.nonce + p.maxHashes < MAXTHREADS)
    && (forall k <- p.kernels :: k.start < WORD && k.width < WORD && (k.width == 0 <==> c.minthreads == 0))
    && Linked(p.kernels)
    && if p.kernels == [] then p.nonce == 0
       else p.kernels[0].start == 0 && Followed(p.kernels[|p.kernels| - 1], p.nonce)
  }

  lemma SoundBounds(p: Progress, c: Config)
    requires Sound(p, c)
    ensures p.nonce < WORD && p.maxHashes < WORD < LONG
  {
  }

  lemma {:induction false} SoundAfter(p: Progress, c: Config, turn: Turn)
    requires p.intensity <= MAX_INTENSITY && Sound(p, c) && p.going
    ensures Sound(p.After(c, turn), c)
  {
    hide Config.Threads, Config.Settled, Config.Adjusted, Followed;
    var width := c.Threads(c.Adjusted(p.intensity, turn.drift));
    if turn.outcome.Started() {
      FollowedNext(p, width, turn);
      LinkedOn(p.kernels, Kernel(p.nonce, width, turn.outcome.Moved()));
    }
  }

  /** A kernel is followed by the next nonce: while the work goes on, the most of all scans leads to no overflow. */
  lemma FollowedNext(p: Progress, width: nat, turn: Turn)
    requires p.nonce < WORD && p.maxHashes < WORD && p.nonce + p.maxHashes < MAXTHREADS && width < WORD
    requires turn.outcome.Started()
    ensures var most := Larger(p.maxHashes, width);
      var next := if turn.outcome.Moved() then (p.nonce + most) % WORD else p.nonce;
      Followed(Kernel(p.nonce, width, turn.outcome.Moved()), next)
  {
    if p.nonce + width < WORD {
      SmallMod(p.nonce + Larger(p.maxHashes, width), WORD);
    }
  }

  /** With one vector the product of threads and vectors does not overflow. */
  lemma OneVector(threads: word)
    ensures (threads * VECTORS) % WORD == threads
  {
  }

  lemma SmallMod(x: nat, d: nat)
    requires x < d
    ensures x % d == x
  {
  }

  lemma {:induction false} LinkedOn(kernels: seq<Kernel>, k: Kernel)
    requires Linked(kernels) && (kernels == [] || Followed(kernels[|kernels| - 1], k.start))
    ensures Linked(kernels + [k])
  {
    hide Followed;
  }

  lemma {:induction false} MinedSound(c: Config, intensity: nat, turns: seq<Turn>)
    requires intensity <= MAX_INTENSITY
    ensures Sound(Mined(c, intensity, turns), c)
  {
    if |turns| == 0 {
    } else {
      var p := Mined(c, intensity, turns[..|turns| - 1]);
      MinedSound(c, intensity, turns[..|turns| - 1]);
      if p.going {
        SoundAfter(p, c, turns[|turns| - 1]);
      }
    }
  }

  /** No two threads of all the kernels work on the same nonce. */
  ghost predicate NoRepeat(kernels: seq<Kernel>) {
    forall i, j, x, y :: 0 <= i < j < |kernels| && 0 <= x < kernels[i].width && 0 <= y < kernels[j].width ==>
      kernels[i].Nonce(x) != kernels[j].Nonce(y)
  }

  /** No result was lost before another kernel was started. */
  predicate AllRead(kernels: seq<Kernel>) {
    forall i :: 0 <= i < |kernels| - 1 ==> kernels[i].read
  }

  /** Every kernel but the last one leaves a nonce to go on with, and the last one ends with the 32-bit nonces. */
  predicate AllFit(kernels: seq<Kernel>) {
    forall i :: 0 <= i < |kernels| ==> kernels[i].End() < if i == |kernels| - 1 then WORD + 1 else WORD
  }

  /** The kernels without repetitions are exactly these. */
  lemma {:induction false} RepeatsExactly(p: Progress, c: Config)
    requires Sound(p, c)
    ensures NoRepeat(p.kernels) <==> c.minthreads == 0 || (AllRead(p.kernels) && AllFit(p.kernels))
  {
    if c.minthreads > 0 {
      var ks := p.kernels;
      if AllRead(ks) && AllFit(ks) {
        OrderedApart(ks);
      } else if !AllRead(ks) {
        var i :| 0 <= i < |ks| - 1 && !ks[i].read;
        assert Followed(ks[i], ks[i + 1].start);
        Shared(ks, i, i + 1, 0, 0);
      } else {
        var i :| 0 <= i < |ks| && !(ks[i].End() < if i == |ks| - 1 then WORD + 1 else WORD);
        if ks[i].End() > WORD {
          Shared(ks, 0, i, 0, WORD - ks[i].start);
        } else {
          assert Followed(ks[i], ks[i + 1].start);
          Shared(ks, 0, i + 1, 0, 0);
        }
      }
    }
  }

  lemma Shared(kernels: seq<Kernel>, i: nat, j: nat, x: nat, y: nat)
    requires i < j < |kernels| && x < kernels[i].width && y < kernels[j].width
    requires kernels[i].Nonce(x) == kernels[j].Nonce(y)
    ensures !NoRepeat(kernels)
  {
  }

  /** Kernels that are read and fit lie one behind the other. */
  lemma {:induction false} Ordered(kernels: seq<Kernel>, i: nat, j: nat)
    requires i < j < |kernels| && Linked(kernels) && AllRead(kernels) && AllFit(kernels)
    ensures kernels[i].End() <= kernels[j].start
    decreases j - i
  {
    assert Followed(kernels[j - 1], kernels[j].start);
    if i == j - 1 {
    } else {
      Ordered(kernels, i, j - 1);
    }
  }

  lemma {:induction false} OrderedApart(kernels: seq<Kernel>)
    requires Linked(kernels) && AllRead(kernels) && AllFit(kernels)
    ensures NoRepeat(kernels)
  {
    forall i, j, x, y | 0 <= i < j < |kernels| && 0 <= x < kernels[i].width && 0 <= y < kernels[j].width
      ensures kernels[i].Nonce(x) != kernels[j].Nonce(y)
    {
      hide Linked, AllRead;
      Ordered(kernels, i, j);
      assert kernels[i].End() < WORD && kernels[j].End() <= WORD;
      SmallMod(kernels[i].start + x, WORD);
      SmallMod(kernels[j].start + y, WORD);
    }
  }

  /** The intensity after turns that did not end the work. */
  function Setting(c: Config, intensity: nat, turns: seq<Turn>): (r: nat)
    requires intensity <= MAX_INTENSITY
    ensures r <= MAX_INTENSITY
  {
    if |turns| == 0 then intensity
    else
      var n := |turns| - 1;
      c.Settled(c.Adjusted(Setting(c, intensity, turns[..n]), turns[n].drift))
  }

  /** The threads of the last of the turns. */
  function Width(c: Config, intensity: nat, turns: seq<Turn>): word
    requires intensity <= MAX_INTENSITY && |turns| > 0
  {
    var n := |turns| - 1;
    c.Threads(c.Adjusted(Setting(c, intensity, turns[..n]), turns[n].drift))
  }

  /** The most threads of any turn. */
  function Most(c: Config, intensity: nat, turns: seq<Turn>): nat
    requires intensity <= MAX_INTENSITY
  {
    if |turns| == 0 then 0 else Larger(Most(c, intensity, turns[..|turns| - 1]), Width(c, intensity, turns))
  }

  /** How far the turns move the nonce, without a bound: each that does by the most threads up to then. */
  function Reach(c: Config, intensity: nat, turns: seq<Turn>): nat
    requires intensity <= MAX_INTENSITY
  {
    if |turns| == 0 then 0
    else
      var n := |turns| - 1;
      Reach(c, intensity, turns[..n]) + if turns[n].outcome.Moved() then Most(c, intensity, turns) else 0
  }

  /** Where that is in 32 bits. */
  function Place(c: Config, intensity: nat, turns: seq<Turn>): nat
    requires intensity <= MAX_INTENSITY
  {
    Reach(c, intensity, turns) % WORD
  }

  /** Whether the work goes on after the turns. */
  predicate Live(c: Config, intensity: nat, turns: seq<Turn>)
    requires intensity <= MAX_INTENSITY
  {
    |turns| == 0
    || (Live(c, intensity, turns[..|turns| - 1]) && !turns[|turns| - 1].late
        && Place(c, intensity, turns) + Most(c, intensity, turns) < MAXTHREADS)
  }

  predicate NoneLost(turns: seq<Turn>) {
    forall j :: 0 <= j < |turns| ==> turns[j].outcome != Unread
  }

  /** A turn that starts a kernel finds room for it, and no result was lost before. */
  predicate Fits(c: Config, intensity: nat, turns: seq<Turn>)
    requires intensity <= MAX_INTENSITY && |turns| > 0
  {
    var front := turns[..|turns| - 1];
    Live(c, intensity, front) && turns[|turns| - 1].outcome.Started() ==>
      Reach(c, intensity, front) + Width(c, intensity, turns) <= WORD && NoneLost(front)
  }

  /** What can be said before a run: every turn that is reached fits. */
  predicate Clean(c: Config, intensity: nat, turns: seq<Turn>)
    requires intensity <= MAX_INTENSITY
  {
    forall k :: 0 < k <= |turns| ==> Fits(c, intensity, turns[..k])
  }

  lemma {:induction false} CleanNext(c: Config, intensity: nat, turns: seq<Turn>)
    requires intensity <= MAX_INTENSITY && |turns| > 0
    ensures Clean(c, intensity, turns) <==> Clean(c, intensity, turns[..|turns| - 1]) && Fits(c, intensity, turns)
  {
    hide Fits;
    var front := turns[..|turns| - 1];
    assert forall k :: 0 < k <= |front| ==> front[..k] == turns[..k];
    assert turns[..|turns|] == turns;
  }

  lemma {:induction false} LastTurn(c: Config, intensity: nat, turns: seq<Turn>)
    requires intensity <= MAX_INTENSITY && |turns| > 0
    ensures var n := |turns| - 1; var front, turn := turns[..n], turns[n];
      && Width(c, intensity, turns) == c.Threads(c.Adjusted(Setting(c, intensity, front), turn.drift))
      && Setting(c, intensity, turns) == c.Settled(c.Adjusted(Setting(c, intensity, front), turn.drift))
      && Most(c, intensity, turns) == Larger(Most(c, intensity, front), Width(c, intensity, turns))
      && Reach(c, intensity, turns)
           == Reach(c, intensity, front) + (if turn.outcome.Moved() then Most(c, intensity, turns) else 0)
      && Live(c, intensity, turns) == (
           Live(c, intensity, front) && !turn.late
           && Place(c, intensity, turns) + Most(c, intensity, turns) < MAXTHREADS)
      && Mined(c, intensity, turns)
           == var p := Mined(c, intensity, front); if p.going then p.After(c, turn) else p
  {
    hide Config.Threads, Config.Settled, Config.Adjusted, Progress.After, Larger, Place;
  }

  lemma AfterIs(p: Progress, c: Config, turn: Turn, width: nat)
    requires p.intensity <= MAX_INTENSITY && width == c.Threads(c.Adjusted(p.intensity, turn.drift))
    ensures var q, most := p.After(c, turn), Larger(p.maxHashes, width);
      && q.intensity == c.Settled(c.Adjusted(p.intensity, turn.drift)) && q.maxHashes == most
      && q.nonce == (if turn.outcome.Moved() then (p.nonce + most) % WORD else p.nonce)
      && (q.going <==> !turn.late && q.nonce + most < MAXTHREADS)
      && q.kernels == p.kernels + if turn.outcome.Started() then [Kernel(p.nonce, width, turn.outcome.Moved())] else []
  {
    hide Config.Threads, Config.Settled, Config.Adjusted;
  }

  /** What the work has got to after turns that were all reached, in these terms. */
  ghost predicate Tells(c: Config, intensity: nat, turns: seq<Turn>, p: Progress)
    requires intensity <= MAX_INTENSITY
  {
    p.intensity == Setting(c, intensity, turns) && p.maxHashes == Most(c, intensity, turns)
    && p.nonce == Place(c, intensity, turns)
  }

  lemma {:induction false} MinedReach(c: Config, intensity: nat, turns: seq<Turn>)
    requires intensity <= MAX_INTENSITY
    ensures Mined(c, intensity, turns).going <==> Live(c, intensity, turns)
    ensures |turns| == 0 || Live(c, intensity, turns[..|turns| - 1]) ==>
      Tells(c, intensity, turns, Mined(c, intensity, turns))
  {
    if |turns| == 0 {
    } else {
      hide *;
      var front := turns[..|turns| - 1];
      MinedReach(c, intensity, front);
      TellsFront(c, intensity, front);
      if Live(c, intensity, front) {
        TellsNext(c, intensity, turns);
      } else {
        NotReached(c, intensity, turns);
      }
    }
  }

  lemma {:induction false} TellsNext(c: Config, intensity: nat, turns: seq<Turn>)
    requires intensity <= MAX_INTENSITY && |turns| > 0
    requires var front := turns[..|turns| - 1];
      && Live(c, intensity, front) && Mined(c, intensity, front).going
      && Tells(c, intensity, front, Mined(c, intensity, front))
    ensures Tells(c, intensity, turns, Mined(c, intensity, turns))
    ensures Mined(c, intensity, turns).going <==> Live(c, intensity, turns)
  {
    hide *;
    var front, turn := turns[..|turns| - 1], turns[|turns| - 1];
    var p, w := Mined(c, intensity, front), Width(c, intensity, turns);
    LastTurn(c, intensity, turns);
    TellsIs(c, intensity, front, p);
    AfterIs(p, c, turn, w);
    PlaceNext(c, intensity, turns);
    TellsIs(c, intensity, turns, Mined(c, intensity, turns));
  }

  lemma PlaceIs(c: Config, intensity: nat, turns: seq<Turn>)
    requires intensity <= MAX_INTENSITY
    ensures Place(c, intensity, turns) == Reach(c, intensity, turns) % WORD
  {
    hide Reach;
  }

  lemma {:induction false} PlaceNext(c: Config, intensity: nat, turns: seq<Turn>)
    requires intensity <= MAX_INTENSITY && |turns| > 0
    ensures var front := turns[..|turns| - 1];
      Place(c, intensity, turns) == if turns[|turns| - 1].outcome.Moved()
        then (Place(c, intensity, front) + Most(c, intensity, turns)) % WORD
        else Place(c, intensity, front)
  {
    hide Most;
    ModAdd(Reach(c, intensity, turns[..|turns| - 1]), Most(c, intensity, turns));
  }

  /** Turns after which the work goes on were all reached. */
  lemma {:induction false} TellsFront(c: Config, intensity: nat, turns: seq<Turn>)
    requires intensity <= MAX_INTENSITY
    ensures Live(c, intensity, turns) ==> |turns| == 0 || Live(c, intensity, turns[..|turns| - 1])
  {
  }

  lemma ModAdd(x: nat, y: nat)
    ensures (x % WORD + y) % WORD == (x + y) % WORD && (x < WORD ==> x % WORD == x)
  {
  }

  /** What the kernels of turns that were all reached show of the turns. */
  ghost predicate Shown(reach: nat, turns: seq<Turn>, kernels: seq<Kernel>) {
    && ((forall k <- kernels :: k.read) <==> NoneLost(turns))
    && (forall k <- kernels :: k.read ==> k.End() <= reach)
    && (BelowEnd(kernels) ==> reach < WORD)
  }

  /** All kernels were read, and a nonce was left. */
  ghost predicate BelowEnd(kernels: seq<Kernel>) {
    forall k <- kernels :: k.read && k.End() < WORD
  }

  lemma {:induction false} MinedShows(c: Config, intensity: nat, turns: seq<Turn>)
    requires intensity <= MAX_INTENSITY && Live(c, intensity, turns)
    ensures Shown(Reach(c, intensity, turns), turns, Mined(c, intensity, turns).kernels)
  {
    if |turns| == 0 {
    } else {
      hide Config.Threads, Config.Settled, Config.Adjusted, Progress.After;
      hide Setting, Width, Most, Reach, Live, Mined, Shown;
      var front, turn := turns[..|turns| - 1], turns[|turns| - 1];
      LastTurn(c, intensity, turns);
      MinedShows(c, intensity, front);
      MinedReach(c, intensity, front);
      TellsFront(c, intensity, front);
      var p, w := Mined(c, intensity, front), Width(c, intensity, turns);
      AfterIs(p, c, turn, w);
      ShownNext(Reach(c, intensity, front), Most(c, intensity, front), w, turns, p);
    }
  }

  lemma {:induction false} ShownNext(reach: nat, most: nat, width: word, turns: seq<Turn>, p: Progress)
    requires |turns| > 0 && Shown(reach, turns[..|turns| - 1], p.kernels) && p.nonce == reach % WORD
    requires p.nonce + most < MAXTHREADS
    ensures var turn := turns[|turns| - 1];
      Shown(reach + (if turn.outcome.Moved() then Larger(most, width) else 0), turns,
        p.kernels + if turn.outcome.Started() then [Kernel(p.nonce, width, turn.outcome.Moved())] else [])
  {
    var front, turn := turns[..|turns| - 1], turns[|turns| - 1];
    LostNext(turns);
    ModAdd(reach, 0);
    if turn.outcome.Started() {
      ReadNext(p.kernels, Kernel(p.nonce, width, turn.outcome.Moved()));
    }
    hide NoneLost;
  }

  lemma {:induction false} LostNext(turns: seq<Turn>)
    requires |turns| > 0
    ensures NoneLost(turns) <==> NoneLost(turns[..|turns| - 1]) && turns[|turns| - 1].outcome != Unread
  {
    var front := turns[..|turns| - 1];
    assert forall j :: 0 <= j < |front| ==> front[j] == turns[j];
  }

  lemma {:induction false} ReadNext(kernels: seq<Kernel>, k: Kernel)
    ensures var more := kernels + [k];
      && ((forall q <- more :: q.read) <==> (forall q <- kernels :: q.read) && k.read)
      && (BelowEnd(more) <==> BelowEnd(kernels) && k.read && k.End() < WORD)
      && (AllRead(more) && AllFit(more) <==> BelowEnd(kernels) && k.End() <= WORD)
      && (BelowEnd(kernels) ==> AllRead(kernels) && AllFit(kernels))
  {
    var more := kernels + [k];
    assert forall i :: 0 <= i < |kernels| ==> more[i] == kernels[i] && more[i] in more;
    assert more[|kernels|] == k;
  }

  /** The kernels of a run are read and fit exactly if its turns are clean. */
  lemma {:induction false} CleanKernels(c: Config, intensity: nat, turns: seq<Turn>)
    requires intensity <= MAX_INTENSITY && c.minthreads > 0
    ensures var ks := Mined(c, intensity, turns).kernels; AllRead(ks) && AllFit(ks) <==> Clean(c, intensity, turns)
  {
    if |turns| == 0 {
    } else {
      hide *;
      var front := turns[..|turns| - 1];
      CleanKernels(c, intensity, front);
      CleanNext(c, intensity, turns);
      MinedReach(c, intensity, front);
      if !Live(c, intensity, front) {
        NotReached(c, intensity, turns);
      } else {
        CleanReached(c, intensity, turns);
      }
    }
  }

  lemma {:induction false} NotReached(c: Config, intensity: nat, turns: seq<Turn>)
    requires intensity <= MAX_INTENSITY && |turns| > 0 && !Live(c, intensity, turns[..|turns| - 1])
    requires !Mined(c, intensity, turns[..|turns| - 1]).going
    ensures !Live(c, intensity, turns)
    ensures Mined(c, intensity, turns) == Mined(c, intensity, turns[..|turns| - 1]) && Fits(c, intensity, turns)
  {
    hide Reach, Width, NoneLost, Progress.After, Place;
  }

  lemma {:induction false} CleanReached(c: Config, intensity: nat, turns: seq<Turn>)
    requires intensity <= MAX_INTENSITY && c.minthreads > 0 && |turns| > 0 && Live(c, intensity, turns[..|turns| - 1])
    ensures var front := turns[..|turns| - 1];
      var ks, more := Mined(c, intensity, front).kernels, Mined(c, intensity, turns).kernels;
      (AllRead(more) && AllFit(more) ==> AllRead(ks) && AllFit(ks))
      && (AllRead(ks) && AllFit(ks) ==> (AllRead(more) && AllFit(more) <==> Fits(c, intensity, turns)))
  {
    hide *;
    var front, turn := turns[..|turns| - 1], turns[|turns| - 1];
    var p, w, reach := Mined(c, intensity, front), Width(c, intensity, turns), Reach(c, intensity, front);
    MinedReach(c, intensity, front);
    LastTurn(c, intensity, turns);
    TellsFront(c, intensity, front);
    TellsIs(c, intensity, front, p);
    AfterIs(p, c, turn, w);
    FitsIs(c, intensity, turns);
    PlaceIs(c, intensity, front);
    var k := Kernel(p.nonce, w, turn.outcome.Moved());
    if turn.outcome.Started() {
      MinedShows(c, intensity, front);
      assert Mined(c, intensity, turns).kernels == p.kernels + [k];
      KernelsMore(reach, front, p.kernels, k);
    } else {
      assert Mined(c, intensity, turns).kernels == p.kernels;
    }
  }

  /** No nonce is worked on twice exactly if the turns are clean. */
  lemma CleanExactly(c: Config, intensity: nat, turns: seq<Turn>)
    requires intensity <= MAX_INTENSITY
    ensures NoRepeat(Mined(c, intensity, turns).kernels) <==> c.minthreads == 0 || Clean(c, intensity, turns)
  {
    hide *;
    MinedSound(c, intensity, turns);
    RepeatsExactly(Mined(c, intensity, turns), c);
    if c.minthreads > 0 {
      CleanKernels(c, intensity, turns);
    }
  }

  lemma TellsIs(c: Config, intensity: nat, turns: seq<Turn>, p: Progress)
    requires intensity <= MAX_INTENSITY
    ensures Tells(c, intensity, turns, p) <==>
      p.intensity == Setting(c, intensity, turns) && p.maxHashes == Most(c, intensity, turns)
      && p.nonce == Place(c, intensity, turns)
  {
    hide Setting, Most, Reach;
  }

  lemma FitsIs(c: Config, intensity: nat, turns: seq<Turn>)
    requires intensity <= MAX_INTENSITY && |turns| > 0
    ensures var front, turn := turns[..|turns| - 1], turns[|turns| - 1];
      Fits(c, intensity, turns) <==> (Live(c, intensity, front) && turn.outcome.Started() ==>
        Reach(c, intensity, front) + Width(c, intensity, turns) <= WORD && NoneLost(front))
  {
    hide Live, Reach, Width, NoneLost;
  }

  /** One more kernel, with at least one thread. */
  lemma {:induction false} KernelsMore(reach: nat, turns: seq<Turn>, kernels: seq<Kernel>, k: Kernel)
    requires Shown(reach, turns, kernels) && k.start == reach % WORD && k.width > 0
    ensures var more := kernels + [k];
      && (AllRead(more) && AllFit(more) ==> AllRead(kernels) && AllFit(kernels))
      && (AllRead(more) && AllFit(more) <==> reach + k.width <= WORD && NoneLost(turns))
  {
    ReadNext(kernels, k);
    ModAdd(reach, 0);
    hide AllRead, AllFit, NoneLost;
    if reach + k.width <= WORD && NoneLost(turns) {
      assert BelowEnd(kernels);
    }
  }

  /** Dynamic intensity is off, or it does not go up. */
  predicate NeverRaised(c: Config, turns: seq<Turn>) {
    !c.dynamic || forall t <- turns :: t.drift != Raise
  }

  /** What holds while no intensity is raised: no scan is wider than one before. */
  ghost predicate Narrowing(p: Progress, c: Config)
    requires p.intensity <= MAX_INTENSITY
  {
    && (p.maxHashes >= c.Threads(p.intensity) || p.nonce == 0)
    && forall k <- p.kernels :: k.End() < WORD
  }

  lemma {:induction false} NarrowingAfter(p: Progress, c: Config, turn: Turn)
    requires p.intensity <= MAX_INTENSITY && p.going && (p.nonce + p.maxHashes < MAXTHREADS) && Narrowing(p, c)
    requires c.dynamic ==> turn.drift != Raise
    ensures Narrowing(p.After(c, turn), c)
  {
    hide Config.Threads, Config.Settled;
    var from := c.Adjusted(p.intensity, turn.drift);
    c.Idempotent(from);
    if from < p.intensity {
      c.LowerNarrows(p.intensity);
    }
  }

  lemma {:induction false} NeverRaisedFits(c: Config, intensity: nat, turns: seq<Turn>)
    requires intensity <= MAX_INTENSITY && NeverRaised(c, turns)
    ensures Narrowing(Mined(c, intensity, turns), c) && AllFit(Mined(c, intensity, turns).kernels)
  {
    hide Progress.After, Config.Threads;
    if |turns| == 0 {
    } else {
      var p := Mined(c, intensity, turns[..|turns| - 1]);
      NeverRaisedFits(c, intensity, turns[..|turns| - 1]);
      MinedSound(c, intensity, turns[..|turns| - 1]);
      if p.going {
        NarrowingAfter(p, c, turns[|turns| - 1]);
      }
    }
  }

  /** Scans of one width, each of them behind the one before, or at the same nonces if that one was lost. */
  ghost predicate InOrder(p: Progress, width: nat) {
    && (p.maxHashes == width || p.maxHashes == p.nonce == 0)
    && (p.kernels == [] ==> p.nonce == 0)
    && (forall i :: 0 <= i < |p.kernels| ==>
          && p.kernels[i].width == width
          && p.kernels[i].start + width < WORD
          && p.kernels[i].start + (if p.kernels[i].read then width else 0) == p.NextOf(i))
  }

  lemma {:induction false} InOrderAfter(p: Progress, c: Config, turn: Turn, width: nat)
    requires p.intensity <= MAX_INTENSITY && p.going && p.nonce + p.maxHashes < MAXTHREADS
    requires InOrder(p, width) && width == c.Threads(p.intensity) && !c.dynamic
    ensures InOrder(p.After(c, turn), width)
  {
    AfterSteady(p, c, turn, width);
    hide Progress.After;
    var q := p.After(c, turn);
    forall i | 0 <= i < |p.kernels|
      ensures q.kernels[i] == p.kernels[i] && p.NextOf(i) == q.NextOf(i)
    {
    }
  }

  lemma {:induction false} AfterSteady(p: Progress, c: Config, turn: Turn, width: nat)
    requires p.intensity <= MAX_INTENSITY && p.nonce + p.maxHashes < MAXTHREADS
    requires (p.maxHashes == width || p.maxHashes == p.nonce == 0) && width == c.Threads(p.intensity) && !c.dynamic
    ensures var q, o := p.After(c, turn), turn.outcome;
      && p.nonce + width < WORD && q.maxHashes == width && q.nonce == p.nonce + (if o.Moved() then width else 0)
      && q.kernels == p.kernels + if o.Started() then [Kernel(p.nonce, width, o.Moved())] else []
  {
    hide Config.Threads, Config.Settled;
    SmallMod(p.nonce + width, WORD);
  }

  /** Without dynamic intensity all scans of an item have one width, and which nonces they work on is known. */
  lemma {:induction false} MinedInOrder(c: Config, intensity: nat, turns: seq<Turn>)
    requires intensity <= MAX_INTENSITY && !c.dynamic
    ensures var p := Mined(c, intensity, turns);
      InOrder(p, c.Threads(intensity)) && c.Threads(p.intensity) == c.Threads(intensity)
  {
    hide Progress.After, Config.Threads, InOrder;
    if |turns| == 0 {
      FirstInOrder(intensity, c.Threads(intensity));
    } else {
      var p := Mined(c, intensity, turns[..|turns| - 1]);
      MinedInOrder(c, intensity, turns[..|turns| - 1]);
      MinedSound(c, intensity, turns[..|turns| - 1]);
      if p.going {
        InOrderAfter(p, c, turns[|turns| - 1], c.Threads(intensity));
        AfterFixed(p, c, turns[|turns| - 1]);
      }
    }
  }

  lemma FirstInOrder(intensity: nat, width: nat)
    ensures InOrder(Progress([], intensity, 0, 0, true), width)
  {
  }

  lemma AfterFixed(p: Progress, c: Config, turn: Turn)
    requires p.intensity <= MAX_INTENSITY && !c.dynamic
    ensures c.Threads(p.After(c, turn).intensity) == c.Threads(p.intensity)
  {
    hide Config.Threads, Config.Settled;
    c.Idempotent(p.intensity);
  }

  /** Raising the intensity can lead to the end exactly, and then all nonces are worked on again. */
  lemma {:induction false} RaisedRepeats(shaders: word)
    ensures var c := Config(true, shaders, 256, 0, 0);
      Mined(c, 30, [Plain(Keep), Plain(Keep), Plain(Raise), Plain(Keep)]).kernels
        == [Kernel(0, HALF / 2, true), Kernel(HALF / 2, HALF / 2, true),
            Kernel(HALF, HALF, true), Kernel(0, HALF, true)]
  {
    hide Mined, Config.Threads, Config.Settled, Pow2;
    var c := Config(true, shaders, 256, 0, 0);
    var two, ks := [Plain(Keep), Plain(Keep)], [Kernel(0, HALF / 2, true), Kernel(HALF / 2, HALF / 2, true)];
    var three, ks' := two + [Plain(Raise)], ks + [Kernel(HALF, HALF, true)];
    Highest(c);
    MinedNone(c, 30, two);
    assert two[..0] == [] && [Plain(Keep)] == [] + [Plain(Keep)] && [ks[0]] == [] + [ks[0]];
    MinedPlain(c, [], Keep, Progress([], 30, 0, 0, true), HALF / 2, HALF / 2);
    MinedPlain(c, [Plain(Keep)], Keep, Progress([ks[0]], 30, HALF / 2, HALF / 2, true), HALF / 2, HALF);
    assert two == [Plain(Keep)] + [Plain(Keep)] && ks == [ks[0]] + [Kernel(HALF / 2, HALF / 2, true)];
    MinedPlain(c, two, Raise, Progress(ks, 30, HALF / 2, HALF, true), HALF, 0);
    MinedPlain(c, three, Keep, Progress(ks', 31, HALF, 0, true), HALF, HALF);
    assert three + [Plain(Keep)] == [Plain(Keep), Plain(Keep), Plain(Raise), Plain(Keep)];
  }

  /** A scan that goes well, at one of the two highest intensities. */
  lemma {:induction false} MinedPlain(c: Config, turns: seq<Turn>, drift: Drift, p: Progress, width: nat, next: nat)
    requires Mined(c, 30, turns) == p && p.going && p.intensity <= MAX_INTENSITY
    requires var i := c.Adjusted(p.intensity, drift); c.Threads(i) == width && c.Settled(i) == i
    requires p.maxHashes <= width && next == (p.nonce + width) % WORD
    ensures Mined(c, 30, turns + [Plain(drift)]) == Progress(
      p.kernels + [Kernel(p.nonce, width, true)], c.Adjusted(p.intensity, drift), width, next,
      next + width < MAXTHREADS
    )
  {
    hide Config.Threads, Config.Settled, Config.Adjusted;
    assert (turns + [Plain(drift)])[..|turns|] == turns;
  }

  const HALF: nat := 0x8000_0000

  function Plain(drift: Drift): Turn {
    Turn(drift, Done, false)
  }

  lemma Highest(c: Config)
    requires c.xintensity == c.rawintensity == 0 && 0 < c.minthreads <= HALF / 2
    ensures c.Threads(30) == HALF / 2 && c.Threads(31) == HALF && c.Settled(30) == 30 && c.Settled(31) == 31
  {
    Pow2Highest();
    assert Pow2(31) == 2 * Pow2(30);
  }

  /** The quotient of C, which rounds towards zero. */
  function TruncatedQuotient(a: int, b: int): int
    requires b > 0
  {
    if a >= 0 then a / b else -(-a / b)
  }

  /** A scan that failed is not told from one that did nothing. */
  lemma FailureUnseen(result: int)
    requires result >= -1
    ensures 0 <= TruncatedQuotient(result, 8) <= if result < 0 then 0 else result
  {
    if result >= 0 {
      QuotientSmall(result, 8);
    }
  }
}
