/** The ntime offsets clone_work and clone_available hand out, over any sequence of calls on one master. */
module Rolling {
  import opened Sequences
  import opened Division

  const NTIME_RANGE: nat := 0x1_0000_0000
  const MAX_ROLLS: nat := 7000

  /** The 32-bit ntime field of a block header. */
  type Ntime32 = n: nat | n < NTIME_RANGE

  /** The bytes of work->data, as numbers, with the ntime from byte 68 on. */
  type Digit = d: nat | d < 256
  type Header = s: seq<Digit> | |s| == 128 witness seq(128, _ => 0)
  const NTIME_AT: nat := 68

  /** be32toh of four bytes. */
  function Be32(b: seq<Digit>): (n: Ntime32)
    requires |b| == 4
  {
    ((b[0] as int * 256 + b[1]) * 256 + b[2]) * 256 + b[3]
  }

  /** htobe32. */
  function Bytes32(n: Ntime32): (b: seq<Digit>)
    ensures |b| == 4
  {
    [n / 256 / 256 / 256, n / 256 / 256 % 256, n / 256 % 256, n % 256]
  }

  /** What is stored is what is read again. */
  lemma BytesRead(n: Ntime32)
    ensures Be32(Bytes32(n)) == n
  {
  }

  /** Only the bytes at the ntime count for it. */
  lemma StoreTime(data: Header, n: Ntime32)
    ensures var stored := data[..NTIME_AT] + Bytes32(n) + data[NTIME_AT + 4..];
      && |stored| == 128 && Be32(stored[NTIME_AT..NTIME_AT + 4]) == n
      && stored[..NTIME_AT] == data[..NTIME_AT] && stored[NTIME_AT + 4..] == data[NTIME_AT + 4..]
  {
    BytesRead(n);
    hide Be32, Bytes32;
    var stored := data[..NTIME_AT] + Bytes32(n) + data[NTIME_AT + 4..];
    assert stored[NTIME_AT..NTIME_AT + 4] == Bytes32(n);
  }

  /** One call: how many times clone_work went round its loop, or a successful clone_available. */
  datatype Call = CloneWork(rounds: nat) | CloneAvailable

  /** How far a call moves the master's ntime. */
  function Advance(c: Call): nat {
    match c
    case CloneWork(rounds) => 2 * rounds
    case CloneAvailable => 2
  }

  /**
   * The ntime offsets, from the master's before the call, of the clones a call stages or returns. clone_work
   * makes its first clone before rolling; every later one is made between the two rolls of a round.
   */
  function Handed(c: Call): seq<nat> {
    match c
    case CloneWork(rounds) => if rounds == 0 then [] else [0] + OddsBelow(rounds)
    case CloneAvailable => [1]
  }

  /** 1, 3, .., 2n - 1. */
  function OddsBelow(n: nat): (r: seq<nat>)
    ensures |r| == n && forall i :: 0 <= i < n ==> r[i] == 2 * i + 1
  {
    seq(n, i requires 0 <= i < n => 2 * i + 1)
  }

  function Shift(s: seq<nat>, d: nat): (r: seq<nat>)
    ensures |r| == |s| && forall i :: 0 <= i < |s| ==> r[i] == s[i] + d
  {
    seq(|s|, i requires 0 <= i < |s| => s[i] + d)
  }

  /** The master's offset after a sequence of calls. */
  function Offset(cs: seq<Call>): nat {
    if |cs| == 0 then 0 else Offset(cs[..|cs| - 1]) + Advance(cs[|cs| - 1])
  }

  /** Every offset handed out by a sequence of calls. */
  function AllHanded(cs: seq<Call>): seq<nat> {
    if |cs| == 0 then []
    else AllHanded(cs[..|cs| - 1]) + Shift(Handed(cs[|cs| - 1]), Offset(cs[..|cs| - 1]))
  }

  lemma HandedOnce(c: Call)
    ensures Distinct(Handed(c)) && forall i :: 0 <= i < |Handed(c)| ==> Handed(c)[i] < Advance(c)
  {
  }

  /** Clones never collide: each call hands out offsets the master has passed and no earlier call has used. */
  lemma {:induction false} OffsetsDistinct(cs: seq<Call>)
    ensures Distinct(AllHanded(cs)) && forall i :: 0 <= i < |AllHanded(cs)| ==> AllHanded(cs)[i] < Offset(cs)
  {
    if |cs| == 0 {
    } else {
      OffsetsDistinct(cs[..|cs| - 1]);
      HandedOnce(cs[|cs| - 1]);
    }
  }

  function Ntime(start: nat, offset: nat): Ntime32 {
    (start + offset) % NTIME_RANGE
  }

  /** Incrementing the 32-bit field is moving one offset on. */
  lemma NtimeStep(start: nat, offset: nat)
    ensures Ntime(start, offset + 1) == (Ntime(start, offset) + 1) % NTIME_RANGE
  {
    var q := (start + offset) / NTIME_RANGE;
    assert start + offset == NTIME_RANGE * q + Ntime(start, offset);
    assert start + offset + 1 == NTIME_RANGE * q + (Ntime(start, offset) + 1);
  }

  lemma NtimeStart(start: nat)
    requires start < NTIME_RANGE
    ensures Ntime(start, 0) == start
  {
  }

  lemma NtimeAdd(start: nat, a: nat, b: nat)
    ensures Ntime(Ntime(start, a), b) == Ntime(start, a + b)
  {
    var q := (start + a) / NTIME_RANGE;
    assert start + a == NTIME_RANGE * q + Ntime(start, a);
    var p := (Ntime(start, a) + b) / NTIME_RANGE;
    assert start + a + b == NTIME_RANGE * (q + p) + Ntime(Ntime(start, a), b);
  }

  lemma NtimeInjective(start: nat, a: nat, b: nat)
    requires a < b < a + NTIME_RANGE
    ensures Ntime(start, a) != Ntime(start, b)
  {
    var qa, qb := (start + a) / NTIME_RANGE, (start + b) / NTIME_RANGE;
    assert start + a == NTIME_RANGE * qa + Ntime(start, a);
    assert start + b == NTIME_RANGE * qb + Ntime(start, b);
  }

  /** All the clones and the master at the end have pairwise distinct 32-bit ntimes. */
  lemma NtimesDistinct(start: nat, cs: seq<Call>)
    requires Offset(cs) < NTIME_RANGE
    ensures var h := AllHanded(cs);
      && (forall i, j :: 0 <= i < j < |h| ==> Ntime(start, h[i]) != Ntime(start, h[j]))
      && (forall i :: 0 <= i < |h| ==> Ntime(start, h[i]) != Ntime(start, Offset(cs)))
  {
    OffsetsDistinct(cs);
    var h := AllHanded(cs);
    forall i, j | 0 <= i < j < |h|
      ensures Ntime(start, h[i]) != Ntime(start, h[j])
    {
      if h[i] < h[j] {
        NtimeInjective(start, h[i], h[j]);
      } else {
        NtimeInjective(start, h[j], h[i]);
      }
    }
    forall i | 0 <= i < |h|
      ensures Ntime(start, h[i]) != Ntime(start, Offset(cs))
    {
      NtimeInjective(start, h[i], Offset(cs));
    }
  }

  /** Every round of every call started with fewer than 7000 rolls. */
  ghost predicate Allowed(rolls: nat, cs: seq<Call>) {
    forall i :: 0 <= i < |cs| && Advance(cs[i]) > 0 ==> rolls + Offset(cs[..i]) + Advance(cs[i]) - 2 < MAX_ROLLS
  }

  /** The guard of can_roll bounds the rolls of a master: 7001 at most, and 7000 when it starts even. */
  lemma {:induction false} RollsBounded(rolls: nat, cs: seq<Call>)
    requires rolls <= MAX_ROLLS && Allowed(rolls, cs)
    ensures rolls + Offset(cs) <= MAX_ROLLS + 1
    ensures rolls % 2 == 0 ==> rolls + Offset(cs) <= MAX_ROLLS && (rolls + Offset(cs)) % 2 == 0
  {
    if |cs| == 0 {
    } else {
      var front := cs[..|cs| - 1];
      forall i | 0 <= i < |front| && Advance(front[i]) > 0
        ensures rolls + Offset(front[..i]) + Advance(front[i]) - 2 < MAX_ROLLS
      {
        assert front[..i] == cs[..i] && front[i] == cs[i];
      }
      RollsBounded(rolls, front);
      var last := cs[|cs| - 1];
      if Advance(last) > 0 {
        assert rolls + Offset(cs[..|cs| - 1]) + Advance(last) - 2 < MAX_ROLLS;
      }
    }
  }

  /** What the two give together: a master that starts unrolled never repeats an ntime. */
  lemma MasterNeverRepeats(start: nat, cs: seq<Call>)
    requires Allowed(0, cs)
    ensures Offset(cs) <= MAX_ROLLS
    ensures var h := AllHanded(cs);
      && (forall i, j :: 0 <= i < j < |h| ==> Ntime(start, h[i]) != Ntime(start, h[j]))
      && (forall i :: 0 <= i < |h| ==> Ntime(start, h[i]) != Ntime(start, Offset(cs)))
  {
    RollsBounded(0, cs);
    NtimesDistinct(start, cs);
  }

  /** The ntimes a sequence of calls has handed out of a master that had some ntime and rolls at the start. */
  ghost predicate Tracks(start: nat, rolls: nat, cs: seq<Call>, handed: seq<nat>) {
    Allowed(rolls, cs)
    && |handed| == |AllHanded(cs)| && forall i :: 0 <= i < |handed| ==> handed[i] == Ntime(start, AllHanded(cs)[i])
  }

  lemma TrackNone(start: nat, rolls: nat)
    ensures Tracks(start, rolls, [], []) && Offset([]) == 0
  {
  }

  /** One more call, whose offsets count from where the master is by then. */
  lemma {:induction false} Track(start: nat, rolls: nat, cs: seq<Call>, handed: seq<nat>, c: Call, more: seq<nat>)
    requires Tracks(start, rolls, cs, handed)
    requires Advance(c) > 0 ==> rolls + Offset(cs) + Advance(c) - 2 < MAX_ROLLS
    requires |more| == |Handed(c)|
    requires forall i :: 0 <= i < |more| ==> more[i] == Ntime(Ntime(start, Offset(cs)), Handed(c)[i])
    ensures Tracks(start, rolls, cs + [c], handed + more) && Offset(cs + [c]) == Offset(cs) + Advance(c)
  {
    hide Ntime, Handed, Advance, Allowed;
    var on := cs + [c];
    assert on[..|on| - 1] == cs;
    forall i | 0 <= i < |more|
      ensures more[i] == Ntime(start, Offset(cs) + Handed(c)[i])
    {
      NtimeAdd(start, Offset(cs), Handed(c)[i]);
    }
    AllowMore(rolls, cs, c);
    assert AllHanded(on) == AllHanded(cs) + Shift(Handed(c), Offset(cs));
    hide Offset, AllHanded, Shift;
  }

  /** What a tracked run promises: the roll limit is kept and, from no rolls, no ntime is ever used twice. */
  lemma TracksBounded(start: nat, rolls: nat, cs: seq<Call>, handed: seq<nat>)
    requires rolls <= MAX_ROLLS && Tracks(start, rolls, cs, handed)
    ensures rolls + Offset(cs) <= MAX_ROLLS + 1
    ensures rolls == 0 ==> Distinct(handed + [Ntime(start, Offset(cs))])
  {
    hide Allowed, Offset, AllHanded, Ntime;
    RollsBounded(rolls, cs);
    if rolls == 0 {
      MasterNeverRepeats(start, cs);
      var all := handed + [Ntime(start, Offset(cs))];
      forall i, j | 0 <= i < j < |all|
        ensures all[i] != all[j]
      {
        assert all[i] == Ntime(start, AllHanded(cs)[i]);
      }
    }
  }

  lemma {:induction false} AllowMore(rolls: nat, cs: seq<Call>, c: Call)
    requires Allowed(rolls, cs) && (Advance(c) > 0 ==> rolls + Offset(cs) + Advance(c) - 2 < MAX_ROLLS)
    ensures Allowed(rolls, cs + [c])
  {
    var on := cs + [c];
    forall i | 0 <= i < |on| && Advance(on[i]) > 0
      ensures rolls + Offset(on[..i]) + Advance(on[i]) - 2 < MAX_ROLLS
    {
      assert on[..i] == cs[..i];
      if i == |cs| {
        assert cs[..i] == cs;
      } else {
        assert on[i] == cs[i];
      }
    }
    hide Offset, Advance;
  }
}
