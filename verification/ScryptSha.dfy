/** The second SHA-256 compression of the repository: the rotating-index form of scrypt.c. */
module ScryptSha {
  import opened Words
  import opened Fips180
  import opened Division
  import Sha2

  /** The forms of Ch and Maj scrypt.c uses, with one operation fewer each. */
  function ChAlt(x: word, y: word, z: word): word { (x & (y ^ z)) ^ z }
  function MajAlt(x: word, y: word, z: word): word { (x & (y | z)) | (y & z) }

  lemma ChForms(x: word, y: word, z: word)
    ensures ChAlt(x, y, z) == Ch(x, y, z)
  {
    assert (x & (y ^ z)) ^ z == (x & y) ^ (!x & z);
  }

  lemma MajForms(x: word, y: word, z: word)
    ensures MajAlt(x, y, z) == Maj(x, y, z)
  {
    assert (x & (y | z)) | (y & z) == ((x & y) ^ (x & z)) ^ (y & z);
  }

  lemma SumSwap(a: word, b: word, c: word, k: word, w: word)
    ensures Sum5(a, b, c, w, k) == Sum5(a, b, c, k, w)
  {
  }

  /** Index (64 - i + j) % 8 of the RNDr macro. */
  function RotIndex(i: nat, j: nat): (r: nat)
    requires i <= 64 && j < 8
    ensures r < 8
  {
    (64 - i + j) % 8
  }

  /** j places after b on a ring of eight. */
  function RingAdd(b: nat, j: nat): (r: nat)
    requires b < 8 && j < 8
    ensures r < 8
  {
    if b + j < 8 then b + j else b + j - 8
  }

  lemma RotIndexRing(i: nat, j: nat)
    requires i <= 64 && j < 8
    ensures RotIndex(i, j) == RingAdd(RotIndex(i, 0), j)
  {
    var q, b := (64 - i) / 8, (64 - i) % 8;
    DivMod(64 - i, 8);
    if b + j < 8 {
      DivUnique(64 - i + j, 8, q, b + j);
    } else {
      DivUnique(64 - i + j, 8, q + 1, b + j - 8);
    }
  }

  lemma RotIndexStep(i: nat)
    requires i < 64
    ensures RotIndex(i + 1, 0) == RingAdd(RotIndex(i, 0), 7)
  {
    var q, b := (64 - i) / 8, (64 - i) % 8;
    DivMod(64 - i, 8);
    if b > 0 {
      DivUnique(64 - (i + 1), 8, q, b - 1);
    } else {
      DivUnique(64 - (i + 1), 8, q - 1, 7);
    }
  }

  /** The rotating array s holds the working variables v of round i. */
  ghost predicate Rotated(s: State, v: State, i: nat)
    requires i <= 64
  {
    forall j :: 0 <= j < 8 ==> s[RingAdd(RotIndex(i, 0), j)] == v[j]
  }

  /** Writing two slots of the ring is one round: nothing else moves. */
  lemma RotateStep(s: State, s': State, v: State, i: nat, t1: word, t2: word)
    requires i < 64 && Rotated(s, v, i)
    requires s' == s[RotIndex(i, 3) := Add32(v[3], t1)][RotIndex(i, 7) := Add32(t1, t2)]
    ensures Rotated(s', [Add32(t1, t2), v[0], v[1], v[2], Add32(v[3], t1), v[4], v[5], v[6]], i + 1)
  {
    hide RingAdd, RotIndex, Add32;
    RotIndexRing(i, 3);
    RotIndexRing(i, 7);
    RotIndexStep(i);
    RingStep(s, s', v, RotIndex(i, 0), Add32(v[3], t1), Add32(t1, t2));
  }

  lemma RingStep(s: State, s': State, v: State, b: nat, d: word, h: word)
    requires b < 8 && forall j :: 0 <= j < 8 ==> s[RingAdd(b, j)] == v[j]
    requires s' == s[RingAdd(b, 3) := d][RingAdd(b, 7) := h]
    ensures forall j :: 0 <= j < 8 ==> s'[RingAdd(RingAdd(b, 7), j)] == [h, v[0], v[1], v[2], d, v[4], v[5], v[6]][j]
  {
    hide RingAdd;
    forall j | 0 <= j < 8
      ensures s'[RingAdd(RingAdd(b, 7), j)] == [h, v[0], v[1], v[2], d, v[4], v[5], v[6]][j]
    {
      RingBack(b, j);
      if j > 0 {
        assert s[RingAdd(b, j - 1)] == v[j - 1];
      }
    }
  }

  lemma RingBack(b: nat, j: nat)
    requires b < 8 && j < 8
    ensures RingAdd(RingAdd(b, 7), j) == if j == 0 then RingAdd(b, 7) else RingAdd(b, j - 1)
    ensures RingAdd(b, j) == RingAdd(b, 7) ==> j == 7
    ensures RingAdd(b, j) == RingAdd(b, 3) ==> j == 3
    ensures j > 0 && RingAdd(b, j - 1) == RingAdd(b, 3) ==> j == 4
    ensures j > 0 ==> RingAdd(b, j - 1) != RingAdd(b, 7)
  {
  }

  /** The RNDr macro. */
  method RoundRotating(s: array<word>, w: array<word>, i: nat, k: word, ghost v: State)
    requires s.Length == 8 && w.Length == 64 && s != w && i < 64
    requires Rotated(s[..], v, i)
    modifies s
    ensures Rotated(s[..], Round(v, k, w[i]), i + 1)
  {
    hide Add32, Sum5, BigSigma0, BigSigma1, Ch, ChAlt, Maj, MajAlt, RotIndex;
    RingSlots(s[..], v, i);
    ghost var before := s[..];
    var t0 := Sum5(s[RotIndex(i, 7)], BigSigma1(s[RotIndex(i, 4)]),
                   ChAlt(s[RotIndex(i, 4)], s[RotIndex(i, 5)], s[RotIndex(i, 6)]), w[i], k);
    var t1 := Add32(BigSigma0(s[RotIndex(i, 0)]), MajAlt(s[RotIndex(i, 0)], s[RotIndex(i, 1)], s[RotIndex(i, 2)]));
    TempForms(v, k, w[i]);
    s[RotIndex(i, 3)] := Add32(s[RotIndex(i, 3)], t0);
    s[RotIndex(i, 7)] := Add32(t0, t1);
    assert s[..] == before[RotIndex(i, 3) := Add32(v[3], t0)][RotIndex(i, 7) := Add32(t0, t1)];
    RotateStep(before, s[..], v, i, t0, t1);
  }

  lemma RingSlots(s: State, v: State, i: nat)
    requires i < 64 && Rotated(s, v, i)
    ensures s[RotIndex(i, 0)] == v[0] && s[RotIndex(i, 1)] == v[1] && s[RotIndex(i, 2)] == v[2]
    ensures s[RotIndex(i, 3)] == v[3] && s[RotIndex(i, 4)] == v[4] && s[RotIndex(i, 5)] == v[5]
    ensures s[RotIndex(i, 6)] == v[6] && s[RotIndex(i, 7)] == v[7]
  {
    RotIndexRing(i, 0);
    RotIndexRing(i, 1);
    RotIndexRing(i, 2);
    RotIndexRing(i, 3);
    RotIndexRing(i, 4);
    RotIndexRing(i, 5);
    RotIndexRing(i, 6);
    RotIndexRing(i, 7);
    hide RotIndex, RingAdd;
  }

  /** scrypt.c's T1 and T2 are those of FIPS 180-4. */
  lemma TempForms(v: State, k: word, w: word)
    ensures Sum5(v[7], BigSigma1(v[4]), ChAlt(v[4], v[5], v[6]), w, k)
         == Temp1(v[4], v[5], v[6], v[7], k, w)
    ensures Add32(BigSigma0(v[0]), MajAlt(v[0], v[1], v[2])) == Temp2(v[0], v[1], v[2])
  {
    hide Add32, Sum5, BigSigma0, BigSigma1, Ch, ChAlt, Maj, MajAlt;
    ChForms(v[4], v[5], v[6]);
    MajForms(v[0], v[1], v[2]);
    SumSwap(v[7], BigSigma1(v[4]), Ch(v[4], v[5], v[6]), k, w);
  }

  /** The constants of the 64 RNDr lines, in the order they are written. */
  const RNDR_CONSTANTS: seq<word> :=
    ((([0x428a2f98, 0x71374491, 0xb5c0fbcf, 0xe9b5dba5, 0x3956c25b, 0x59f111f1, 0x923f82a4, 0xab1c5ed5] +
       [0xd807aa98, 0x12835b01, 0x243185be, 0x550c7dc3, 0x72be5d74, 0x80deb1fe, 0x9bdc06a7, 0xc19bf174]) +
      ([0xe49b69c1, 0xefbe4786, 0x0fc19dc6, 0x240ca1cc, 0x2de92c6f, 0x4a7484aa, 0x5cb0a9dc, 0x76f988da] +
       [0x983e5152, 0xa831c66d, 0xb00327c8, 0xbf597fc7, 0xc6e00bf3, 0xd5a79147, 0x06ca6351, 0x14292967])) +
     (([0x27b70a85, 0x2e1b2138, 0x4d2c6dfc, 0x53380d13, 0x650a7354, 0x766a0abb, 0x81c2c92e, 0x92722c85] +
       [0xa2bfe8a1, 0xa81a664b, 0xc24b8b70, 0xc76c51a3, 0xd192e819, 0xd6990624, 0xf40e3585, 0x106aa070]) +
      ([0x19a4c116, 0x1e376c08, 0x2748774c, 0x34b0bcb5, 0x391c0cb3, 0x4ed8aa4a, 0x5b9cca4f, 0x682e6ff3] +
       [0x748f82ee, 0x78a5636f, 0x84c87814, 0x8cc70208, 0x90befffa, 0xa4506ceb, 0xbef9a3f7, 0xc67178f2])))

  lemma SameConstants()
    ensures RNDR_CONSTANTS == K
  {
  }

  /** The words SHA256_Transform reads: swapped to host order or taken as they are. */
  function Input(block: seq<word>, swap: bool): (r: seq<word>)
    ensures |r| == |block|
  {
    if swap then SwabAll(block) else block
  }

  /** Step 1, first half: htobe32 of every word, or memcpy. */
  method LoadWords(w: array<word>, block: array<word>, off: nat, swap: bool)
    requires w.Length == 64 && off + 16 <= block.Length && w != block
    modifies w
    ensures w[..16] == Input(block[off..off + 16], swap)
  {
    hide Swab32;
    if swap {
      for i := 0 to 16
        invariant forall j :: 0 <= j < i ==> w[j] == Swab32(block[off + j])
      {
        w[i] := Swab32(block[off + i]);
      }
    } else {
      for i := 0 to 16
        invariant forall j :: 0 <= j < i ==> w[j] == block[off + j]
      {
        w[i] := block[off + i];
      }
    }
  }

  /** One iteration of the expansion. */
  method ExpandPair(w: array<word>, i: nat, ghost b: Block)
    requires w.Length == 64 && 16 <= i <= 62 && w[..i] == Schedule(b, i)
    modifies w
    ensures w[..i + 2] == Schedule(b, i + 2)
  {
    hide *;
    ghost var s := w[..i];
    w[i] := Add32(Add32(Add32(SmallSigma1(w[i - 2]), w[i - 7]), SmallSigma0(w[i - 15])), w[i - 16]);
    ghost var s' := w[..i + 1];
    assert s'[..i] == s;
    OneWordMore(b, s', i);
    w[i + 1] := Add32(Add32(Add32(SmallSigma1(w[i - 1]), w[i - 6]), SmallSigma0(w[i - 14])), w[i - 15]);
    ghost var s'' := w[..i + 2];
    assert s''[..i + 1] == s';
    OneWordMore(b, s'', i + 1);
  }

  /** Step 1, second half: the schedule, two words an iteration. */
  method ExpandByTwo(w: array<word>)
    requires w.Length == 64
    modifies w
    ensures w[..] == Schedule(old(w[..16]), 64)
  {
    ghost var b := w[..16];
    assert Schedule(b, 16) == b;
    hide *;
    var i := 16;
    ghost var pairs := 0;
    while i < 64
      invariant i == 16 + 2 * pairs && pairs <= 24
      invariant w[..i] == Schedule(b, i)
    {
      ExpandPair(w, i, b);
      i := i + 2;
      pairs := pairs + 1;
    }
    assert w[..] == w[..64];
  }

  /** Steps 2 and 3: the working array and the 64 RNDr lines, which never move a word. */
  method MixRotating(s: array<word>, w: array<word>)
    requires s.Length == 8 && w.Length == 64 && s != w
    modifies s
    ensures s[..] == Rounds(old(s[..]), w[..], 64)
  {
    hide Round, RotIndex;
    SameConstants();
    ghost var h := s[..];
    RotStart(h);
    for i := 0 to 64
      invariant Rotated(s[..], Rounds(h, w[..], i), i)
    {
      RoundRotating(s, w, i, RNDR_CONSTANTS[i], Rounds(h, w[..], i));
    }
    RotEnd(s[..], Rounds(h, w[..], 64));
  }

  lemma RotStart(h: State)
    ensures Rotated(h, h, 0)
  {
    assert RotIndex(0, 0) == 0;
  }

  lemma RotEnd(s: State, v: State)
    requires Rotated(s, v, 64)
    ensures s == v
  {
    assert RotIndex(64, 0) == 0;
    assert forall j :: 0 <= j < 8 ==> s[RingAdd(0, j)] == v[j];
  }

  /** SHA256_Transform: the compression function of FIPS 180-4, on words in either byte order. */
  method Transform(state: array<word>, block: array<word>, off: nat, swap: bool)
    requires state.Length == 8 && off + 16 <= block.Length && state != block
    modifies state
    ensures state[..] == Compress(old(state[..]), Input(block[off..off + 16], swap))
  {
    hide Schedule, Round, Rounds, SwabAll, Input, AddStates, Add32;
    ghost var b := Input(block[off..off + 16], swap);
    var w := new word[64];
    LoadWords(w, block, off, swap);
    ExpandByTwo(w);
    assert w[..] == Schedule(b, 64);
    var s := new word[8];
    ghost var h := state[..];
    for i := 0 to 8
      invariant s[..i] == h[..i] && w[..] == Schedule(b, 64)
      modifies s
    {
      s[i] := state[i];
    }
    assert s[..] == h == state[..];
    MixRotating(s, w);
    assert s[..] == Rounds(h, Schedule(b, 64), 64);
    Sha2.AddInto(state, s);
    assert block[off..off + 16] == old(block[off..off + 16]);
  }
}
