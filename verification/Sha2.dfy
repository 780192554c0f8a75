/** The streaming SHA-256 of sha2.c: the shifting-register compression and the buffered context. */
module Sha2 {
  import opened Words
  import opened Fips180

  const BLOCK_SIZE: nat := 64
  const UINT_RANGE: nat := 0x1_0000_0000

  lemma {:induction false} WordsBESnoc(b: seq<byte>, c: seq<byte>)
    requires |b| % 4 == 0 && |c| == 4
    ensures WordsBE(b + c) == WordsBE(b) + [Pack32(c[0], c[1], c[2], c[3])]
  {
    hide Pack32;
    WordsBEConcat(b, c);
    assert c[4..] == [];
    assert WordsBE(c) == [Pack32(c[0], c[1], c[2], c[3])] + WordsBE(c[4..]);
  }

  /** PACK32 over one 64-byte block. */
  method LoadBlock(message: array<byte>, off: nat, w: array<word>)
    requires w.Length == 64 && off + 64 <= message.Length
    modifies w
    ensures w[..16] == WordsBE(message[off..off + 64])
  {
    assert message[off..off + 4 * 0] == [] && WordsBE([]) == [];
    hide *;
    for j := 0 to 16
      invariant w[..j] == WordsBE(message[off..off + 4 * j])
    {
      LoadWord(message, off, off + 4 * j, w, j);
    }
  }

  /** One PACK32 of the block. */
  method LoadWord(message: array<byte>, off: nat, p: nat, w: array<word>, j: nat)
    requires j < w.Length && p == off + 4 * j && p + 4 <= message.Length
    requires w[..j] == WordsBE(message[off..p])
    modifies w
    ensures w[..j + 1] == WordsBE(message[off..p + 4])
  {
    hide *;
    w[j] := Pack32(message[p], message[p + 1], message[p + 2], message[p + 3]);
    WordsBESnoc(message[off..p], message[p..p + 4]);
    assert message[off..p + 4] == message[off..p] + message[p..p + 4];
    assert w[..j + 1] == w[..j] + [w[j]];
  }

  /** SHA256_SCR for words 16 to 63. */
  method ExpandSchedule(w: array<word>)
    requires w.Length == 64
    modifies w
    ensures w[..] == Schedule(old(w[..16]), 64)
  {
    ghost var b := w[..16];
    assert Schedule(b, 16) == b;
    hide *;
    for j := 16 to 64
      invariant w[..j] == Schedule(b, j)
    {
      ghost var s := w[..j];
      w[j] := Add32(Add32(Add32(SmallSigma1(w[j - 2]), w[j - 7]), SmallSigma0(w[j - 15])), w[j - 16]);
      ghost var s' := w[..j + 1];
      assert s'[..j] == s;
      OneWordMore(b, s', j);
    }
    assert w[..] == w[..64];
  }

  /** wv[7] to wv[4]: e..h move up, and d + T1 enters. */
  method ShiftUpper(wv: array<word>, t1: word)
    requires wv.Length == 8
    modifies wv
    ensures wv[..] == old(wv[..4]) + [Add32(old(wv[3]), t1)] + old(wv[4..7])
  {
    hide Add32;
    wv[7] := wv[6];
    wv[6] := wv[5];
    wv[5] := wv[4];
    wv[4] := Add32(wv[3], t1);
  }

  /** wv[3] to wv[0]: a..c move up, and T1 + T2 enters. */
  method ShiftLower(wv: array<word>, t: word)
    requires wv.Length == 8
    modifies wv
    ensures wv[..] == [t] + old(wv[..3]) + old(wv[4..])
  {
    wv[3] := wv[2];
    wv[2] := wv[1];
    wv[1] := wv[0];
    wv[0] := t;
  }

  /** One round on the shifting register wv. */
  method ShiftRound(wv: array<word>, k: word, w: word)
    requires wv.Length == 8
    modifies wv
    ensures wv[..] == Round(old(wv[..]), k, w)
  {
    hide Temp1, Temp2, Add32;
    var t1 := Temp1(wv[4], wv[5], wv[6], wv[7], k, w);
    var t2 := Temp2(wv[0], wv[1], wv[2]);
    ghost var v := wv[..];
    ShiftUpper(wv, t1);
    ghost var m := wv[..];
    ShiftLower(wv, Add32(t1, t2));
    ShiftedIs(v, m, t1, Add32(t1, t2));
  }

  lemma ShiftedIs(v: State, m: State, t1: word, t: word)
    requires m == v[..4] + [Add32(v[3], t1)] + v[4..7]
    ensures [t] + m[..3] + m[4..] == [t, v[0], v[1], v[2], Add32(v[3], t1), v[4], v[5], v[6]]
  {
  }

  method AddInto(h: array<word>, wv: array<word>)
    requires h.Length == 8 && wv.Length == 8 && h != wv
    modifies h
    ensures h[..] == AddStates(old(h[..]), wv[..])
  {
    hide Add32;
    for j := 0 to 8
      invariant forall i :: 0 <= i < j ==> h[i] == Add32(old(h[i]), wv[i])
      invariant forall i :: j <= i < 8 ==> h[i] == old(h[i])
    {
      h[j] := Add32(h[j], wv[j]);
    }
  }

  /** One iteration of the block loop of sha256_transf. */
  method TransfBlock(message: array<byte>, off: nat, h: array<word>)
    requires h.Length == 8 && off + 64 <= message.Length
    modifies h
    ensures |WordsBE(message[off..off + 64])| == 16
    ensures h[..] == Compress(old(h[..]), WordsBE(message[off..off + 64]))
  {
    hide Schedule, Round, WordsBE, AddStates, Add32;
    var w := new word[64];
    LoadBlock(message, off, w);
    ExpandSchedule(w);
    ghost var ws := Schedule(WordsBE(message[off..off + 64]), 64);
    var wv := new word[8];
    for j := 0 to 8
      invariant w[..] == ws && h[..] == old(h[..])
      invariant wv[..j] == h[..j]
    {
      wv[j] := h[j];
    }
    assert h[..] == old(h[..]) && wv[..] == h[..];
    assert Rounds(old(h[..]), ws, 0) == old(h[..]);
    for j := 0 to 64
      invariant h[..] == old(h[..])
      invariant w[..] == ws && wv[..] == Rounds(old(h[..]), ws, j)
    {
      ShiftRound(wv, K[j], w[j]);
    }
    AddInto(h, wv);
  }

  /** The state after hashing a byte string of whole blocks. */
  ghost function FoldBytes(h: State, b: seq<byte>): State
    requires |b| % 64 == 0
  {
    Fold(h, BlockWords(b))
  }

  lemma FoldBytesConcat(h: State, a: seq<byte>, b: seq<byte>)
    requires |a| % 64 == 0 && |b| % 64 == 0
    ensures FoldBytes(h, a + b) == FoldBytes(FoldBytes(h, a), b)
  {
    hide Fold, BlockWords;
    BlocksAdd(|a|, |b|);
    BlockWordsConcat(a, b);
    FoldConcat(h, BlockWords(a), BlockWords(b));
  }

  lemma BlocksAdd(m: nat, n: nat)
    requires m % 64 == 0 && n % 64 == 0
    ensures (m + n) % 64 == 0
  {
    assert m + n == 64 * (m / 64 + n / 64);
  }

  lemma BlockWordsConcat(a: seq<byte>, b: seq<byte>)
    requires |a| % 64 == 0 && |b| % 64 == 0 && |a + b| % 64 == 0
    ensures BlockWords(a + b) == BlockWords(a) + BlockWords(b)
  {
    hide WordsBE;
    BlocksAreWords(|a|);
    BlocksAreWords(|b|);
    WordsBEConcat(a, b);
  }

  lemma FoldBytesOne(h: State, b: seq<byte>)
    requires |b| == 64 && |WordsBE(b)| == 16
    ensures FoldBytes(h, b) == Compress(h, WordsBE(b))
  {
    hide WordsBE, Compress;
    FoldOne(h, WordsBE(b));
  }

  /** The blocks that sha256_transf can address: the index of the next would not fit in the int that i << 6 is. */
  const MAX_BLOCKS: nat := 0x200_0000

  /** sha256_transf: blockNb blocks read from off onwards. */
  method Transf(h: array<word>, message: array<byte>, off: nat, blockNb: nat)
    requires h.Length == 8 && off + 64 * blockNb <= message.Length && blockNb <= MAX_BLOCKS
    modifies h
    ensures h[..] == FoldBytes(old(h[..]), message[off..off + 64 * blockNb])
  {
    hide Compress, WordsBE, FoldBytes;
    assert message[off..off + 64 * 0] == [];
    FoldBytesEmpty(h[..]);
    for i := 0 to blockNb
      invariant h[..] == FoldBytes(old(h[..]), message[off..off + 64 * i])
    {
      var p := off + 64 * i;
      TransfBlock(message, p, h);
      FoldBytesOne(FoldBytes(old(h[..]), message[off..p]), message[p..p + 64]);
      FoldBytesConcat(old(h[..]), message[off..p], message[p..p + 64]);
      assert message[off..p + 64] == message[off..p] + message[p..p + 64];
    }
  }

  lemma FoldBytesEmpty(h: State)
    ensures FoldBytes(h, []) == h
  {
  }
}
