/** The in-place Merkle code of sgminer.c: gen_hash, __gbt_merkleroot and the branch fold of gen_stratum_work. */
module MerkleBuild {
  import opened Words
  import opened Fips180
  import opened Sha2
  import opened Sha2Stream
  import opened Merkle

  /** gen_hash. */
  method GenHashInto(data: array<byte>, off: nat, len: nat, hash: array<byte>)
    requires off + len <= data.Length && len < 0x2000_0000 && hash.Length >= 32
    modifies hash
    ensures hash[..32] == GenHash(old(data[off..off + len]))
    ensures hash[32..] == old(hash[32..])
  {
    hide Sha256, ShortLengthDigest;
    var hash1 := new byte[32];
    Sha256Of(data, off, len, hash1);
    assert hash1[0..0 + 32] == hash1[..32];
    Sha256Of(hash1, 0, 32, hash);
  }

  /** The 32-byte slot k of a buffer. */
  function Slot(m: seq<byte>, k: nat): Hash
    requires 32 * k + 32 <= |m|
  {
    m[32 * k..32 * k + 32]
  }

  /** The first n slots of a buffer. */
  function Slots(m: seq<byte>, n: nat): (r: seq<Hash>)
    requires 32 * n <= |m|
    ensures |r| == n
    ensures forall k :: 0 <= k < n ==> r[k] == Slot(m, k)
  {
    seq(n, k requires 0 <= k < n => Slot(m, k))
  }

  /** memcpy of 32 bytes into slot k. */
  method WriteSlot(m: array<byte>, k: nat, src: array<byte>, off: nat)
    requires 32 * k + 32 <= m.Length && off + 32 <= src.Length && m != src
    modifies m
    ensures Slot(m[..], k) == src[off..off + 32]
    ensures forall j :: 0 <= 32 * j && 32 * j + 32 <= m.Length && j != k ==> Slot(m[..], j) == old(Slot(m[..], j))
  {
    CopyBytes(m, 32 * k, src, off, 32);
    OtherSlots(old(m[..]), m[..], k);
  }

  lemma OtherSlots(a: seq<byte>, b: seq<byte>, k: nat)
    requires |a| == |b| && 32 * k + 32 <= |a| && a[..32 * k] == b[..32 * k] && a[32 * k + 32..] == b[32 * k + 32..]
    ensures forall j :: 0 <= 32 * j && 32 * j + 32 <= |a| && j != k ==> Slot(b, j) == Slot(a, j)
  {
    forall j | 0 <= 32 * j && 32 * j + 32 <= |a| && j != k
      ensures Slot(b, j) == Slot(a, j)
    {
      if j < k {
        SamePart(a, b, 0, 32 * k, 32 * j);
      } else {
        SamePart(a, b, 32 * k + 32, |a|, 32 * j);
      }
    }
  }

  lemma SamePart(a: seq<byte>, b: seq<byte>, lo: nat, hi: nat, i: nat)
    requires |a| == |b| && lo <= i && i + 32 <= hi <= |a| && a[lo..hi] == b[lo..hi]
    ensures a[i..i + 32] == b[i..i + 32]
  {
    SliceOfSlice(a, lo, hi - lo, i - lo, i + 32 - lo);
    SliceOfSlice(b, lo, hi - lo, i - lo, i + 32 - lo);
  }

  /** memcpy of the last slot onto the one after it. */
  method DuplicateSlot(m: array<byte>, k: nat)
    requires 32 * k + 64 <= m.Length
    modifies m
    ensures Slot(m[..], k + 1) == Slot(old(m[..]), k)
    ensures forall j :: 0 <= 32 * j && 32 * j + 32 <= m.Length && j != k + 1 ==> Slot(m[..], j) == Slot(old(m[..]), j)
  {
    forall i | 0 <= i < 32 {
      m[32 * k + 32 + i] := m[32 * k + i];
    }
    OtherSlots(old(m[..]), m[..], k + 1);
  }

  /** gen_hash of two neighbouring slots, written over slot i / 2. */
  method HashPair(m: array<byte>, i: nat, ghost k: nat)
    requires i == 2 * k && 32 * i + 64 <= m.Length
    modifies m
    ensures Slot(m[..], k) == Join(old(Slot(m[..], 2 * k)), old(Slot(m[..], 2 * k + 1)))
    ensures forall j :: 0 <= 32 * j && 32 * j + 32 <= m.Length && j != k ==> Slot(m[..], j) == old(Slot(m[..], j))
  {
    hide GenHash;
    var hashout := new byte[32];
    assert m[32 * i..32 * i + 64] == Slot(m[..], i) + Slot(m[..], i + 1);
    GenHashInto(m, 32 * i, 64, hashout);
    assert hashout[0..0 + 32] == hashout[..32];
    WriteSlot(m, i / 2, hashout, 0);
  }

  /** Slots below k already belong to the next level, slots from 2k on still to this one. */
  ghost predicate Reducing(m: seq<byte>, level: seq<Hash>, k: nat) {
    && 2 * k <= |level| && |level| % 2 == 0 && 32 * |level| <= |m|
    && (forall j :: 0 <= j < k ==> Slot(m, j) == LevelUp(level)[j])
    && (forall j :: 2 * k <= j < |level| ==> Slot(m, j) == level[j])
  }

  /** One pass of the inner loop: slot i / 2 is only ever written after slots i and i + 1 were read. */
  method ReduceStep(m: array<byte>, i: nat, ghost level: seq<Hash>, ghost k: nat)
    requires i == 2 * k && i < |level| && Reducing(m[..], level, k)
    modifies m
    ensures Reducing(m[..], level, k + 1)
  {
    hide Join, LevelUp, Slot;
    HashPair(m, i, k);
    LevelUpAt(level, k);
  }

  /** The inner loop: one level, in place. */
  method ReduceLevel(m: array<byte>, txns: nat)
    requires txns % 2 == 0 && 32 * txns <= m.Length
    modifies m
    ensures Slots(m[..], txns / 2) == LevelUp(Slots(old(m[..]), txns))
  {
    hide LevelUp, Slot;
    ghost var level := Slots(m[..], txns);
    var i := 0;
    ghost var k := 0;
    while i < txns
      invariant i == 2 * k && i <= txns
      invariant Reducing(m[..], level, k)
    {
      ReduceStep(m, i, level, k);
      i, k := i + 2, k + 1;
    }
  }

  /** The outer loop: the root of the first txns slots, which never needs more than one slot past them. */
  method ReduceToRoot(m: array<byte>, leaves: nat)
    requires leaves > 0 && 32 * (leaves + 1) <= m.Length
    modifies m
    ensures Slot(m[..], 0) == Root(Slots(old(m[..]), leaves))
  {
    hide LevelUp, Slot;
    var txns := leaves;
    while txns > 1
      invariant 0 < txns <= leaves
      invariant Root(Slots(m[..], txns)) == Root(Slots(old(m[..]), leaves))
      decreases txns
    {
      ghost var level := Slots(m[..], txns);
      if txns % 2 != 0 {
        DuplicateSlot(m, txns - 1);
        txns := txns + 1;
        assert Slots(m[..], txns) == level + [level[|level| - 1]];
        DuplicateLast(level);
      }
      ReduceLevel(m, txns);
      txns := txns / 2;
    }
  }

  /** __gbt_merkleroot: the Merkle root of the coinbase hash followed by the stored transaction hashes. */
  method GbtMerkleRoot(coinbase: array<byte>, coinbaseLen: nat, txnHashes: array<byte>, gbtTxns: nat)
    returns (merkleHash: array<byte>)
    requires coinbaseLen <= coinbase.Length && coinbaseLen < 0x2000_0000 && 32 * gbtTxns <= txnHashes.Length
    ensures fresh(merkleHash) && merkleHash.Length == 32 * (gbtTxns + 2)
    ensures merkleHash[..32] == Root([GenHash(coinbase[..coinbaseLen])] + Slots(txnHashes[..], gbtTxns))
  {
    hide GenHash, Root;
    merkleHash := new byte[32 * (gbtTxns + 2)];
    assert coinbase[0..0 + coinbaseLen] == coinbase[..coinbaseLen];
    GenHashInto(coinbase, 0, coinbaseLen, merkleHash);
    CopyBytes(merkleHash, 32, txnHashes, 0, 32 * gbtTxns);
    LeafSlots(merkleHash[..], GenHash(coinbase[..coinbaseLen]), txnHashes[..], gbtTxns);
    ReduceToRoot(merkleHash, gbtTxns + 1);
    assert merkleHash[..32] == Slot(merkleHash[..], 0);
  }

  lemma {:induction false} SlotWithin(m: seq<byte>, first: nat, n: nat, k: nat)
    requires 32 * (first + n) <= |m| && k < n
    ensures Slot(m, first + k) == m[32 * first..32 * (first + n)][32 * k..32 * k + 32]
  {
    var lo := 32 * first;
    assert 32 * (first + n) == lo + 32 * n && 32 * (first + k) == lo + 32 * k;
    SliceOfSlice(m, lo, 32 * n, 32 * k, 32 * k + 32);
  }

  lemma {:induction false} LeafSlots(m: seq<byte>, first: Hash, txns: seq<byte>, n: nat)
    requires 32 * (n + 1) <= |m| && 32 * n <= |txns|
    requires m[..32] == first && m[32..32 + 32 * n] == txns[..32 * n]
    ensures Slots(m, n + 1) == [first] + Slots(txns, n)
  {
    forall k | 0 <= k < n + 1
      ensures Slot(m, k) == ([first] + Slots(txns, n))[k]
    {
      if k > 0 {
        SlotWithin(m, 1, n, k - 1);
        SlotWithin(txns, 0, n, k - 1);
      }
    }
  }

  /** flip32 on bytes: every group of four reversed. */
  function FlipBytes(h: Hash): Hash {
    seq(32, i requires 0 <= i < 32 => h[4 * (i / 4) + 3 - i % 4])
  }

  /** Groups of four bytes, one the reverse of the other. */
  ghost predicate Reversed(a: seq<byte>, b: seq<byte>, n: nat) {
    |a| == |b| == 4 * n
    && forall i {:trigger Group(i)} :: 0 <= i < n ==> var k := Group(i);
      b[k] == a[k + 3] && b[k + 1] == a[k + 2] && b[k + 2] == a[k + 1] && b[k + 3] == a[k]
  }

  function Group(i: nat): nat {
    4 * i
  }

  lemma {:induction false} ReversedWords(a: seq<byte>, b: seq<byte>, n: nat)
    requires Reversed(a, b, n)
    ensures WordsLE(b) == WordsBE(a)
  {
    hide Pack32;
    if n == 0 {
    } else {
      assert Group(0) == 0;
      forall i {:trigger Group(i)} | 0 <= i < n - 1
        ensures var k := Group(i); var c, d := a[4..], b[4..];
          d[k] == c[k + 3] && d[k + 1] == c[k + 2] && d[k + 2] == c[k + 1] && d[k + 3] == c[k]
      {
        assert Group(i + 1) == Group(i) + 4;
      }
      ReversedWords(a[4..], b[4..], n - 1);
    }
  }

  /** The words of the one are those of the other, read in the opposite byte order. */
  lemma FlipSwapsWords(h: Hash)
    ensures WordsLE(FlipBytes(h)) == WordsBE(h)
  {
    var f := FlipBytes(h);
    forall i {:trigger Group(i)} | 0 <= i < 8
      ensures var k := Group(i);
        f[k] == h[k + 3] && f[k + 1] == h[k + 2] && f[k + 2] == h[k + 1] && f[k + 3] == h[k]
    {
    }
    ReversedWords(h, f, 8);
  }

  method Flip32(dest: array<byte>, src: array<byte>)
    requires dest.Length >= 32 && src.Length >= 32 && dest != src
    modifies dest
    ensures dest[..32] == FlipBytes(src[..32])
  {
    for i := 0 to 8
      invariant forall k :: 0 <= k < 4 * i ==> dest[k] == src[4 * (k / 4) + 3 - k % 4]
    {
      dest[4 * i], dest[4 * i + 1] := src[4 * i + 3], src[4 * i + 2];
      dest[4 * i + 2], dest[4 * i + 3] := src[4 * i + 1], src[4 * i];
    }
  }

  /** The merkle_bin entries of the current job. */
  function Siblings(merkleBin: seq<array<byte>>): (r: seq<Hash>)
    requires forall i :: 0 <= i < |merkleBin| ==> merkleBin[i].Length == 32
    reads merkleBin
    ensures |r| == |merkleBin| && forall i :: 0 <= i < |r| ==> r[i] == merkleBin[i][..]
  {
    seq(|merkleBin|, i requires 0 <= i < |merkleBin| reads merkleBin
      requires merkleBin[i].Length == 32 => merkleBin[i][..])
  }

  lemma {:induction false} FoldSnoc(leaf: Hash, branch: seq<Hash>, h: Hash)
    ensures Merkle.Fold(leaf, branch + [h]) == Join(Merkle.Fold(leaf, branch), h)
    decreases |branch|
  {
    hide Join;
    if |branch| == 0 {
      assert (branch + [h])[1..] == [];
    } else {
      FoldSnoc(Join(leaf, branch[0]), branch[1..], h);
      assert (branch + [h])[1..] == branch[1..] + [h];
    }
  }

  /** One iteration of the branch loop of gen_stratum_work. */
  method FoldSibling(merkleSha: array<byte>, merkleRoot: array<byte>, sibling: array<byte>)
    requires merkleSha.Length == 64 && merkleRoot.Length == 32 && sibling.Length == 32
    requires merkleSha != merkleRoot && merkleSha != sibling && merkleRoot != sibling
    modifies merkleSha, merkleRoot
    ensures merkleSha[..32] == merkleRoot[..] == Join(old(merkleSha[..32]), sibling[..])
  {
    hide GenHash;
    CopyBytes(merkleSha, 32, sibling, 0, 32);
    assert merkleSha[0..0 + 64] == old(merkleSha[..32]) + sibling[..];
    GenHashInto(merkleSha, 0, 64, merkleRoot);
    CopyBytes(merkleSha, 0, merkleRoot, 0, 32);
    assert merkleSha[0..0 + 32] == merkleSha[..32] && merkleRoot[0..32] == merkleRoot[..];
  }

  /**
   * The leaf of gen_stratum_work. Some kernels first store the single hash of the coinbase, but the double
   * hash overwrites it for every kernel.
   */
  method CoinbaseLeaf(singleHash: bool, coinbase: array<byte>, cbLen: nat)
    returns (merkleRoot: array<byte>, merkleSha: array<byte>)
    requires cbLen <= coinbase.Length && cbLen < 0x2000_0000
    ensures fresh(merkleRoot) && fresh(merkleSha) && merkleRoot != merkleSha
    ensures merkleRoot.Length == 32 && merkleSha.Length == 64
    ensures merkleSha[..32] == GenHash(coinbase[..cbLen])
  {
    hide GenHash, Sha256, ShortLengthDigest;
    merkleRoot := new byte[32];
    merkleSha := new byte[64];
    assert coinbase[0..0 + cbLen] == coinbase[..cbLen];
    if singleHash {
      Sha256Of(coinbase, 0, cbLen, merkleRoot);
    }
    GenHashInto(coinbase, 0, cbLen, merkleRoot);
    CopyBytes(merkleSha, 0, merkleRoot, 0, 32);
    assert merkleSha[..32] == merkleSha[0..0 + 32] && merkleRoot[0..0 + 32] == merkleRoot[..32];
  }

  /** The branch loop of gen_stratum_work. */
  method FoldSiblings(merkleSha: array<byte>, merkleRoot: array<byte>, merkleBin: seq<array<byte>>)
    requires merkleSha.Length == 64 && merkleRoot.Length == 32 && merkleSha != merkleRoot
    requires merkleSha !in merkleBin && merkleRoot !in merkleBin
    requires forall i :: 0 <= i < |merkleBin| ==> merkleBin[i].Length == 32
    modifies merkleSha, merkleRoot
    ensures merkleSha[..32] == Merkle.Fold(old(merkleSha[..32]), Siblings(merkleBin))
  {
    hide Join;
    ghost var leaf: Hash := merkleSha[..32];
    ghost var branch := Siblings(merkleBin);
    for i := 0 to |merkleBin|
      invariant merkleSha[..32] == Merkle.Fold(leaf, branch[..i])
      invariant forall k :: 0 <= k < |merkleBin| ==> merkleBin[k][..] == branch[k]
    {
      FoldSibling(merkleSha, merkleRoot, merkleBin[i]);
      FoldSnoc(leaf, branch[..i], branch[i]);
      assert branch[..i + 1] == branch[..i] + [branch[i]];
    }
    assert branch[..|merkleBin|] == branch == Siblings(merkleBin);
  }

  /** The root that goes into the header of a work item: the branch folded onto the coinbase hash, flipped. */
  method StratumRoot(singleHash: bool, coinbase: array<byte>, cbLen: nat, merkleBin: seq<array<byte>>)
    returns (merkleRoot: array<byte>)
    requires cbLen <= coinbase.Length && cbLen < 0x2000_0000
    requires forall i :: 0 <= i < |merkleBin| ==> merkleBin[i].Length == 32
    ensures fresh(merkleRoot) && merkleRoot.Length == 32
    ensures merkleRoot[..] == FlipBytes(Merkle.Fold(GenHash(coinbase[..cbLen]), Siblings(merkleBin)))
    ensures WordsLE(merkleRoot[..]) == WordsBE(Merkle.Fold(GenHash(coinbase[..cbLen]), Siblings(merkleBin)))
  {
    hide GenHash, FlipBytes, Join, WordsLE, WordsBE;
    FlipSwapsWords(Merkle.Fold(GenHash(coinbase[..cbLen]), Siblings(merkleBin)));
    ghost var branch := Siblings(merkleBin);
    var merkleSha;
    merkleRoot, merkleSha := CoinbaseLeaf(singleHash, coinbase, cbLen);
    assert Siblings(merkleBin) == branch;
    FoldSiblings(merkleSha, merkleRoot, merkleBin);
    Flip32(merkleRoot, merkleSha);
    assert merkleRoot[..] == merkleRoot[..32];
  }
}
