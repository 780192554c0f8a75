/** Merkle roots: the recursive definition and the Stratum branch that folds to the same root. */
module Merkle {
  import opened Words
  import opened Fips180

  type Hash = h: seq<byte> | |h| == 32 witness seq(32, _ => 0)

  /** gen_hash: SHA-256 twice. */
  function GenHash(data: seq<byte>): Hash {
    Sha256(Sha256(data))
  }

  function Join(a: Hash, b: Hash): Hash {
    GenHash(a + b)
  }

  /** One level up: neighbours joined, a last odd one with itself. */
  function LevelUp(hs: seq<Hash>): (r: seq<Hash>)
    ensures |r| == (|hs| + 1) / 2
  {
    if |hs| == 0 then []
    else if |hs| == 1 then [Join(hs[0], hs[0])]
    else [Join(hs[0], hs[1])] + LevelUp(hs[2..])
  }

  /** The Merkle root of a non-empty list of leaves. */
  function Root(hs: seq<Hash>): Hash
    requires |hs| > 0
    decreases |hs|
  {
    if |hs| == 1 then hs[0] else Root(LevelUp(hs))
  }

  /** The siblings of the leftmost path, bottom up: what a Stratum notify sends instead of the transactions. */
  function Branch(hs: seq<Hash>): seq<Hash>
    requires |hs| > 0
    decreases |hs|
  {
    if |hs| == 1 then [] else [hs[1]] + Branch(LevelUp(hs))
  }

  /** Folding a branch onto a leaf. */
  function Fold(leaf: Hash, branch: seq<Hash>): Hash
    decreases |branch|
  {
    if |branch| == 0 then leaf else Fold(Join(leaf, branch[0]), branch[1..])
  }

  /** The branch folded onto the first leaf is the root. */
  lemma {:induction false} BranchFoldsToRoot(hs: seq<Hash>)
    requires |hs| > 0
    ensures Fold(hs[0], Branch(hs)) == Root(hs)
    decreases |hs|
  {
    hide Join;
    if |hs| == 1 {
    } else {
      BranchFoldsToRoot(LevelUp(hs));
      assert Branch(hs)[1..] == Branch(LevelUp(hs));
    }
  }

  lemma LevelUpTail(a: Hash, b: Hash, rest: seq<Hash>)
    ensures LevelUp([a] + rest)[1..] == LevelUp([b] + rest)[1..]
  {
    hide Join;
    if |rest| > 0 {
      assert ([a] + rest)[2..] == rest[1..] && ([b] + rest)[2..] == rest[1..];
    }
  }

  /** The branch does not depend on the coinbase leaf, so one branch serves every coinbase. */
  lemma {:induction false} BranchIgnoresCoinbase(a: Hash, b: Hash, rest: seq<Hash>)
    ensures Branch([a] + rest) == Branch([b] + rest)
    decreases |rest|
  {
    hide Join, LevelUp;
    if |rest| == 0 {
    } else {
      var u, w := LevelUp([a] + rest), LevelUp([b] + rest);
      LevelUpTail(a, b, rest);
      assert u == [u[0]] + u[1..] && w == [w[0]] + w[1..];
      BranchIgnoresCoinbase(u[0], w[0], u[1..]);
      assert ([a] + rest)[1] == rest[0] && ([b] + rest)[1] == rest[0];
    }
  }

  /** Work made from a branch of one coinbase is the root over any other coinbase and the same transactions. */
  lemma BranchServesEveryCoinbase(a: Hash, b: Hash, rest: seq<Hash>)
    ensures Fold(b, Branch([a] + rest)) == Root([b] + rest)
  {
    BranchIgnoresCoinbase(a, b, rest);
    BranchFoldsToRoot([b] + rest);
  }

  /** Joining element-wise: entry k of the next level of an even list. */
  lemma {:induction false} LevelUpAt(hs: seq<Hash>, k: nat)
    requires 2 * k + 1 < |hs|
    ensures LevelUp(hs)[k] == Join(hs[2 * k], hs[2 * k + 1])
    decreases |hs|
  {
    hide Join;
    if k == 0 {
    } else {
      LevelUpAt(hs[2..], k - 1);
    }
  }

  /** Duplicating a last odd entry changes nothing one level up. */
  lemma {:induction false} DuplicateLast(hs: seq<Hash>)
    requires |hs| % 2 == 1
    ensures LevelUp(hs + [hs[|hs| - 1]]) == LevelUp(hs)
    decreases |hs|
  {
    hide Join;
    var d := hs + [hs[|hs| - 1]];
    if |hs| == 1 {
      assert d[2..] == [];
    } else {
      DuplicateLast(hs[2..]);
      assert d[2..] == hs[2..] + [hs[2..][|hs[2..]| - 1]];
    }
  }
}
