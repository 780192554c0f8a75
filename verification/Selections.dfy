/** What is left of a sequence when a walk over it keeps some elements and drops others. */
module Selections {

  /** The elements of s that are kept. */
  ghost function Keep<T>(s: seq<T>, kept: seq<bool>): (r: seq<T>)
    requires |s| == |kept|
    ensures |r| <= |s|
  {
    if |s| == 0 then []
    else
      var n := |s| - 1;
      Keep(s[..n], kept[..n]) + if kept[n] then [s[n]] else []
  }

  /** The sequence during a walk that has decided about the first elements. */
  ghost function Walked<T>(s: seq<T>, kept: seq<bool>): seq<T>
    requires |kept| <= |s|
  {
    Keep(s[..|kept|], kept) + s[|kept|..]
  }

  /** Where the walk is. */
  ghost function At<T>(s: seq<T>, kept: seq<bool>): nat
    requires |kept| <= |s|
  {
    |Keep(s[..|kept|], kept)|
  }

  lemma {:induction false} WalkStart<T>(s: seq<T>)
    ensures Walked(s, []) == s && At(s, []) == 0
  {
  }

  /** One more decision: the element the walk is at stays or goes. */
  lemma {:induction false} WalkOn<T>(s: seq<T>, kept: seq<bool>, keep: bool)
    requires |kept| < |s|
    ensures var before, after, at := Walked(s, kept), Walked(s, kept + [keep]), At(s, kept);
      at < |before| && before[at] == s[|kept|]
      && after == (if keep then before else before[..at] + before[at + 1..])
      && At(s, kept + [keep]) == if keep then at + 1 else at
  {
    assert s[..|kept| + 1][..|kept|] == s[..|kept|];
    assert (kept + [keep])[..|kept|] == kept;
    assert Walked(s, kept)[..At(s, kept)] == Keep(s[..|kept|], kept);
    assert Walked(s, kept)[At(s, kept)..] == s[|kept|..];
  }

  /** As many elements lie ahead as are undecided. */
  lemma {:induction false} WalkAhead<T>(s: seq<T>, kept: seq<bool>)
    requires |kept| <= |s|
    ensures |Walked(s, kept)| - At(s, kept) == |s| - |kept|
  {
  }

  lemma {:induction false} WalkEnd<T>(s: seq<T>, kept: seq<bool>)
    requires |kept| <= |s| && At(s, kept) >= |Walked(s, kept)|
    ensures |kept| == |s| && Walked(s, kept) == Keep(s, kept)
  {
    assert |s[|kept|..]| == |s| - |kept|;
    assert s[..|s|] == s;
  }

  lemma {:induction false} KeepWithin<T>(s: seq<T>, kept: seq<bool>)
    requires |kept| <= |s|
    ensures forall v :: v in Walked(s, kept) ==> v in s
    decreases |kept|
  {
    if |kept| > 0 {
      var n := |kept| - 1;
      assert kept == kept[..n] + [kept[n]];
      WalkOn(s, kept[..n], kept[n]);
      KeepWithin(s, kept[..n]);
    } else {
      WalkStart(s);
    }
  }
}
