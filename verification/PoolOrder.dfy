/** Pool priorities as values: which pool comes at which place, and what each renumbering does to that order. */
module PoolOrder {
  import opened Sequences

  /** ord lists the labels by priority: labels[i] stands at place ps[i], and every place is taken once. */
  ghost predicate InOrder<T>(labels: seq<T>, ps: seq<int>, ord: seq<T>) {
    && |ps| == |labels| == |ord|
    && (forall i :: 0 <= i < |ps| ==> 0 <= ps[i] < |ord| && ord[ps[i]] == labels[i])
    && (forall c :: 0 <= c < |ord| ==> c in ps)
  }

  /** Numbers 0 .. n-1, each once. */
  ghost predicate IsPermutation(ps: seq<int>) {
    Distinct(ps) && forall i :: 0 <= i < |ps| ==> 0 <= ps[i] < |ps|
  }

  /** The order without one label. */
  function Without<T(==)>(s: seq<T>, x: T): (r: seq<T>)
    ensures x !in r && forall y :: y in r ==> y in s
  {
    if |s| == 0 then [] else if s[0] == x then Without(s[1..], x) else [s[0]] + Without(s[1..], x)
  }

  lemma {:induction false} WithoutAt<T>(s: seq<T>, k: nat)
    requires Distinct(s) && k < |s|
    ensures Without(s, s[k]) == s[..k] + s[k + 1..]
  {
    if k == 0 {
      WithoutAbsent(s[1..], s[0]);
    } else {
      var x, rest := s[k], s[1..];
      WithoutAt(rest, k - 1);
      assert Without(s, x) == [s[0]] + Without(rest, x);
      Rejoined(s, k);
    }
  }

  lemma {:induction false} Rejoined<T>(s: seq<T>, k: nat)
    requires 0 < k < |s|
    ensures s[1..][k - 1] == s[k] && [s[0]] + (s[1..][..k - 1] + s[1..][k..]) == s[..k] + s[k + 1..]
  {
  }

  lemma {:induction false} WithoutAbsent<T>(s: seq<T>, x: T)
    requires x !in s
    ensures Without(s, x) == s
  {
    if |s| == 0 {
    } else {
      WithoutAbsent(s[1..], x);
    }
  }

  ghost function Values(ps: seq<int>): (r: set<int>)
    ensures forall v :: v in r <==> v in ps
  {
    set v | v in ps
  }

  lemma {:induction false} InjectiveCount(ps: seq<int>)
    requires Distinct(ps)
    ensures |Values(ps)| == |ps|
  {
    if |ps| == 0 {
    } else {
      var front, last := ps[..|ps| - 1], ps[|ps| - 1];
      InjectiveCount(front);
      assert ps == front + [last];
      assert Values(ps) == Values(front) + {last};
    }
  }

  ghost function Below(n: nat): (r: set<int>)
    ensures forall v :: v in r <==> 0 <= v < n
    ensures |r| == n
  {
    if n == 0 then {} else Below(n - 1) + {n - 1}
  }

  lemma SubsetOfSameSize(a: set<int>, b: set<int>)
    requires a <= b && |a| == |b|
    ensures a == b
  {
    assert |b - a| == |b| - |a|;
  }

  /** Pigeonhole: a permutation takes every value below its length. */
  lemma Pigeonhole(ps: seq<int>, c: int)
    requires IsPermutation(ps) && 0 <= c < |ps|
    ensures c in ps
  {
    InjectiveCount(ps);
    forall v | v in Values(ps)
      ensures v in Below(|ps|)
    {
      var i :| 0 <= i < |ps| && ps[i] == v;
    }
    SubsetOfSameSize(Values(ps), Below(|ps|));
    assert c in Below(|ps|);
  }

  /** Where priority c is found. */
  ghost function IndexOf(ps: seq<int>, c: int): (i: nat)
    requires c in ps
    ensures i < |ps| && ps[i] == c
  {
    var i: nat :| i < |ps| && ps[i] == c; i
  }

  /** Priorities that are a permutation order their pools, in one way. */
  lemma PermutationOrders<T>(labels: seq<T>, ps: seq<int>) returns (ord: seq<T>)
    requires |labels| == |ps| && IsPermutation(ps)
    ensures InOrder(labels, ps, ord)
  {
    forall c | 0 <= c < |ps|
      ensures c in ps
    {
      Pigeonhole(ps, c);
    }
    ord := seq(|ps|, c requires 0 <= c < |ps| => labels[IndexOf(ps, c)]);
    forall i | 0 <= i < |ps|
      ensures ord[ps[i]] == labels[i]
    {
      assert IndexOf(ps, ps[i]) == i;
    }
  }

  lemma OrderUnique<T>(labels: seq<T>, ps: seq<int>, a: seq<T>, b: seq<T>)
    requires InOrder(labels, ps, a) && InOrder(labels, ps, b)
    ensures a == b
  {
    forall c | 0 <= c < |a|
      ensures a[c] == b[c]
    {
      assert c in ps;
      var i :| 0 <= i < |ps| && ps[i] == c;
    }
  }

  lemma OrderIsPermutation<T>(labels: seq<T>, ps: seq<int>, ord: seq<T>)
    requires InOrder(labels, ps, ord) && Distinct(labels)
    ensures IsPermutation(ps) && Distinct(ord)
  {
    forall c, d | 0 <= c < d < |ord|
      ensures ord[c] != ord[d]
    {
      assert c in ps && d in ps;
      var i :| 0 <= i < |ps| && ps[i] == c;
      var k :| 0 <= k < |ps| && ps[k] == d;
    }
  }

  /** add_pool: the new pool takes the next number. */
  lemma AddKeepsOrder<T>(labels: seq<T>, ps: seq<int>, ord: seq<T>, x: T)
    requires InOrder(labels, ps, ord)
    ensures InOrder(labels + [x], ps + [|ps|], ord + [x])
  {
    forall c | 0 <= c < |ord| + 1
      ensures c in ps + [|ps|]
    {
      if c < |ord| {
        assert c in ps;
      } else {
        assert (ps + [|ps|])[|ps|] == c;
      }
    }
  }

  /** switch_pools: everything in front of the selected pool moves back one place. */
  function Promote(ps: seq<int>, sel: nat): (r: seq<int>)
    requires sel < |ps|
    ensures |r| == |ps|
  {
    seq(|ps|, i requires 0 <= i < |ps| => if i == sel then 0 else if ps[i] < ps[sel] then ps[i] + 1 else ps[i])
  }

  lemma PromoteReorders<T>(labels: seq<T>, ps: seq<int>, ord: seq<T>, sel: nat)
    requires InOrder(labels, ps, ord) && Distinct(labels) && sel < |ps|
    ensures InOrder(labels, Promote(ps, sel), [labels[sel]] + Without(ord, labels[sel]))
  {
    OrderIsPermutation(labels, ps, ord);
    var k := ps[sel];
    WithoutAt(ord, k);
    var ord' := [labels[sel]] + (ord[..k] + ord[k + 1..]);
    var qs := Promote(ps, sel);
    forall c | 0 <= c < |ord'|
      ensures c in qs
    {
      var d := if c == 0 then k else if c <= k then c - 1 else c;
      assert d in ps;
      var i :| 0 <= i < |ps| && ps[i] == d;
      assert qs[i] == c;
    }
  }

  /** remove_pool: everything behind the removed pool moves up, and the last pool takes over its slot. */
  function Closed(ps: seq<int>, r: nat): (q: seq<int>)
    requires r < |ps|
    ensures |q| == |ps|
  {
    seq(|ps|, i requires 0 <= i < |ps| => if ps[i] > ps[r] then ps[i] - 1 else ps[i])
  }

  function SwapLast<T>(s: seq<T>, r: nat): (q: seq<T>)
    requires r < |s|
    ensures |q| == |s| - 1
  {
    if r < |s| - 1 then s[r := s[|s| - 1]][..|s| - 1] else s[..|s| - 1]
  }

  lemma {:induction false} SwapLastInjective<T>(s: seq<T>, r: nat)
    requires Distinct(s) && r < |s|
    ensures Distinct(SwapLast(s, r))
  {
  }

  /** After a removal every place but the removed one is taken, by a pool that moved up if it was behind. */
  lemma {:induction false} RemoveTakesAll(ps: seq<int>, r: nat, c: nat)
    requires r < |ps| && 0 <= ps[r] < |ps| && c < |ps| - 1
    requires forall d :: 0 <= d < |ps| ==> d in ps
    ensures c in SwapLast(Closed(ps, r), r)
  {
    var d := if c < ps[r] then c else c + 1;
    assert d in ps;
    var i :| 0 <= i < |ps| && ps[i] == d;
    assert SwapLast(Closed(ps, r), r)[if i == |ps| - 1 then r else i] == c;
  }

  lemma {:induction false} SwapLastAt<T>(s: seq<T>, r: nat, i: nat)
    requires r < |s| && i < |s| - 1
    ensures SwapLast(s, r)[i] == s[if i == r then |s| - 1 else i]
  {
  }

  lemma {:induction false} CutAt<T>(ord: seq<T>, k: nat, p: nat)
    requires k < |ord| && p < |ord| && p != k
    ensures var q := if p > k then p - 1 else p; q < |ord[..k] + ord[k + 1..]| && (ord[..k] + ord[k + 1..])[q] == ord[p]
  {
  }

  lemma PlaceOf<T>(labels: seq<T>, ps: seq<int>, ord: seq<T>, i: nat, r: nat)
    requires InOrder(labels, ps, ord) && IsPermutation(ps) && r < |ps| && i < |ps| && i != r
    ensures 0 <= ps[i] < |ord| && ord[ps[i]] == labels[i] && ps[i] != ps[r]
    ensures |labels| == |ps| == |ord| && 0 <= ps[r] < |ord|
  {
  }

  lemma ClosedAt(ps: seq<int>, r: nat, i: nat)
    requires r < |ps| && i < |ps|
    ensures Closed(ps, r)[i] == if ps[i] > ps[r] then ps[i] - 1 else ps[i]
  {
  }

  /** A pool that stays is where the order without the removed one has it. */
  lemma {:induction false} RemoveKeepsPlaces<T>(labels: seq<T>, ps: seq<int>, ord: seq<T>, r: nat, i: nat)
    requires InOrder(labels, ps, ord) && IsPermutation(ps) && r < |ps| && i < |ps| - 1
    ensures var qs, rest := SwapLast(Closed(ps, r), r), ord[..ps[r]] + ord[ps[r] + 1..];
      0 <= qs[i] < |rest| && rest[qs[i]] == SwapLast(labels, r)[i]
  {
    hide *;
    var from := if i == r then |ps| - 1 else i;
    PlaceOf(labels, ps, ord, from, r);
    CutAt(ord, ps[r], ps[from]);
    SwapLastAt(labels, r, i);
    SwapLastAt(Closed(ps, r), r, i);
    ClosedAt(ps, r, from);
  }

  lemma {:induction false} RemoveReorders<T>(labels: seq<T>, ps: seq<int>, ord: seq<T>, r: nat)
    requires InOrder(labels, ps, ord) && Distinct(labels) && r < |ps|
    ensures InOrder(SwapLast(labels, r), SwapLast(Closed(ps, r), r), Without(ord, labels[r]))
    ensures Distinct(SwapLast(labels, r))
  {
    hide *;
    OrderIsPermutation(labels, ps, ord);
    InOrderFacts(labels, ps, ord, r);
    SwapLastInjective(labels, r);
    WithoutAt(ord, ps[r]);
    forall c: nat | c < |ps| - 1
      ensures c in SwapLast(Closed(ps, r), r)
    {
      RemoveTakesAll(ps, r, c);
    }
    forall i: nat | i < |ps| - 1
      ensures var qs, rest := SwapLast(Closed(ps, r), r), ord[..ps[r]] + ord[ps[r] + 1..];
        0 <= qs[i] < |rest| && rest[qs[i]] == SwapLast(labels, r)[i]
    {
      RemoveKeepsPlaces(labels, ps, ord, r, i);
    }
    InOrderWhen(SwapLast(labels, r), SwapLast(Closed(ps, r), r), ord[..ps[r]] + ord[ps[r] + 1..]);
  }

  lemma InOrderFacts<T>(labels: seq<T>, ps: seq<int>, ord: seq<T>, r: nat)
    requires InOrder(labels, ps, ord) && r < |ps|
    ensures |ps| == |labels| == |ord| && 0 <= ps[r] < |ord| && ord[ps[r]] == labels[r]
    ensures forall c :: 0 <= c < |ord| ==> c in ps
  {
  }

  lemma InOrderWhen<T>(labels: seq<T>, ps: seq<int>, ord: seq<T>)
    requires |ps| == |labels| == |ord|
    requires forall i: nat :: i < |ps| ==> 0 <= ps[i] < |ord| && ord[ps[i]] == labels[i]
    requires forall c: nat :: c < |ord| ==> c in ps
    ensures InOrder(labels, ps, ord)
  {
  }

  /** The labels of s that are not in xs, in order. */
  function Except<T(==)>(s: seq<T>, xs: seq<T>): seq<T> {
    if |s| == 0 then []
    else
      var r := Except(s[..|s| - 1], xs);
      if s[|s| - 1] in xs then r else r + [s[|s| - 1]]
  }

  lemma {:induction false} ExceptMembers<T>(s: seq<T>, xs: seq<T>)
    ensures forall y :: y in Except(s, xs) ==> y in s && y !in xs
    ensures forall y :: y in s ==> y in xs || y in Except(s, xs)
  {
    if |s| == 0 {
    } else {
      ExceptMembers(s[..|s| - 1], xs);
      assert s == s[..|s| - 1] + [s[|s| - 1]];
    }
  }

  lemma {:induction false} ExceptAt<T>(s: seq<T>, xs: seq<T>, k: nat)
    requires k < |s| && s[k] !in xs
    ensures var j := |Except(s[..k], xs)|; j < |Except(s, xs)| && Except(s, xs)[j] == s[k]
  {
    var front := s[..|s| - 1];
    if k == |s| - 1 {
    } else {
      ExceptAt(front, xs, k);
      assert front[..k] == s[..k];
    }
  }

  lemma {:induction false} ExceptInjective<T>(s: seq<T>, xs: seq<T>)
    requires Distinct(s)
    ensures Distinct(Except(s, xs))
  {
    if |s| == 0 {
    } else {
      ExceptInjective(s[..|s| - 1], xs);
      ExceptMembers(s[..|s| - 1], xs);
    }
  }

  ghost function Members<T>(s: seq<T>): (r: set<T>)
    ensures forall x :: x in r ==> x in s
    ensures forall x :: x in s ==> x in r
  {
    set x | x in s
  }

  lemma {:induction false} MemberCount<T>(s: seq<T>)
    requires Distinct(s)
    ensures |Members(s)| == |s|
  {
    if |s| == 0 {
    } else {
      var front, last := s[..|s| - 1], s[|s| - 1];
      MemberCount(front);
      assert s == front + [last];
      assert Members(s) == Members(front) + {last};
    }
  }

  lemma ExceptCount<T>(s: seq<T>, xs: seq<T>)
    requires Distinct(s) && Distinct(xs) && forall x :: x in xs ==> x in s
    ensures |xs| + |Except(s, xs)| == |s|
  {
    ExceptInjective(s, xs);
    ExceptMembers(s, xs);
    MemberCount(s);
    MemberCount(xs);
    MemberCount(Except(s, xs));
    assert Members(Except(s, xs)) == Members(s) - Members(xs);
    assert Members(xs) <= Members(s);
  }

  /**
   * Where poolpriority stands once the listed pools are numbered and the others are numbered up to old
   * priority pr: qs are the new numbers, changed the pools that have theirs.
   */
  ghost predicate Renumbered<T>(labels: seq<T>, ps: seq<int>, ord: seq<T>, listed: seq<T>,
                                qs: seq<int>, changed: seq<bool>, pr: nat)
    requires InOrder(labels, ps, ord)
  {
    && |qs| == |changed| == |ps|
    && (forall i :: 0 <= i < |ps| && labels[i] in listed ==>
          changed[i] && 0 <= qs[i] < |listed| && listed[qs[i]] == labels[i])
    && (forall i :: 0 <= i < |ps| && labels[i] !in listed ==>
          changed[i] == (ps[i] < pr)
          && qs[i] == if ps[i] < pr then |listed| + |Except(ord[..ps[i]], listed)| else ps[i])
  }

  /** The pool of old priority pr, if it is not listed, is the only unchanged one that shows pr. */
  lemma RenumberStep<T>(labels: seq<T>, ps: seq<int>, ord: seq<T>, listed: seq<T>, qs: seq<int>, changed: seq<bool>,
                        pr: nat, i: nat)
    requires InOrder(labels, ps, ord) && Distinct(labels) && pr < |ps|
    requires Renumbered(labels, ps, ord, listed, qs, changed, pr)
    requires i < |ps| && !changed[i] && qs[i] == pr
    ensures |Except(ord[..pr + 1], listed)| == |Except(ord[..pr], listed)| + 1
    ensures var place := |listed| + |Except(ord[..pr], listed)|;
      Renumbered(labels, ps, ord, listed, qs[i := place], changed[i := true], pr + 1)
  {
    OrderIsPermutation(labels, ps, ord);
    assert labels[i] !in listed && ps[i] == pr;
    assert ord[..pr + 1][..pr] == ord[..pr];
  }

  lemma RenumberSkip<T>(labels: seq<T>, ps: seq<int>, ord: seq<T>, listed: seq<T>, qs: seq<int>, changed: seq<bool>,
                        pr: nat)
    requires InOrder(labels, ps, ord) && Distinct(labels) && pr < |ps|
    requires Renumbered(labels, ps, ord, listed, qs, changed, pr)
    requires forall i :: 0 <= i < |ps| ==> changed[i] || qs[i] != pr
    ensures |Except(ord[..pr + 1], listed)| == |Except(ord[..pr], listed)|
    ensures Renumbered(labels, ps, ord, listed, qs, changed, pr + 1)
  {
    assert pr in ps;
    var i :| 0 <= i < |ps| && ps[i] == pr;
    assert labels[i] in listed && ord[pr] == labels[i];
    assert ord[..pr + 1][..pr] == ord[..pr];
  }

  /** Both cases of one pass: i is the pool found, or the number of pools if none was. */
  lemma RenumberPass<T>(labels: seq<T>, ps: seq<int>, ord: seq<T>, listed: seq<T>, qs: seq<int>, changed: seq<bool>,
                        pr: nat, i: nat)
    requires InOrder(labels, ps, ord) && Distinct(labels) && pr < |ps|
    requires Renumbered(labels, ps, ord, listed, qs, changed, pr)
    requires i <= |qs| && (i < |qs| ==> !changed[i] && qs[i] == pr)
    requires forall k :: 0 <= k < i ==> changed[k] || qs[k] != pr
    ensures i < |qs| ==>
      |Except(ord[..pr + 1], listed)| == |Except(ord[..pr], listed)| + 1
      && Renumbered(
           labels, ps, ord, listed, qs[i := |listed| + |Except(ord[..pr], listed)|], changed[i := true], pr + 1)
    ensures i == |qs| ==>
      |Except(ord[..pr + 1], listed)| == |Except(ord[..pr], listed)|
      && Renumbered(labels, ps, ord, listed, qs, changed, pr + 1)
  {
    if i < |qs| {
      RenumberStep(labels, ps, ord, listed, qs, changed, pr, i);
    } else {
      RenumberSkip(labels, ps, ord, listed, qs, changed, pr);
    }
  }

  /** At the end the listed pools come first, in list order, and the others follow in their old order. */
  lemma RenumberDone<T>(labels: seq<T>, ps: seq<int>, ord: seq<T>, listed: seq<T>, qs: seq<int>, changed: seq<bool>)
    requires InOrder(labels, ps, ord) && Distinct(labels) && Distinct(listed)
    requires forall x :: x in listed ==> x in labels
    requires Renumbered(labels, ps, ord, listed, qs, changed, |ps|)
    ensures InOrder(labels, qs, listed + Except(ord, listed))
  {
    OrderIsPermutation(labels, ps, ord);
    var rest := Except(ord, listed);
    LabelsInOrder(labels, ps, ord);
    ExceptCount(ord, listed);
    forall i | 0 <= i < |ps|
      ensures 0 <= qs[i] < |ord| && (listed + rest)[qs[i]] == labels[i]
    {
      if labels[i] !in listed {
        ExceptAt(ord, listed, ps[i]);
      }
    }
    EveryPlaceTaken(labels, qs, listed + rest);
  }

  lemma LabelsInOrder<T>(labels: seq<T>, ps: seq<int>, ord: seq<T>)
    requires InOrder(labels, ps, ord)
    ensures forall x :: x in labels <==> x in ord
  {
    forall c | 0 <= c < |ord|
      ensures ord[c] in labels
    {
      assert c in ps;
      var i :| 0 <= i < |ps| && ps[i] == c;
    }
  }

  /** Distinct labels read off one list take every place of it. */
  lemma EveryPlaceTaken<T>(labels: seq<T>, qs: seq<int>, ord: seq<T>)
    requires |qs| == |labels| == |ord| && Distinct(labels)
    requires forall i :: 0 <= i < |qs| ==> 0 <= qs[i] < |ord| && ord[qs[i]] == labels[i]
    ensures InOrder(labels, qs, ord)
  {
    forall c | 0 <= c < |ord|
      ensures c in qs
    {
      Pigeonhole(qs, c);
    }
  }
}
