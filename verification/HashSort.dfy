/**
 * HASH_SORT of uthash.h: a bottom-up merge sort of the application order of a hash table. The list is given by the
 * places its elements had at the start, so the keys at these places are all that the comparison sees.
 */
module HashSort {

  /** The order a stable sort leaves two places in: by key, and by place where the keys are equal. */
  predicate Before(keys: seq<int>, a: nat, b: nat) {
    a < |keys| && b < |keys| && (keys[a] < keys[b] || (keys[a] == keys[b] && a < b))
  }

  /** Places of the keys, in order and so without repetition. */
  ghost predicate Ascending(keys: seq<int>, s: seq<nat>) {
    && (forall i :: 0 <= i < |s| ==> s[i] < |keys|)
    && forall i, j :: 0 <= i < j < |s| ==> Before(keys, s[i], s[j])
  }

  /** What a stable sort of the keys is: every place once, in that order. */
  ghost predicate StableOrder(keys: seq<int>, s: seq<nat>) {
    Ascending(keys, s) && forall x: nat :: x in s <==> x < |keys|
  }

  /** There is only one. */
  lemma {:induction false} StableUnique(keys: seq<int>, s: seq<nat>, t: seq<nat>)
    requires StableOrder(keys, s) && StableOrder(keys, t)
    ensures s == t
  {
    SameOrder(keys, s, t);
  }

  lemma {:induction false} SameOrder(keys: seq<int>, s: seq<nat>, t: seq<nat>)
    requires Ascending(keys, s) && Ascending(keys, t)
    requires forall x: nat :: x in s <==> x in t
    ensures s == t
  {
    if |s| == 0 {
      if |t| > 0 {
        NotEmpty(t, s);
      }
    } else {
      assert s[0] in t;
      assert t[0] in s;
      SameFirst(keys, s, t);
      forall x: nat
        ensures x in s[1..] <==> x in t[1..]
      {
        RestWithoutFirst(keys, s, x);
        RestWithoutFirst(keys, t, x);
      }
      SameOrder(keys, s[1..], t[1..]);
      assert s == [s[0]] + s[1..] && t == [t[0]] + t[1..];
    }
  }

  lemma {:induction false} NotEmpty(s: seq<nat>, t: seq<nat>)
    requires |s| > 0 && forall x: nat :: x in s ==> x in t
    ensures |t| > 0
  {
    assert s[0] in t;
  }

  lemma {:induction false} SameFirst(keys: seq<int>, s: seq<nat>, t: seq<nat>)
    requires Ascending(keys, s) && Ascending(keys, t) && |s| > 0 && |t| > 0 && s[0] in t && t[0] in s
    ensures s[0] == t[0]
  {
    FirstLeast(keys, s, t[0]);
    FirstLeast(keys, t, s[0]);
  }

  lemma {:induction false} FirstLeast(keys: seq<int>, s: seq<nat>, x: nat)
    requires Ascending(keys, s) && x in s
    ensures |s| > 0 && (x == s[0] || Before(keys, s[0], x))
  {
    var j :| 0 <= j < |s| && s[j] == x;
    if j > 0 {
      assert Before(keys, s[0], s[j]);
    }
  }

  lemma {:induction false} RestWithoutFirst(keys: seq<int>, s: seq<nat>, x: nat)
    requires Ascending(keys, s) && |s| > 0
    ensures x in s[1..] <==> x in s && x != s[0]
  {
    assert s == [s[0]] + s[1..];
    if x in s[1..] {
      var i :| 0 <= i < |s| - 1 && s[1..][i] == x;
      assert Before(keys, s[0], s[i + 1]);
    }
  }

  /** Where the j-th run of a length starts, if the list is long enough. */
  function Cut(insize: nat, j: nat, n: nat): (c: nat)
    ensures c <= n
  {
    if insize * j < n then insize * j else n
  }

  /** A stretch of the list that holds its own places, sorted. */
  ghost predicate Run(keys: seq<int>, s: seq<nat>, from: nat, to: nat) {
    && from <= to <= |s| && to <= |keys|
    && (forall i :: from <= i < to ==> from <= s[i] < to)
    && (forall i, j :: from <= i < j < to ==> Before(keys, s[i], s[j]))
    && forall x: nat :: from <= x < to ==> x in s[from..to]
  }

  /** The list before a pass, cut into sorted runs. */
  ghost predicate Runs(keys: seq<int>, s: seq<nat>, insize: nat) {
    |s| == |keys| && forall j: nat :: Run(keys, s, Cut(insize, j, |s|), Cut(insize, j + 1, |s|))
  }

  function Least(a: nat, b: nat): nat {
    if a < b then a else b
  }

  lemma {:induction false} AscendingOn(keys: seq<int>, s: seq<nat>, x: nat)
    requires Ascending(keys, s) && x < |keys| && (s == [] || Before(keys, s[|s| - 1], x))
    ensures Ascending(keys, s + [x])
  {
  }

  /** What a merge has got to: it has taken what precedes p and q, and all of it comes before what is left. */
  ghost predicate Merging(keys: seq<int>, list: seq<nat>, from: nat, p: nat, middle: nat, q: nat, end: nat,
      out: seq<nat>) {
    && from <= p <= middle <= q <= end <= |list|
    && |out| == p - from + q - middle && Ascending(keys, out)
    && (out == [] || p == middle || Before(keys, out[|out| - 1], list[p]))
    && (out == [] || q == end || Before(keys, out[|out| - 1], list[q]))
    && forall x: nat :: x in out <==> x in list[from..p] || x in list[middle..q]
  }

  lemma {:induction false} TakeP(keys: seq<int>, list: seq<nat>, from: nat, p: nat, middle: nat, q: nat, end: nat,
      out: seq<nat>)
    requires Merging(keys, list, from, p, middle, q, end, out) && p < middle
    requires Run(keys, list, from, middle) && Run(keys, list, middle, end)
    requires q < end ==> keys[list[p]] <= keys[list[q]]
    ensures Merging(keys, list, from, p + 1, middle, q, end, out + [list[p]])
  {
    AscendingOn(keys, out, list[p]);
    assert list[from..p + 1] == list[from..p] + [list[p]];
    assert q < end ==> Before(keys, list[p], list[q]);
    hide Ascending;
  }

  lemma {:induction false} TakeQ(keys: seq<int>, list: seq<nat>, from: nat, p: nat, middle: nat, q: nat, end: nat,
      out: seq<nat>)
    requires Merging(keys, list, from, p, middle, q, end, out) && q < end
    requires Run(keys, list, from, middle) && Run(keys, list, middle, end)
    requires p < middle ==> keys[list[q]] < keys[list[p]]
    ensures Merging(keys, list, from, p, middle, q + 1, end, out + [list[q]])
  {
    AscendingOn(keys, out, list[q]);
    assert list[middle..q + 1] == list[middle..q] + [list[q]];
    assert p < middle ==> Before(keys, list[q], list[p]);
    hide Ascending;
  }

  lemma {:induction false} Merged(keys: seq<int>, list: seq<nat>, from: nat, middle: nat, end: nat, out: seq<nat>)
    requires Merging(keys, list, from, middle, middle, end, end, out)
    requires Run(keys, list, from, middle) && Run(keys, list, middle, end)
    ensures |out| == end - from && Ascending(keys, out) && forall x: nat :: x in out <==> from <= x < end
  {
    hide Before, Ascending;
    forall x: nat
      ensures x in list[from..middle] <==> from <= x < middle
      ensures x in list[middle..end] <==> middle <= x < end
    {
    }
  }

  lemma {:induction false} RunPlaces(keys: seq<int>, list: seq<nat>, from: nat, to: nat)
    requires Run(keys, list, from, to)
    ensures from <= to <= |list| && to <= |keys| && forall i :: from <= i < to ==> list[i] < |keys|
  {
  }

  /** One comparison after the other, two neighbouring runs become one. */
  method Merge(keys: seq<int>, list: seq<nat>, from: nat, middle: nat, insize: nat) returns (out: seq<nat>, q: nat)
    requires |list| == |keys|
    requires Run(keys, list, from, middle) && Run(keys, list, middle, Least(middle + insize, |list|))
    ensures q == Least(middle + insize, |list|)
    ensures |out| == q - from && Ascending(keys, out) && forall x: nat :: x in out <==> from <= x < q
  {
    hide Run, Merging, Ascending;
    var p, psize, qsize := from, middle - from, insize;
    q, out := middle, [];
    ghost var end := Least(middle + insize, |list|);
    RunPlaces(keys, list, from, middle);
    RunPlaces(keys, list, middle, end);
    MergeStart(keys, list, from, middle, end);
    while psize > 0 || (qsize > 0 && q < |list|)
      invariant from <= p == middle - psize <= middle <= q <= end && q - middle == insize - qsize
      invariant Merging(keys, list, from, p, middle, q, end, out)
      decreases psize + qsize
    {
      if psize == 0 {
        TakeQ(keys, list, from, p, middle, q, end, out);
        out, q, qsize := out + [list[q]], q + 1, qsize - 1;
      } else if qsize == 0 || q == |list| || keys[list[p]] <= keys[list[q]] {
        TakeP(keys, list, from, p, middle, q, end, out);
        out, p, psize := out + [list[p]], p + 1, psize - 1;
      } else {
        TakeQ(keys, list, from, p, middle, q, end, out);
        out, q, qsize := out + [list[q]], q + 1, qsize - 1;
      }
    }
    Merged(keys, list, from, middle, end, out);
  }

  lemma {:induction false} MergeStart(keys: seq<int>, list: seq<nat>, from: nat, middle: nat, end: nat)
    requires from <= middle <= end <= |list|
    ensures Merging(keys, list, from, from, middle, middle, end, [])
  {
  }

  /** The walk from p to q, at most insize steps. */
  method Step(n: nat, p: nat, insize: nat) returns (q: nat, psize: nat)
    requires p < n && insize > 0
    ensures q == Least(p + insize, n) && psize == q - p
  {
    q, psize := p, 0;
    var i := 0;
    while i < insize
      invariant i <= insize && q == p + i < n && psize == i
    {
      psize := psize + 1;
      q := q + 1;
      if q == n {
        break;
      }
      i := i + 1;
    }
  }

  lemma CutNext(insize: nat, j: nat, n: nat)
    requires insize > 0
    ensures Cut(insize, j + 1, n) == Least(Cut(insize, j, n) + insize, n) && Cut(insize, 0, n) == 0
  {
    assert insize * (j + 1) == insize * j + insize;
  }

  lemma CutTwice(insize: nat, j: nat, n: nat)
    ensures Cut(2 * insize, j, n) == Cut(insize, 2 * j, n)
  {
    assert (2 * insize) * j == insize * (2 * j);
  }

  /** From a run on there are two, up to where the next merged run starts. */
  lemma CutsAt(insize: nat, j: nat, n: nat)
    requires insize > 0
    ensures Cut(insize, 2 * j, n) == Cut(2 * insize, j, n)
    ensures Cut(insize, 2 * j + 1, n) == Least(Cut(2 * insize, j, n) + insize, n)
    ensures Cut(2 * insize, j + 1, n) == Least(Least(Cut(2 * insize, j, n) + insize, n) + insize, n)
    ensures Cut(insize, 2 * j + 2, n) == Cut(2 * insize, j + 1, n)
  {
    CutTwice(insize, j, n);
    CutTwice(insize, j + 1, n);
    CutNext(insize, 2 * j, n);
    CutNext(insize, 2 * j + 1, n);
    hide Cut;
  }

  lemma {:induction false} TwoRuns(keys: seq<int>, list: seq<nat>, insize: nat, merges: nat)
    requires insize > 0 && Runs(keys, list, insize)
    ensures var p, n := Cut(2 * insize, merges, |list|), |list|; var q := Least(p + insize, n);
      Run(keys, list, p, q) && Run(keys, list, q, Least(q + insize, n))
  {
    hide Run, Cut, Least;
    CutsAt(insize, merges, |list|);
    var j := 2 * merges;
    assert Run(keys, list, Cut(insize, j, |list|), Cut(insize, j + 1, |list|));
    assert Run(keys, list, Cut(insize, j + 1, |list|), Cut(insize, j + 1 + 1, |list|));
  }

  /** The merged runs so far: each has twice the length of the runs before the pass. */
  ghost predicate Passed(keys: seq<int>, out: seq<nat>, insize: nat, merges: nat) {
    && |out| == Cut(2 * insize, merges, |keys|)
    && forall j: nat :: j < merges ==> Run(keys, out, Cut(2 * insize, j, |keys|), Cut(2 * insize, j + 1, |keys|))
  }

  lemma {:induction false} RunKept(keys: seq<int>, out: seq<nat>, more: seq<nat>, from: nat, to: nat)
    requires Run(keys, out, from, to)
    ensures Run(keys, out + more, from, to)
  {
    assert (out + more)[from..to] == out[from..to];
    hide Before;
  }

  lemma {:induction false} RunMerged(keys: seq<int>, out: seq<nat>, merged: seq<nat>, q: nat)
    requires |out| + |merged| == q <= |keys|
    requires Ascending(keys, merged) && forall x: nat :: x in merged <==> |out| <= x < q
    ensures Run(keys, out + merged, |out|, q)
  {
    assert (out + merged)[|out|..q] == merged;
    assert forall i :: |out| <= i < q ==> (out + merged)[i] == merged[i - |out|] && merged[i - |out|] in merged;
    hide Before;
  }

  lemma {:induction false} PassOn(keys: seq<int>, out: seq<nat>, merged: seq<nat>, insize: nat, merges: nat)
    requires insize > 0 && Passed(keys, out, insize, merges)
    requires var q := Cut(2 * insize, merges + 1, |keys|);
      |out| + |merged| == q && Ascending(keys, merged) && forall x: nat :: x in merged <==> |out| <= x < q
    ensures Passed(keys, out + merged, insize, merges + 1)
  {
    hide Run, Cut, Ascending;
    RunMerged(keys, out, merged, |out| + |merged|);
    forall j: nat | j < merges + 1
      ensures Run(keys, out + merged, Cut(2 * insize, j, |keys|), Cut(2 * insize, j + 1, |keys|))
    {
      if j < merges {
        RunKept(keys, out, merged, Cut(2 * insize, j, |keys|), Cut(2 * insize, j + 1, |keys|));
      }
    }
  }

  lemma CutEnds(insize: nat, i: nat, j: nat, n: nat)
    requires Cut(insize, i, n) == n && i <= j
    ensures Cut(insize, j, n) == n
  {
    assert insize * i <= insize * j;
  }

  lemma {:induction false} RunNone(keys: seq<int>, s: seq<nat>)
    requires |s| == |keys|
    ensures Run(keys, s, |s|, |s|)
  {
  }

  /** A pass over the whole list doubles the length of its runs. */
  lemma {:induction false} PassDone(keys: seq<int>, out: seq<nat>, insize: nat, merges: nat)
    requires Passed(keys, out, insize, merges) && |out| == |keys|
    ensures Runs(keys, out, 2 * insize)
  {
    hide Run, Cut;
    forall j: nat
      ensures Run(keys, out, Cut(2 * insize, j, |out|), Cut(2 * insize, j + 1, |out|))
    {
      if j >= merges {
        CutEnds(2 * insize, merges, j, |out|);
        CutEnds(2 * insize, merges, j + 1, |out|);
        RunNone(keys, out);
      }
    }
  }

  /** A pass that merged once has sorted the list. */
  lemma {:induction false} OnePass(keys: seq<int>, out: seq<nat>, insize: nat)
    requires insize > 0 && Passed(keys, out, insize, 1) && |out| == |keys|
    ensures StableOrder(keys, out)
  {
    assert Run(keys, out, Cut(2 * insize, 0, |keys|), Cut(2 * insize, 1, |keys|));
    assert Run(keys, out, 0, |keys|);
    WholeRun(keys, out);
  }

  lemma {:induction false} WholeRun(keys: seq<int>, out: seq<nat>)
    requires Run(keys, out, 0, |keys|) && |out| == |keys|
    ensures StableOrder(keys, out)
  {
    assert out[0..|keys|] == out;
    hide Before;
  }

  lemma {:induction false} SingleRuns(keys: seq<int>, list: seq<nat>)
    requires |list| == |keys| && forall i :: 0 <= i < |list| ==> list[i] == i
    ensures Runs(keys, list, 1)
  {
    forall j: nat
      ensures Run(keys, list, Cut(1, j, |list|), Cut(1, j + 1, |list|))
    {
      assert j < |list| ==> list[j..j + 1] == [j];
    }
  }

  /** One pass over the list. */
  method Pass(keys: seq<int>, list: seq<nat>, insize: nat) returns (out: seq<nat>, merges: nat)
    requires insize > 0 && Runs(keys, list, insize) && |keys| > 0
    ensures |out| == |keys| && Runs(keys, out, 2 * insize) && merges > 0
    ensures merges == 1 ==> StableOrder(keys, out)
    ensures merges > 1 ==> 2 * insize < |keys|
  {
    hide Run, Ascending, StableOrder;
    var n, p := |keys|, 0;
    merges, out := 0, [];
    while p < n
      invariant p == |out| == Cut(2 * insize, merges, n) && Passed(keys, out, insize, merges)
      invariant (merges > 0 || p == 0) && (merges > 1 ==> 2 * insize < n)
      decreases n - p
    {
      TwoRuns(keys, list, insize, merges);
      CutsAt(insize, merges, n);
      var q, psize := Step(n, p, insize);
      var merged;
      merged, q := Merge(keys, list, p, q, insize);
      PassOn(keys, out, merged, insize, merges);
      out, p, merges := out + merged, q, merges + 1;
    }
    PassDone(keys, out, insize, merges);
    if merges == 1 {
      OnePass(keys, out, insize);
    }
  }

  /** HASH_SORT on the list that has every element in its place. */
  method Sort(keys: seq<int>) returns (list: seq<nat>)
    ensures StableOrder(keys, list)
  {
    hide Runs;
    list := seq(|keys|, i => i);
    var insize, looping := 1, |keys| > 0;
    SingleRuns(keys, list);
    while looping
      invariant insize > 0 && |list| == |keys| && Runs(keys, list, insize)
      invariant if looping then |keys| > 0 && (insize == 1 || insize < |keys|) else StableOrder(keys, list)
      decreases looping, |keys| - insize
    {
      var merges;
      list, merges := Pass(keys, list, insize);
      looping := merges > 1;
      insize := 2 * insize;
    }
  }
}
