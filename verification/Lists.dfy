/**
 * The intrusive circular lists of elist.h. The item of a node stands for the structure it is embedded in. A list is
 * its head node together with the sequence of nodes that follow it around the circle.
 */
module Lists {
  import opened Sequences

  class Node<T> {
    const item: T
    var next: Node?<T>
    var prev: Node?<T>

    constructor (item: T)
      ensures this.item == item
    {
      this.item, next, prev := item, null, null;
    }
  }

  ghost predicate Joined<T>(a: Node<T>, b: Node<T>)
    reads a`next, b`prev
  {
    a.next == b && b.prev == a
  }

  ghost function Front<T>(c: seq<Node<T>>): seq<Node<T>> {
    if |c| == 0 then c else c[..|c| - 1]
  }

  ghost function Rest<T>(c: seq<Node<T>>): seq<Node<T>> {
    if |c| == 0 then c else c[1..]
  }

  /** Consecutive nodes point at each other. Nothing is said of the outer pointers of the two ends. */
  ghost predicate Linked<T>(c: seq<Node<T>>)
    reads Front(c)`next, Rest(c)`prev
  {
    |c| <= 1 || (Joined(c[0], c[1]) && Linked(c[1..]))
  }

  /** The list at head holds the nodes s, in this order. */
  ghost predicate Ring<T>(head: Node<T>, s: seq<Node<T>>)
    reads head, s
  {
    Distinct([head] + s) && Linked([head] + s + [head])
  }

  /** The node in front of position k, and the one at it: the head stands at either end. */
  ghost function Before<T>(head: Node<T>, s: seq<Node<T>>, k: nat): Node<T>
    requires k <= |s|
  {
    if k == 0 then head else s[k - 1]
  }

  ghost function After<T>(head: Node<T>, s: seq<Node<T>>, k: nat): Node<T>
    requires k <= |s|
  {
    if k == |s| then head else s[k]
  }

  lemma {:induction false} LinkedConcat<T>(a: seq<Node<T>>, b: seq<Node<T>>)
    requires |a| > 0 && |b| > 0
    ensures Linked(a + b) <==> Linked(a) && Linked(b) && Joined(a[|a| - 1], b[0])
  {
    if |a| == 1 {
      assert (a + b)[1..] == b;
    } else {
      LinkedConcat(a[1..], b);
      assert (a + b)[1..] == a[1..] + b;
    }
  }

  /** A list cut in two before position k. */
  lemma {:induction false} Cut<T>(head: Node<T>, s: seq<Node<T>>, k: nat)
    requires Ring(head, s) && k <= |s|
    ensures Linked([head] + s[..k]) && Linked(s[k..] + [head])
    ensures Joined(Before(head, s, k), After(head, s, k))
  {
    hide Linked;
    LinkedConcat([head] + s[..k], s[k..] + [head]);
    assert ([head] + s[..k]) + (s[k..] + [head]) == [head] + s + [head];
  }

  lemma {:induction false} Apart<T>(c: seq<Node<T>>, k: nat)
    requires Distinct(c) && k < |c|
    ensures c[k] !in c[..k] && c[k] !in c[k + 1..]
  {
  }

  /** The nodes at the cut appear nowhere else in the two parts, except for the head as their outer ends. */
  lemma {:induction false} CutApart<T>(head: Node<T>, s: seq<Node<T>>, k: nat)
    requires Distinct([head] + s) && k <= |s|
    ensures Before(head, s, k) !in Front([head] + s[..k]) && Before(head, s, k) !in Front(s[k..] + [head])
    ensures After(head, s, k) !in Rest([head] + s[..k]) && After(head, s, k) !in Rest(s[k..] + [head])
  {
    var c, a, b := [head] + s, [head] + s[..k], s[k..] + [head];
    Apart(c, k);
    Apart(c, 0);
    assert c[k] == Before(head, s, k);
    assert Front(a) == c[..k] && Front(b) == c[k + 1..] && Rest(a) == s[..k];
    if k < |s| {
      Apart(c, k + 1);
      assert Rest(b) == c[k + 2..] + [head] && s[..k] == c[..k + 1][1..];
    } else {
      assert s[..k] == c[1..] && Rest(b) == [];
    }
    hide Distinct, Front, Rest;
  }

  /** Two parts put together, the other way round. */
  lemma {:induction false} Close<T>(head: Node<T>, a: seq<Node<T>>, b: seq<Node<T>>)
    requires Linked([head] + a) && Linked(b + [head]) && Joined(Before(head, a, |a|), After(head, b, 0))
    requires Distinct([head] + (a + b))
    ensures Ring(head, a + b)
  {
    hide Linked;
    LinkedConcat([head] + a, b + [head]);
    assert ([head] + a) + (b + [head]) == [head] + (a + b) + [head];
  }

  /** __list_del: joins two nodes. */
  method Join<T>(a: Node<T>, b: Node<T>)
    modifies a`next, b`prev
    ensures Joined(a, b)
  {
    b.prev := a;
    a.next := b;
  }

  /** Writing other pointers leaves nodes linked. */
  twostate lemma {:induction false} StillLinked<T>(c: seq<Node<T>>)
    requires old(Linked(c))
    requires forall v :: v in Front(c) ==> v.next == old(v.next)
    requires forall v :: v in Rest(c) ==> v.prev == old(v.prev)
    ensures Linked(c)
  {
    if |c| <= 1 {
    } else {
      var d := c[1..];
      assert Front(c) == [c[0]] + Front(d) && Rest(c) == [c[1]] + Rest(d);
      assert c[0] in Front(c) && c[1] in Rest(c);
      StillLinked(d);
      assert Joined(c[0], c[1]) by {
        assert old(Joined(c[0], c[1]));
      }
    }
  }

  /** Joining the ends of two parts leaves the parts linked. */
  method JoinParts<T>(ghost a: seq<Node<T>>, ghost b: seq<Node<T>>, prev: Node<T>, next: Node<T>)
    requires Linked(a) && Linked(b)
    requires prev !in Front(a) && prev !in Front(b) && next !in Rest(a) && next !in Rest(b)
    modifies prev`next, next`prev
    ensures Joined(prev, next) && Linked(a) && Linked(b)
  {
    hide Linked;
    Join(prev, next);
    StillLinked(a);
    StillLinked(b);
  }

  /** __list_add. */
  method AddBetween<T>(x: Node<T>, prev: Node<T>, next: Node<T>)
    requires x != prev && x != next
    modifies x, prev`next, next`prev
    ensures Joined(prev, x) && Joined(x, next)
  {
    next.prev := x;
    x.next := next;
    x.prev := prev;
    prev.next := x;
  }

  /** Adding a node between the ends of two parts it is in neither of leaves the parts linked. */
  method AddParts<T>(ghost a: seq<Node<T>>, ghost b: seq<Node<T>>, x: Node<T>, prev: Node<T>, next: Node<T>)
    requires Linked(a) && Linked(b) && x != prev && x != next
    requires prev !in Front(a) && prev !in Front(b) && next !in Rest(a) && next !in Rest(b)
    requires x !in Front(a) && x !in Front(b) && x !in Rest(a) && x !in Rest(b)
    modifies x, prev`next, next`prev
    ensures Joined(prev, x) && Joined(x, next) && Linked(a) && Linked(b)
  {
    hide Linked;
    AddBetween(x, prev, next);
    StillLinked(a);
    StillLinked(b);
  }

  /** The node is in neither part of the list it is new to. */
  lemma {:induction false} NewApart<T>(head: Node<T>, s: seq<Node<T>>, k: nat, x: Node<T>)
    requires k <= |s| && x != head && x !in s
    ensures x != Before(head, s, k) && x != After(head, s, k)
    ensures x !in Front([head] + s[..k]) && x !in Rest([head] + s[..k])
    ensures x !in Front(s[k..] + [head]) && x !in Rest(s[k..] + [head])
  {
  }

  /** Inserting a node that is not in the list at position k. */
  method InsertAt<T>(head: Node<T>, ghost s: seq<Node<T>>, ghost k: nat, x: Node<T>, prev: Node<T>, next: Node<T>)
    requires Ring(head, s) && k <= |s| && x != head && x !in s
    requires prev == Before(head, s, k) && next == After(head, s, k)
    modifies x, prev`next, next`prev
    ensures Ring(head, s[..k] + [x] + s[k..])
  {
    hide Linked, Distinct, Before, After, Joined;
    Cut(head, s, k);
    CutApart(head, s, k);
    NewApart(head, s, k, x);
    hide Front, Rest;
    AddParts([head] + s[..k], s[k..] + [head], x, prev, next);
    Place(head, s, k, x);
  }

  lemma {:induction false} PlaceNoDup<T>(c: seq<Node<T>>, k: nat, x: Node<T>)
    requires Distinct(c) && k <= |c| && x !in c
    ensures Distinct(c[..k] + [x] + c[k..])
  {
  }

  lemma {:induction false} Place<T>(head: Node<T>, s: seq<Node<T>>, k: nat, x: Node<T>)
    requires k <= |s| && x != head && x !in s && Distinct([head] + s)
    requires Linked([head] + s[..k]) && Linked(s[k..] + [head])
    requires Joined(Before(head, s, k), x) && Joined(x, After(head, s, k))
    ensures Ring(head, s[..k] + [x] + s[k..])
  {
    LinkedConcat([head] + s[..k], [x]);
    hide Linked;
    assert [head] + s[..k] + [x] == [head] + (s[..k] + [x]);
    PlaceNoDup([head] + s, k + 1, x);
    assert ([head] + s)[..k + 1] + [x] + ([head] + s)[k + 1..] == [head] + (s[..k] + [x] + s[k..]);
    Close(head, s[..k] + [x], s[k..]);
  }

  /** list_add: a new first node. */
  method ListAdd<T>(x: Node<T>, head: Node<T>, ghost s: seq<Node<T>>)
    requires Ring(head, s) && x != head && x !in s
    modifies x, head`next, After(head, s, 0)`prev
    ensures Ring(head, [x] + s)
  {
    hide Linked, Distinct;
    Cut(head, s, 0);
    InsertAt(head, s, 0, x, head, head.next);
    assert s[..0] + [x] + s[0..] == [x] + s;
  }

  /** list_add_tail: a new last node. */
  method ListAddTail<T>(x: Node<T>, head: Node<T>, ghost s: seq<Node<T>>)
    requires Ring(head, s) && x != head && x !in s
    modifies x, head`prev, Before(head, s, |s|)`next
    ensures Ring(head, s + [x])
  {
    hide Linked, Distinct;
    Cut(head, s, |s|);
    InsertAt(head, s, |s|, x, head.prev, head);
    assert s[..|s|] + [x] + s[|s|..] == s + [x];
  }

  /** s after position k is taken out. */
  function Removed<T>(s: seq<T>, k: nat): (r: seq<T>)
    requires k < |s|
    ensures |r| == |s| - 1
  {
    s[..k] + s[k + 1..]
  }

  lemma {:induction false} Around<T>(head: Node<T>, s: seq<Node<T>>, k: nat)
    requires Ring(head, s) && k < |s|
    ensures s[k].prev == Before(head, s, k) && s[k].next == After(head, s, k + 1)
    ensures Linked([head] + s[..k]) && Linked(s[k + 1..] + [head])
  {
    hide Linked, Distinct;
    Cut(head, s, k);
    Cut(head, s, k + 1);
  }

  lemma {:induction false} RemovedNoDup<T>(head: Node<T>, s: seq<Node<T>>, k: nat)
    requires Distinct([head] + s) && k < |s|
    ensures Distinct([head] + Removed(s, k)) && s[k] !in Removed(s, k) && s[k] != head
  {
    assert ([head] + s)[k + 1] == s[k] && ([head] + s)[0] == head;
    forall i | 0 <= i < |Removed(s, k)|
      ensures Removed(s, k)[i] == ([head] + s)[if i < k then i + 1 else i + 2]
    {
    }
  }

  /** The parts in front of a node and behind it: joining their ends touches neither. */
  lemma {:induction false} BridgeParts<T>(head: Node<T>, s: seq<Node<T>>, k: nat, a: seq<Node<T>>, b: seq<Node<T>>)
    requires Ring(head, s) && k < |s| && a == s[..k] && b == s[k + 1..]
    ensures Removed(s, k) == a + b && s[k] !in a + b && s[k] != head && Distinct([head] + (a + b))
    ensures Linked([head] + a) && Linked(b + [head])
    ensures s[k].prev == Before(head, a, |a|) && s[k].next == After(head, b, 0)
    ensures s[k].prev !in Front([head] + a) && s[k].prev !in Front(b + [head])
    ensures s[k].next !in Rest([head] + a) && s[k].next !in Rest(b + [head])
  {
    hide Linked;
    RemovedNoDup(head, s, k);
    hide Distinct;
    Around(head, s, k);
    var t := a + b;
    assert t[..k] == a && t[k..] == b;
    CutApart(head, t, k);
    hide Front, Rest;
  }

  /** Bridging over the node at position k. Its own pointers stay. */
  method Bridge<T>(ghost head: Node<T>, ghost s: seq<Node<T>>, ghost k: nat, prev: Node<T>, next: Node<T>)
    requires Ring(head, s) && k < |s|
    requires prev == s[k].prev && next == s[k].next
    modifies prev`next, next`prev
    ensures Ring(head, Removed(s, k)) && s[k] !in Removed(s, k) && s[k] != head
  {
    hide Linked, Distinct, Before, After, Removed;
    ghost var a, b := s[..k], s[k + 1..];
    BridgeParts(head, s, k, a, b);
    JoinParts([head] + a, b + [head], prev, next);
    Close(head, a, b);
  }

  /** list_del. */
  method ListDel<T>(x: Node<T>, ghost head: Node<T>, ghost s: seq<Node<T>>, ghost k: nat)
    requires Ring(head, s) && k < |s| && x == s[k]
    modifies x, Before(head, s, k)`next, After(head, s, k + 1)`prev
    ensures Ring(head, Removed(s, k)) && x.next == null && x.prev == null
  {
    hide Linked, Distinct;
    Around(head, s, k);
    Bridge(head, s, k, x.prev, x.next);
    x.next := null;
    x.prev := null;
  }

  /** list_del_init. */
  method ListDelInit<T>(x: Node<T>, ghost head: Node<T>, ghost s: seq<Node<T>>, ghost k: nat)
    requires Ring(head, s) && k < |s| && x == s[k]
    modifies x, Before(head, s, k)`next, After(head, s, k + 1)`prev
    ensures Ring(head, Removed(s, k)) && Ring(x, [])
  {
    hide Linked, Distinct;
    Around(head, s, k);
    Bridge(head, s, k, x.prev, x.next);
    InitListHead(x);
  }

  /** INIT_LIST_HEAD. */
  method InitListHead<T>(x: Node<T>)
    modifies x
    ensures Ring(x, []) && x.next == x.prev == x
  {
    x.next := x;
    x.prev := x;
    assert [x] + [] + [x] == [x, x];
    assert Linked([x, x][1..]);
  }

  /** list_empty. */
  method ListEmpty<T>(head: Node<T>, ghost s: seq<Node<T>>) returns (empty: bool)
    requires Ring(head, s)
    ensures empty == (s == [])
  {
    empty := head.next == head;
    Cut(head, s, 0);
    if |s| > 0 {
      assert ([head] + s)[1] == s[0];
    }
  }

  /** Two lists with no node in common. */
  ghost predicate Disjoint<T>(head: Node<T>, s: seq<Node<T>>, other: Node<T>, t: seq<Node<T>>) {
    head != other && head !in t && other !in s && forall v :: v in s ==> v !in t
  }

  /** What list_move and list_move_tail are called with: a node of one list, and the same list or another. */
  ghost predicate Movable<T>(x: Node<T>, from: Node<T>, s: seq<Node<T>>, k: nat, head: Node<T>, t: seq<Node<T>>)
    reads from, s, head, t
  {
    Ring(from, s) && Ring(head, t) && k < |s| && x == s[k]
    && if from == head then s == t else Disjoint(from, s, head, t)
  }

  /** What the node leaves behind in the list it goes to. */
  ghost function Remaining<T>(from: Node<T>, k: nat, head: Node<T>, t: seq<Node<T>>): seq<Node<T>>
    requires from == head ==> k < |t|
  {
    if from == head then Removed(t, k) else t
  }

  /** The deletion that a move begins with. */
  method Detach<T>(x: Node<T>, ghost from: Node<T>, ghost s: seq<Node<T>>, ghost k: nat,
      ghost head: Node<T>, ghost t: seq<Node<T>>)
    requires Movable(x, from, s, k, head, t)
    modifies Before(from, s, k)`next, After(from, s, k + 1)`prev
    ensures Ring(from, Removed(s, k)) && Ring(head, Remaining(from, k, head, t))
    ensures x != head && x !in Remaining(from, k, head, t) && x != from && x !in Removed(s, k)
  {
    hide Linked, Distinct;
    Around(from, s, k);
    if from != head {
      assert Before(from, s, k) !in t && After(from, s, k + 1) !in t;
      assert Before(from, s, k) != head && After(from, s, k + 1) != head;
    }
    Bridge(from, s, k, x.prev, x.next);
  }

  /** list_move: to the front of a list. */
  method ListMove<T>(x: Node<T>, head: Node<T>,
      ghost from: Node<T>, ghost s: seq<Node<T>>, ghost k: nat, ghost t: seq<Node<T>>)
    requires Movable(x, from, s, k, head, t)
    modifies x, Before(from, s, k)`next, After(from, s, k + 1)`prev, head`next, After(head, t, 0)`prev
    ensures Ring(head, [x] + Remaining(from, k, head, t))
    ensures from != head ==> Ring(from, Removed(s, k))
  {
    hide Linked, Distinct;
    Detach(x, from, s, k, head, t);
    if from != head {
      StaysApart(from, s, k, head, t);
      assert After(head, t, 0) == head || After(head, t, 0) in t;
    }
    ListAdd(x, head, Remaining(from, k, head, t));
  }

  /** list_move_tail: to the end of a list. */
  method ListMoveTail<T>(x: Node<T>, head: Node<T>,
      ghost from: Node<T>, ghost s: seq<Node<T>>, ghost k: nat, ghost t: seq<Node<T>>)
    requires Movable(x, from, s, k, head, t)
    modifies x, Before(from, s, k)`next, After(from, s, k + 1)`prev, head`prev, Before(head, t, |t|)`next
    ensures Ring(head, Remaining(from, k, head, t) + [x])
    ensures from != head ==> Ring(from, Removed(s, k))
  {
    hide Linked, Distinct;
    Detach(x, from, s, k, head, t);
    if from != head {
      StaysApart(from, s, k, head, t);
      assert Before(head, t, |t|) == head || Before(head, t, |t|) in t;
    }
    ListAddTail(x, head, Remaining(from, k, head, t));
  }

  lemma {:induction false} StaysApart<T>(from: Node<T>, s: seq<Node<T>>, k: nat, head: Node<T>, t: seq<Node<T>>)
    requires k < |s| && Disjoint(from, s, head, t)
    ensures Disjoint(from, Removed(s, k), head, t)
  {
    assert forall v :: v in Removed(s, k) ==> v in s;
  }

  /** The part of a list between its ends. */
  lemma {:induction false} Inner<T>(head: Node<T>, s: seq<Node<T>>)
    requires Ring(head, s) && s != []
    ensures Linked(s)
  {
    hide Linked, Distinct;
    Cut(head, s, 0);
    LinkedConcat(s, [head]);
    assert s[0..] == s;
  }

  lemma {:induction false} Spliced<T>(list: Node<T>, t: seq<Node<T>>, head: Node<T>, s: seq<Node<T>>)
    requires Distinct([list] + t) && Distinct([head] + s) && Disjoint(list, t, head, s) && t != []
    requires Linked(t) && Linked(s + [head]) && Joined(head, t[0]) && Joined(t[|t| - 1], After(head, s, 0))
    ensures Ring(head, t + s)
  {
    LinkedConcat([head], t);
    hide Linked;
    SplicedNoDup(list, t, head, s);
    hide Distinct;
    Close(head, t, s);
  }

  lemma {:induction false} SplicedNoDup<T>(list: Node<T>, t: seq<Node<T>>, head: Node<T>, s: seq<Node<T>>)
    requires Distinct([list] + t) && Distinct([head] + s) && Disjoint(list, t, head, s)
    ensures Distinct([head] + (t + s))
  {
    var c, n := [head] + (t + s), |t|;
    assert c[..n + 1][1..] == ([list] + t)[1..];
    Behind(list, t);
    Behind(head, s);
    forall i, j | 0 <= i < j < |c|
      ensures c[i] != c[j]
    {
      if 0 < i <= n < j {
        assert c[i] in t && c[j] in s;
      }
    }
  }

  lemma {:induction false} Behind<T>(head: Node<T>, s: seq<Node<T>>)
    requires Distinct([head] + s)
    ensures Distinct(s) && head !in s
  {
    var c := [head] + s;
    assert forall i :: 0 <= i < |s| ==> s[i] == c[i + 1];
    assert c[0] == head;
  }

  /** What a splice writes to is nowhere that the parts it keeps are linked by. */
  lemma {:induction false} SpliceApart<T>(list: Node<T>, t: seq<Node<T>>, head: Node<T>, s: seq<Node<T>>)
    requires Distinct([list] + t) && Distinct([head] + s) && Disjoint(list, t, head, s) && t != []
    ensures head !in t && t[|t| - 1] !in Front(t) && t[0] !in Rest(t) && After(head, s, 0) !in Rest(t)
    ensures head !in Front(s + [head]) && t[|t| - 1] !in Front(s + [head])
    ensures t[0] !in Rest(s + [head]) && After(head, s, 0) !in Rest(s + [head])
  {
    Behind(list, t);
    Behind(head, s);
    Apart(t, 0);
    Apart(t, |t| - 1);
    assert Front(s + [head]) == s;
    assert t[0] in t && t[|t| - 1] in t;
    if |s| > 0 {
      Apart(s, 0);
      assert Rest(s + [head]) == s[1..] + [head];
      assert s[0] in s;
    }
    hide Distinct;
  }

  /** __list_splice: the nodes of a list that is not empty go to the front of another. */
  method Splice<T>(list: Node<T>, head: Node<T>, ghost t: seq<Node<T>>, ghost s: seq<Node<T>>)
    requires Ring(list, t) && Ring(head, s) && Disjoint(list, t, head, s) && t != []
    modifies head`next, After(head, s, 0)`prev, After(list, t, 0)`prev, Before(list, t, |t|)`next
    ensures Ring(head, t + s)
  {
    hide Linked, Distinct;
    Cut(list, t, 0);
    Cut(list, t, |t|);
    Cut(head, s, 0);
    Inner(list, t);
    SpliceApart(list, t, head, s);
    assert s[0..] == s;
    var first, last, at := list.next, list.prev, head.next;
    first.prev := head;
    head.next := first;
    last.next := at;
    at.prev := last;
    Spliced(list, t, head, s);
  }

  /** list_splice. */
  method ListSplice<T>(list: Node<T>, head: Node<T>, ghost t: seq<Node<T>>, ghost s: seq<Node<T>>)
    requires Ring(list, t) && Ring(head, s) && Disjoint(list, t, head, s)
    modifies head, s, t
    ensures Ring(head, t + s)
  {
    hide Linked, Distinct;
    var empty := ListEmpty(list, t);
    if empty {
      assert t + s == s;
    } else {
      Splice(list, head, t, s);
    }
  }

  /** list_splice_init. */
  method ListSpliceInit<T>(list: Node<T>, head: Node<T>, ghost t: seq<Node<T>>, ghost s: seq<Node<T>>)
    requires Ring(list, t) && Ring(head, s) && Disjoint(list, t, head, s)
    modifies list, head, s, t
    ensures Ring(head, t + s) && Ring(list, [])
  {
    hide Linked, Distinct;
    var empty := ListEmpty(list, t);
    if empty {
      assert t + s == s;
    } else {
      Behind(list, t);
      Splice(list, head, t, s);
      InitListHead(list);
    }
  }

  /** Following next goes around the circle. */
  lemma {:induction false} Step<T>(head: Node<T>, s: seq<Node<T>>, k: nat)
    requires Ring(head, s) && k <= |s|
    ensures head.next == After(head, s, 0)
    ensures k < |s| ==> After(head, s, k) != head && After(head, s, k).next == After(head, s, k + 1)
  {
    hide Linked;
    Cut(head, s, 0);
    Behind(head, s);
    hide Distinct;
    if k < |s| {
      Cut(head, s, k + 1);
    }
  }

  lemma {:induction false} PrefixAgrees<T>(head: Node<T>, s: seq<Node<T>>, t: seq<Node<T>>, k: nat)
    requires Ring(head, s) && Ring(head, t) && k <= |s| && k <= |t|
    ensures s[..k] == t[..k]
  {
    hide Ring;
    if k == 0 {
    } else {
      PrefixAgrees(head, s, t, k - 1);
      Cut(head, s, k - 1);
      Cut(head, t, k - 1);
      assert s[..k] == s[..k - 1] + [s[k - 1]] && t[..k] == t[..k - 1] + [t[k - 1]];
      assert k > 1 ==> s[k - 2] == s[..k - 1][k - 2] && t[k - 2] == t[..k - 1][k - 2];
    }
  }

  lemma {:induction false} NotShorter<T>(head: Node<T>, s: seq<Node<T>>, t: seq<Node<T>>)
    requires Ring(head, s) && Ring(head, t)
    ensures |s| >= |t|
  {
    hide Linked;
    if |s| < |t| {
      PrefixAgrees(head, s, t, |s|);
      Cut(head, s, |s|);
      Cut(head, t, |s|);
      Behind(head, t);
      hide Distinct;
      assert false;
    }
  }

  /** The pointers determine the contents: no head can hold two different lists at once. */
  lemma {:induction false} RingUnique<T>(head: Node<T>, s: seq<Node<T>>, t: seq<Node<T>>)
    requires Ring(head, s) && Ring(head, t)
    ensures s == t
  {
    hide Ring;
    NotShorter(head, s, t);
    NotShorter(head, t, s);
    PrefixAgrees(head, s, t, |s|);
    assert s[..|s|] == s && t[..|s|] == t;
  }
}
