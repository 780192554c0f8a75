/** The ring of idle curl handles a pool keeps: sgminer.c's pop_curl_entry, push_curl_entry and reap_curl. */
module CurlRing {
  import opened Lists
  import opened Selections
  import opened Sequences

  /** Which idle handles reap_curl looks at, and which of them it keeps, when the pool has so many in all. */
  function Kept(unused: seq<bool>, curls: int): (kept: seq<bool>)
    ensures |kept| <= |unused|
  {
    if |unused| == 0 || curls < 2 then []
    else [!unused[0]] + Kept(unused[1..], if unused[0] then curls - 1 else curls)
  }

  lemma {:induction false} KeptNext(unused: seq<bool>, curls: int, i: nat)
    requires i <= |unused|
    ensures i < |unused| && curls >= 2 ==>
      Kept(unused[i..], curls) == [!unused[i]] + Kept(unused[i + 1..], if unused[i] then curls - 1 else curls)
    ensures i == |unused| || curls < 2 ==> Kept(unused[i..], curls) == []
    ensures unused[0..] == unused
  {
    assert i < |unused| ==> unused[i..][1..] == unused[i + 1..];
  }

  /** What may happen to a pool's handles, with what the clock says of the idle ones. */
  datatype PoolOp = Pop | PutBack(ce: Node<()>) | Reap(unused: seq<bool>)

  /** A pool's curlring and curls. A curl_ent is identified with its list node. */
  class CurlPool {
    const ring: Node<()>
    var curls: int
    ghost var idle: seq<Node<()>>
    ghost var out: set<Node<()>>

    constructor ()
      ensures Valid() && idle == [] && out == {} && curls == 0 && fresh(ring)
    {
      ring := new Node<()>(());
      curls, idle, out := 0, [], {};
      new;
      InitListHead(ring);
    }

    /** curls counts the idle handles, which are the ring, and those in use, which are nowhere on it. */
    ghost predicate Valid()
      reads this, ring, idle
    {
      Ring(ring, idle) && ring !in out && (forall v :: v in idle ==> v !in out) && curls == |idle| + |out|
    }

    /** recruit_curl. */
    method Recruit()
      requires Valid()
      modifies this, ring, idle
      ensures Valid() && out == old(out) && curls == old(curls) + 1
      ensures idle != [] && fresh(idle[0]) && idle[1..] == old(idle)
    {
      hide Ring;
      var ce := new Node<()>(());
      ListAdd(ce, ring, idle);
      idle := [ce] + idle;
      curls := curls + 1;
    }

    /** The end of pop_curl_entry: the handle behind the head leaves the ring. */
    method Take() returns (ce: Node<()>)
      requires Valid() && idle != []
      modifies this`idle, this`out, ring, idle
      ensures Valid() && ce == old(idle)[0] && idle == old(idle)[1..] && ce != ring
      ensures ce !in old(out) && out == old(out) + {ce}
    {
      hide Linked, Distinct;
      Cut(ring, idle, 0);
      RemovedNoDup(ring, idle, 0);
      ce := ring.next;
      ListDel(ce, ring, idle, 0);
      idle := Removed(idle, 0);
      out := out + {ce};
    }

    /**
     * pop_curl_entry up to its wait: null means that the caller waits for a handle to be put back and tries
     * again. Then the ring is empty and somebody has one. What is handed out is never the head of the ring.
     */
    method TryPop(limit: int) returns (ce: Node?<()>)
      requires Valid()
      modifies this, ring, idle
      ensures Valid() && (ce == null <==> old(idle) == [] && old(curls) != 0 && old(curls) >= limit)
      ensures ce == null ==> idle == old(idle) && out == old(out) && curls == old(curls) && out != {}
      ensures ce != null ==> ce != ring && ce !in old(out) && out == old(out) + {ce}
      ensures old(idle) != [] ==> ce == old(idle)[0] && idle == old(idle)[1..] && curls == old(curls)
      ensures old(idle) == [] && ce != null ==> fresh(ce) && idle == [] && curls == old(curls) + 1
      ensures curls <= old(curls) || curls <= 1 || curls <= limit
    {
      hide Ring;
      if curls == 0 {
        Recruit();
      } else {
        var empty := ListEmpty(ring, idle);
        if empty {
          if curls >= limit {
            return null;
          }
          Recruit();
        }
      }
      ce := Take();
    }

    /** push_curl_entry, for a handle that was popped. */
    method Push(ce: Node<()>)
      requires Valid() && ce in out
      modifies this, ring, idle, ce
      ensures Valid() && idle == old(idle) + [ce] && out == old(out) - {ce} && curls == old(curls)
    {
      hide Ring;
      ListAddTail(ce, ring, idle);
      idle := idle + [ce];
      out := out - {ce};
    }

    /** Deleting the node the walk of reap_curl is at. */
    method Reap(ghost before: seq<Node<()>>, ghost kept: seq<bool>, ent: Node<()>)
      requires Valid() && |kept| < |before| && idle == Walked(before, kept) && ent == idle[At(before, kept)]
      modifies this, ring, idle
      ensures Valid() && idle == Walked(before, kept + [false]) && out == old(out) && curls == old(curls) - 1
    {
      hide Ring, Walked, At;
      WalkOn(before, kept, false);
      curls := curls - 1;
      ghost var at := At(before, kept);
      ListDel(ent, ring, idle, at);
      idle := Removed(idle, at);
    }

    /** Where the walk of reap_curl is, and where it goes next. */
    ghost predicate Walking(before: seq<Node<()>>, kept: seq<bool>, ent: Node?<()>, iter: Node?<()>)
      reads this, ring, idle
    {
      |kept| <= |before| && idle == Walked(before, kept) && At(before, kept) <= |idle|
      && ent == After(ring, idle, At(before, kept))
      && (At(before, kept) < |idle| ==> ent != ring && iter == After(ring, idle, At(before, kept) + 1))
    }

    /** One turn of the walk of reap_curl that goes on: the node is deleted or not, and the walk moves on. */
    method ReapOne(ghost before: seq<Node<()>>, ghost kept: seq<bool>, ent: Node<()>, iter: Node?<()>, long: bool)
      returns (ent': Node?<()>, iter': Node?<()>)
      requires Valid() && Walking(before, kept, ent, iter) && ent != ring
      modifies this, ring, idle
      ensures Valid() && out == old(out) && curls == old(curls) - if long then 1 else 0
      ensures |kept| < |before| && Walking(before, kept + [!long], ent', iter')
    {
      hide Ring, Walked, At;
      WalkAhead(before, kept);
      WalkOn(before, kept, !long);
      if long {
        Reap(before, kept, ent);
      }
      WalkAhead(before, kept + [!long]);
      Step(ring, idle, At(before, kept + [!long]));
      ent' := iter;
      iter' := ent'.next;
    }

    /**
     * reap_curl, given which idle handles have been unused for long: they go from the front on, until one handle of
     * the pool is left. The walk holds on to the next node before it deletes one.
     */
    method ReapCurl(unused: seq<bool>)
      requires Valid() && |unused| == |idle|
      modifies this, ring, idle
      ensures Valid() && out == old(out) && idle == Walked(old(idle), Kept(unused, old(curls)))
      ensures curls <= old(curls) && (old(curls) >= 1 ==> curls >= 1)
    {
      hide Ring, Walked, At, Kept;
      ghost var before, kept := idle, [];
      var i := 0;
      KeptNext(unused, curls, 0);
      WalkStart(before);
      Step(ring, idle, 0);
      var ent: Node?<()> := ring.next;
      var iter: Node?<()> := ent.next;
      while ent != ring
        invariant Valid() && out == old(out) && Walking(before, kept, ent, iter) && |kept| == i
        invariant curls <= old(curls) && (old(curls) >= 1 ==> curls >= 1)
        invariant Kept(unused, old(curls)) == kept + Kept(unused[i..], curls)
        decreases |before| - i
      {
        WalkAhead(before, kept);
        KeptNext(unused, curls, i);
        if curls < 2 {
          break;
        }
        KeepWithin(before, kept);
        assert forall k :: 0 <= k < |idle| ==> idle[k] in before;
        ent, iter := ReapOne(before, kept, ent, iter, unused[i]);
        Associative(kept, [!unused[i]], Kept(unused[i + 1..], curls));
        kept := kept + [!unused[i]];
        i := i + 1;
      }
      WalkAhead(before, kept);
      KeptNext(unused, curls, i);
      assert kept + [] == kept;
    }

    /** Every handle is one of some objects known at the start, or new. */
    twostate predicate Known(objects: set<Node<()>>)
      reads this
    {
      (forall k :: 0 <= k < |idle| ==> idle[k] in objects || fresh(idle[k]))
      && forall v :: v in out ==> v in objects || fresh(v)
    }

    /** What an operation does to the handles in use: it hands out one at most, or takes the one it is given. */
    static ghost predicate Changed(op: PoolOp, held: set<Node<()>>, now: set<Node<()>>) {
      match op
      case Pop => now == held || exists ce <- now :: ce !in held && now == held + {ce}
      case PutBack(ce) => now == held - {ce}
      case Reap(_) => now == held
    }

    static lemma HandedOut(held: set<Node<()>>, ce: Node<()>)
      requires ce !in held
      ensures Changed(PoolOp.Pop, held, held + {ce})
    {
    }

    /** One of the three operations. The handles in use are real, somebody holds them. */
    method Operation(limit: int, held: set<Node<()>>, op: PoolOp) returns (now: set<Node<()>>)
      requires Valid() && held == out
      modifies this, ring, idle, out
      ensures Valid() && now == out && Changed(op, held, now)
      ensures curls <= old(curls) || curls <= 1 || curls <= limit
      ensures old(curls) >= 1 ==> curls >= 1
      ensures forall k :: 0 <= k < |idle| ==> idle[k] in old(idle) || idle[k] in old(out) || fresh(idle[k])
      ensures forall v :: v in out ==> v in old(idle) || v in old(out) || fresh(v)
    {
      hide Ring;
      now := held;
      match op {
        case Pop =>
          var ce := TryPop(limit);
          if ce != null {
            now := now + {ce};
            HandedOut(held, ce);
          }
        case PutBack(ce) =>
          if ce in held {
            Push(ce);
            now := now - {ce};
          }
        case Reap(unused) =>
          if |unused| == curls - |held| {
            ReapCurl(unused);
            KeepWithin(old(idle), Kept(unused, old(curls)));
          }
      }
    }

    /** Any run under one limit: handles are neither lost nor invented, and never more than the limit asks for. */
    method Run(limit: int, ops: seq<PoolOp>, held: set<Node<()>>)
      returns (now: set<Node<()>>, ghost trace: seq<set<Node<()>>>)
      requires Valid() && held == out && curls <= (if limit < 1 then 1 else limit)
      modifies this, ring, idle, out
      ensures |trace| == |ops| + 1 && trace[0] == held && trace[|ops|] == now
      ensures forall i :: 0 <= i < |ops| ==> Changed(ops[i], trace[i], trace[i + 1])
      ensures Valid() && now == out && curls <= (if limit < 1 then 1 else limit)
      ensures old(curls) >= 1 ==> curls >= 1
    {
      hide Ring, CurlPool.Changed;
      now, trace := held, [held];
      ghost var objects := set v | v in idle || v in out;
      for i := 0 to |ops|
        invariant |trace| == i + 1 && trace[0] == held && trace[i] == now
        invariant forall k :: 0 <= k < i ==> Changed(ops[k], trace[k], trace[k + 1])
        invariant Valid() && now == out && curls <= (if limit < 1 then 1 else limit)
        invariant old(curls) >= 1 ==> curls >= 1
        invariant Known(objects)
      {
        now := Operation(limit, now, ops[i]);
        trace := trace + [now];
      }
    }
  }
}
