/** The circular list of reply fields of api.c: api_add_data_full, api_add_extra and, in text mode, print_data. */
module ApiData {
  import opened Sequences
  import opened Lists
  import opened ApiEscape

  /** A field of a reply. Every type but the escaped strings is printed as it stands. */
  datatype Field = Field(name: string, escape: bool, text: string)

  type Entry = Node<Field>

  function Value(f: Field): string {
    if f.escape then Escape(f.text, false) else f.text
  }

  function Item(f: Field): string {
    f.name + "=" + Value(f)
  }

  /** Fields separated by commas. */
  function Items(fs: seq<Field>): string {
    if |fs| == 0 then ""
    else if |fs| == 1 then Item(fs[0])
    else Items(fs[..|fs| - 1]) + "," + Item(fs[|fs| - 1])
  }

  function Fields(s: seq<Entry>): (r: seq<Field>)
    ensures |r| == |s| && forall i :: 0 <= i < |s| ==> r[i] == s[i].item
  {
    if |s| == 0 then [] else Fields(s[..|s| - 1]) + [s[|s| - 1].item]
  }

  /** The list that starts at root, which is null if there is none. The first node is its own head. */
  ghost predicate Chain(root: Node?<Field>, s: seq<Entry>)
    reads s
  {
    if |s| == 0 then root == null else root == s[0] && Ring(s[0], s[1..])
  }

  /** The links api_add_data_full makes behind the last node. They touch neither of two parts the node is not in. */
  method LinkLast(x: Entry, root: Entry, last: Entry, ghost a: seq<Entry>, ghost b: seq<Entry>)
    requires x != root && x != last && root.prev == last && Linked(a) && Linked(b)
    requires last !in Front(a) && last !in Front(b) && root !in Rest(a) && root !in Rest(b)
    requires x !in Front(a) && x !in Front(b) && x !in Rest(a) && x !in Rest(b)
    modifies x, root`prev, last`next
    ensures Joined(last, x) && Joined(x, root) && Linked(a) && Linked(b)
  {
    hide Linked, Front, Rest;
    x.prev := root.prev;
    root.prev := x;
    x.next := root;
    last.next := x;
    StillLinked(a);
    StillLinked(b);
  }

  /** api_add_data_full: a new last field. */
  method AddDataFull(root: Node?<Field>, f: Field, ghost s: seq<Entry>) returns (r: Entry, ghost t: seq<Entry>)
    requires Chain(root, s)
    modifies s
    ensures Chain(r, t) && Fields(t) == Fields(s) + [f] && |t| == |s| + 1 && fresh(t[|s|]) && t[..|s|] == s
  {
    hide Ring, Fields;
    var x := new Node(f);
    t := s + [x];
    if root == null {
      r := x;
      InitListHead(x);
      assert t[1..] == [];
    } else {
      r := root;
      ghost var rest := s[1..];
      Append(x, root, rest);
      assert t[1..] == rest + [x];
    }
  }

  method Append(x: Entry, root: Entry, ghost rest: seq<Entry>)
    requires Ring(root, rest) && x != root && x !in rest
    modifies x, root`prev, Before(root, rest, |rest|)`next
    ensures Ring(root, rest + [x])
  {
    hide Linked;
    ghost var n := |rest|;
    Cut(root, rest, n);
    CutApart(root, rest, n);
    NewApart(root, rest, n, x);
    hide Distinct, Front, Rest;
    LinkLast(x, root, root.prev, [root] + rest[..n], rest[n..] + [root]);
    Place(root, rest, n, x);
    assert rest[..n] + [x] + rest[n..] == rest + [x];
  }

  /** The last node of a list. */
  ghost function Last(root: Entry, s: seq<Entry>): Entry {
    Before(root, s, |s|)
  }

  /** Two whole lists, linked end to start both ways round, are one. */
  lemma {:induction false} Union(root: Entry, s: seq<Entry>, extra: Entry, t: seq<Entry>)
    requires Distinct([root] + s) && Distinct([extra] + t) && Disjoint(root, s, extra, t)
    requires Linked([root] + s) && Linked([extra] + t) && Joined(Last(root, s), extra) && Joined(Last(extra, t), root)
    ensures Ring(root, s + ([extra] + t))
  {
    LinkedConcat([extra] + t, [root]);
    LinkedConcat([root] + s, [extra] + t + [root]);
    hide Linked;
    assert ([root] + s) + ([extra] + t + [root]) == [root] + (s + ([extra] + t)) + [root];
    UnionNoDup(root, s, extra, t);
    hide Distinct;
  }

  lemma {:induction false} UnionNoDup(root: Entry, s: seq<Entry>, extra: Entry, t: seq<Entry>)
    requires Distinct([root] + s) && Distinct([extra] + t) && Disjoint(root, s, extra, t)
    ensures Distinct([root] + (s + ([extra] + t)))
  {
    var a, b := [root] + s, [extra] + t;
    var c := [root] + (s + ([extra] + t));
    assert c == a + b;
    forall i, j | 0 <= i < j < |c|
      ensures c[i] != c[j]
    {
      if i < |a| <= j {
        assert a[i] == root || a[i] in s;
        assert b[j - |a|] == extra || b[j - |a|] in t;
      }
    }
  }

  /** What joining two lists writes to is nowhere that they are linked by. */
  lemma {:induction false} UnionApart(root: Entry, s: seq<Entry>, extra: Entry, t: seq<Entry>)
    requires Distinct([root] + s) && Distinct([extra] + t) && Disjoint(root, s, extra, t)
    ensures Last(root, s) !in Front([root] + s) && Last(extra, t) !in Front([root] + s)
    ensures root !in Rest([root] + s) && extra !in Rest([root] + s)
  {
    Apart([root] + s, |s|);
    Behind(root, s);
    hide Distinct;
    assert Front([root] + s) == ([root] + s)[..|s|] && Rest([root] + s) == s;
    assert forall v :: v in Front([root] + s) ==> v == root || v in s;
    assert Last(extra, t) == extra || Last(extra, t) in t;
  }

  /** api_add_extra: the second list goes behind the first. */
  method AddExtra(root: Node?<Field>, extra: Node?<Field>, ghost s: seq<Entry>, ghost t: seq<Entry>)
    returns (r: Node?<Field>)
    requires Chain(root, s) && Chain(extra, t) && forall v :: v in s ==> v !in t
    modifies s, t
    ensures Chain(r, s + t)
  {
    hide Ring;
    if root != null {
      r := root;
      if extra != null {
        assert forall v :: v in s[1..] ==> v in s;
        assert forall v :: v in t[1..] ==> v in t;
        assert root in s && extra in t;
        LinkLists(root, extra, s[1..], t[1..]);
        assert (s + t)[1..] == s[1..] + ([extra] + t[1..]);
      } else {
        assert s + t == s;
      }
    } else {
      r := extra;
      assert s + t == t;
    }
  }

  method LinkLists(root: Entry, extra: Entry, ghost s: seq<Entry>, ghost t: seq<Entry>)
    requires Ring(root, s) && Ring(extra, t) && Disjoint(root, s, extra, t)
    modifies root`prev, extra`prev, Last(root, s)`next, Last(extra, t)`next
    ensures Ring(root, s + ([extra] + t))
  {
    hide Linked, Distinct;
    Cut(root, s, |s|);
    Cut(extra, t, |t|);
    UnionApart(root, s, extra, t);
    UnionApart(extra, t, root, s);
    assert s[..|s|] == s && t[..|t|] == t;
    var tmp := extra.prev;
    extra.prev := root.prev;
    root.prev.next := extra;
    tmp.next := root;
    root.prev := tmp;
    Union(root, s, extra, t);
  }

  /** What one turn of print_data leaves of the list after it has freed the first node. */
  method DropFirst(root: Entry, ghost s: seq<Entry>) returns (r: Node?<Field>)
    requires Chain(root, s)
    modifies s
    ensures s != [] && Chain(r, s[1..])
  {
    hide Linked, Distinct;
    ghost var rest := s[1..];
    Step(root, rest, 0);
    if root.next == root {
      return null;
    }
    assert |rest| > 0;
    r := Unlink(root, rest);
  }

  method Unlink(root: Entry, ghost rest: seq<Entry>) returns (r: Entry)
    requires Ring(root, rest) && |rest| > 0
    modifies root, rest
    ensures r == rest[0] && Ring(rest[0], rest[1..])
  {
    hide Linked, Distinct;
    ghost var n := |rest|;
    Cut(root, rest, 0);
    Cut(root, rest, n);
    Inner(root, rest);
    UnlinkApart(root, rest);
    var tmp := root;
    r := tmp.next;
    r.prev := tmp.prev;
    r.prev.next := r;
    Closed(rest);
  }

  lemma {:induction false} UnlinkApart(root: Entry, rest: seq<Entry>)
    requires Distinct([root] + rest) && |rest| > 0
    ensures Distinct(rest) && rest[|rest| - 1] !in Front(rest) && rest[0] !in Rest(rest)
  {
    Behind(root, rest);
    Apart(rest, 0);
    Apart(rest, |rest| - 1);
  }

  lemma {:induction false} Closed(s: seq<Entry>)
    requires |s| > 0 && Distinct(s) && Linked(s) && Joined(s[|s| - 1], s[0])
    ensures Ring(s[0], s[1..])
  {
    LinkedConcat(s, [s[0]]);
    hide Linked, Distinct;
    assert [s[0]] + s[1..] == s;
  }

  lemma {:induction false} ItemsNext(done: seq<Field>, f: Field)
    ensures Items(done + [f]) == (if |done| == 0 then "" else Items(done) + ",") + Item(f)
  {
    assert (done + [f])[..|done|] == done;
  }

  /** One field, through escape_string when its type says so. What was allocated for it is as good as freed. */
  method PrintItem(f: Field) returns (text: string)
    ensures text == Item(f)
  {
    hide Escape;
    text := f.name + "=";
    if f.escape {
      var escaped := EscapeString(f.text, false);
      text := text + if escaped == null then f.text else escaped[..escaped.Length - 1];
    } else {
      text := text + f.text;
    }
  }

  lemma {:induction false} FieldsNext(s: seq<Entry>, i: nat)
    requires i < |s|
    ensures Fields(s[..i + 1]) == Fields(s[..i]) + [s[i].item]
  {
    assert s[..i + 1][..i] == s[..i];
  }

  lemma {:induction false} PrintedNext(s: seq<Entry>, i: nat)
    requires i < |s|
    ensures Items(Fields(s[..i + 1])) == (if i == 0 then "" else Items(Fields(s[..i])) + ",") + Item(s[i].item)
  {
    FieldsNext(s, i);
    ItemsNext(Fields(s[..i]), s[i].item);
  }

  lemma ChainStart(root: Node?<Field>, s: seq<Entry>)
    requires Chain(root, s)
    ensures (root == null <==> s == []) && (root != null ==> root == s[0])
  {
  }

  /** One turn of print_data: the next field is printed and its node freed. */
  method PrintNext(root: Entry, ghost s: seq<Entry>, ghost i: nat, first: bool, printed: string)
    returns (buf: string, r: Node?<Field>)
    requires i < |s| && Chain(root, s[i..]) && first == (i == 0) && printed == Items(Fields(s[..i]))
    modifies s
    ensures buf == Items(Fields(s[..i + 1])) && Chain(r, s[i + 1..]) && (r == null <==> i + 1 == |s|)
  {
    PrintedNext(s, i);
    ChainStart(root, s[i..]);
    assert Items(Fields(s[..0])) == "";
    assert s[i..][1..] == s[i + 1..];
    hide *;
    buf := printed;
    if !first {
      buf := buf + ",";
    }
    var item := PrintItem(root.item);
    buf := buf + item;
    r := DropFirst(root, s[i..]);
    ChainStart(r, s[i + 1..]);
  }

  lemma NothingPrinted(s: seq<Entry>)
    ensures Items(Fields(s[..0])) == "" && s[0..] == s && s[..|s|] == s
  {
  }

  /**
   * print_data in text mode. It frees the list as it goes, so that each node is printed once and none is left:
   * the text is all the fields in order.
   */
  method PrintData(root: Node?<Field>, ghost s: seq<Entry>) returns (buf: string)
    requires Chain(root, s)
    modifies s
    ensures buf == Items(Fields(s)) + "|"
  {
    hide *;
    ChainStart(root, s);
    NothingPrinted(s);
    var r, first := root, true;
    buf := "";
    ghost var i := 0;
    while r != null
      invariant i <= |s| && Chain(r, s[i..]) && first == (i == 0) && (r == null <==> i == |s|)
      invariant buf == Items(Fields(s[..i]))
      decreases |s| - i
    {
      buf, r := PrintNext(r, s, i, first, buf);
      first := false;
      i := i + 1;
    }
    buf := buf + "|";
  }
}
