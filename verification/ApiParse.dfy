/** The client's side of the API in miner.php: reading a reply and taking it apart into sections and values. */
module ApiParse {
  import opened Options
  import opened Sequences
  import opened CStrings
  import opened ApiEscape
  import opened Decimals

  /** explode. */
  function Explode(c: char, s: string): (r: seq<string>)
    ensures |r| >= 1
  {
    if |s| == 0 then [""]
    else
      var rest := Explode(c, s[1..]);
      if s[0] == c then [""] + rest else [[s[0]] + rest[0]] + rest[1..]
  }

  /** explode with a limit of two pieces. */
  function ExplodeTwo(c: char, s: string): (r: seq<string>)
    ensures 1 <= |r| <= 2
  {
    if |s| == 0 then [""]
    else if s[0] == c then ["", s[1..]]
    else
      var rest := ExplodeTwo(c, s[1..]);
      [[s[0]] + rest[0]] + rest[1..]
  }

  lemma {:induction false} ExplodeAt(c: char, p: string, rest: string)
    requires c !in p
    ensures Explode(c, p + [c] + rest) == [p] + Explode(c, rest)
    ensures ExplodeTwo(c, p + [c] + rest) == [p, rest]
  {
    var s := p + [c] + rest;
    if |p| == 0 {
      assert s[1..] == rest;
    } else {
      ExplodeAt(c, p[1..], rest);
      assert s[1..] == p[1..] + [c] + rest && s[0] == p[0];
      assert [p[0]] + p[1..] == p;
    }
  }

  lemma {:induction false} ExplodeWhole(c: char, p: string)
    requires c !in p
    ensures Explode(c, p) == [p]
  {
    if |p| == 0 {
    } else {
      ExplodeWhole(c, p[1..]);
      assert [p[0]] + p[1..] == p;
    }
  }

  /** ctype_digit. */
  predicate Digits(s: string) {
    |s| > 0 && forall i :: 0 <= i < |s| ==> '0' <= s[i] <= '9'
  }

  /** preg_replace of every digit by nothing. */
  function NoDigits(s: string): string {
    if |s| == 0 then "" else (if '0' <= s[0] <= '9' then "" else [s[0]]) + NoDigits(s[1..])
  }

  lemma NoDigitsNext(s: string)
    ensures NoDigits("") == ""
    ensures |s| > 0 ==> NoDigits(s) == (if '0' <= s[0] <= '9' then "" else [s[0]]) + NoDigits(s[1..])
  {
  }

  lemma {:induction false} NoDigitsConcat(a: string, b: string)
    ensures NoDigits(a + b) == NoDigits(a) + NoDigits(b)
  {
    hide *;
    if |a| == 0 {
      NoDigitsNext(a);
      assert a + b == b && "" + NoDigits(b) == NoDigits(b);
    } else {
      NoDigitsNext(a);
      NoDigitsNext(a + b);
      assert (a + b)[1..] == a[1..] + b && (a + b)[0] == a[0];
      NoDigitsConcat(a[1..], b);
      Associative(if '0' <= a[0] <= '9' then "" else [a[0]], NoDigits(a[1..]), NoDigits(b));
    }
  }

  /** Exactly the characters that are no digits are left. */
  lemma {:induction false} NoDigitsKeeps(s: string)
    ensures forall c :: c in NoDigits(s) <==> c in s && !('0' <= c <= '9')
  {
    hide *;
    NoDigitsNext(s);
    if |s| == 0 {
    } else {
      NoDigitsKeeps(s[1..]);
      assert s == [s[0]] + s[1..];
    }
  }

  /** Digits vanish. */
  lemma {:induction false} NoDigitsGone(s: string)
    requires forall c <- s :: '0' <= c <= '9'
    ensures NoDigits(s) == ""
  {
    hide *;
    NoDigitsNext(s);
    if |s| == 0 {
    } else {
      assert s[0] in s && forall c <- s[1..] :: c in s;
      NoDigitsGone(s[1..]);
    }
  }

  /** ctype_digit says of a text that it is not empty and nothing of it is left without digits. */
  lemma DigitsVanish(s: string)
    ensures Digits(s) <==> s != "" && NoDigits(s) == ""
  {
    hide NoDigits;
    NoDigitsKeeps(s);
    if Digits(s) {
      NoDigitsGone(s);
    } else if s != "" {
      var i :| 0 <= i < |s| && !('0' <= s[i] <= '9');
      assert s[i] in NoDigits(s);
    }
  }

  /** Text without digits stays as it is. */
  lemma {:induction false} NoDigitsPlain(s: string)
    requires forall c <- s :: !('0' <= c <= '9')
    ensures NoDigits(s) == s
  {
    hide *;
    NoDigitsNext(s);
    if |s| == 0 {
    } else {
      assert forall c <- s[1..] :: c in s;
      NoDigitsPlain(s[1..]);
      assert s[0] in s && s == [s[0]] + s[1..];
    }
  }

  /** The two levels of the arrays that api builds. Keys are in the order they were first assigned to. */
  datatype Pair = Pair(key: string, value: string)
  datatype Section = Section(name: string, entries: seq<Pair>)

  predicate IsSet(data: seq<Section>, name: string) {
    exists i :: 0 <= i < |data| && data[i].name == name
  }

  /** Assigning to a key of an array. */
  function AssignEntry(entries: seq<Pair>, key: string, value: string): seq<Pair> {
    if |entries| == 0 then [Pair(key, value)]
    else if entries[0].key == key then [Pair(key, value)] + entries[1..]
    else [entries[0]] + AssignEntry(entries[1..], key, value)
  }

  /** $data[name][key] = value. */
  function Assign(data: seq<Section>, name: string, key: string, value: string): seq<Section> {
    if |data| == 0 then [Section(name, [Pair(key, value)])]
    else if data[0].name == name then [Section(name, AssignEntry(data[0].entries, key, value))] + data[1..]
    else [data[0]] + Assign(data[1..], name, key, value)
  }

  /** Every numbered name below num is in use. */
  ghost predicate Taken(data: seq<Section>, name: string, num: nat) {
    forall m: nat {:trigger Decimal(m)} :: 1 <= m < num ==> IsSet(data, name + Decimal(m))
  }

  /** There are only so many names in use, so that the search for a free one ends. */
  lemma {:induction false} TakenBound(data: seq<Section>, name: string, num: nat)
    requires Taken(data, name, num)
    ensures num <= |data| + 1
    decreases num
  {
    if num <= 1 {
    } else {
      var used := name + Decimal(num - 1);
      assert IsSet(data, used);
      var k :| 0 <= k < |data| && data[k].name == used;
      forall m: nat {:trigger Decimal(m)} | 1 <= m < num - 1
        ensures IsSet(data[..k] + data[k + 1..], name + Decimal(m))
      {
        StillSet(data, k, name, m, num - 1);
      }
      TakenBound(data[..k] + data[k + 1..], name, num - 1);
    }
  }

  lemma {:induction false} StillSet(data: seq<Section>, k: nat, name: string, m: nat, n: nat)
    requires k < |data| && data[k].name == name + Decimal(n) && m != n && IsSet(data, name + Decimal(m))
    ensures IsSet(data[..k] + data[k + 1..], name + Decimal(m))
  {
    DecimalInjective(m, n);
    hide Decimal;
    assert (name + Decimal(m))[|name|..] == Decimal(m) && (name + Decimal(n))[|name|..] == Decimal(n);
    var i :| 0 <= i < |data| && data[i].name == name + Decimal(m);
    var rest := data[..k] + data[k + 1..];
    assert rest[if i < k then i else i - 1] == data[i];
  }

  lemma {:induction false} TakenNext(data: seq<Section>, name: string, num: nat)
    requires Taken(data, name, num) && IsSet(data, name + Decimal(num))
    ensures Taken(data, name, num + 1)
  {
  }

  /** The first number from num on that makes a name that is not in use. */
  function FreeNumber(data: seq<Section>, name: string, num: nat): (r: nat)
    requires num >= 1 && Taken(data, name, num)
    ensures r >= num && Taken(data, name, r) && !IsSet(data, name + Decimal(r))
    decreases |data| + 1 - num
  {
    if IsSet(data, name + Decimal(num)) then
      TakenNext(data, name, num);
      TakenBound(data, name, num + 1);
      FreeNumber(data, name, num + 1)
    else num
  }

  function FreshName(data: seq<Section>, name: string): (r: string)
    ensures !IsSet(data, r)
  {
    if IsSet(data, name) then name + Decimal(FreeNumber(data, name, 1)) else name
  }

  /** The name an object gets from its first item. */
  function BaseName(item: string): (name: string)
    ensures |name| > 0
  {
    var id := ExplodeTwo('=', item);
    var name := if |id| == 1 || !Digits(id[1]) then id[0] else id[0] + id[1];
    if |name| == 0 then "null" else name
  }

  /** One item of an object: a value under its own key, or under a running number if it has none. */
  function StoreItem(data: seq<Section>, count: nat, name: string, section: string, item: string, hidden: set<string>)
    : (seq<Section>, nat)
  {
    var id := ExplodeTwo('=', item);
    if section + "." + id[0] in hidden then (data, count)
    else if |id| == 2 then (Assign(data, name, id[0], Revert(id[1])), count + 1)
    else (Assign(data, name, Decimal(count), id[0]), count + 1)
  }

  function StoreItems(data: seq<Section>, name: string, section: string, items: seq<string>, hidden: set<string>)
    : (seq<Section>, nat)
  {
    if |items| == 0 then (data, 0)
    else
      var before := StoreItems(data, name, section, items[..|items| - 1], hidden);
      StoreItem(before.0, before.1, name, section, items[|items| - 1], hidden)
  }

  function StoreObject(data: seq<Section>, obj: string, hidden: set<string>): seq<Section> {
    if |obj| == 0 then data
    else
      var items := Explode(',', obj);
      var name := BaseName(items[0]);
      StoreItems(data, FreshName(data, name), NoDigits(name), items, hidden).0
  }

  function StoreObjects(objs: seq<string>, hidden: set<string>): seq<Section> {
    if |objs| == 0 then []
    else StoreObject(StoreObjects(objs[..|objs| - 1], hidden), objs[|objs| - 1], hidden)
  }

  /** A reply ends at the first NUL. */
  function Parsed(stream: string, hidden: set<string>): seq<Section> {
    StoreObjects(Explode('|', Convert(Text(stream))), hidden)
  }

  /** readsockline. */
  method ReadSockLine(stream: string) returns (line: string)
    ensures line == Text(stream)
  {
    line := "";
    var i := 0;
    assert Text("") == "" && stream[0..] == stream;
    while i < |stream|
      invariant i <= |stream| && line + Text(stream[i..]) == Text(stream)
    {
      assert stream[i..][1..] == stream[i + 1..];
      if stream[i] == '\0' {
        break;
      }
      line := line + [stream[i]];
      i := i + 1;
    }
    assert stream[|stream|..] == "";
  }

  /** The search for a section name that is not in use. */
  method NameObject(data: seq<Section>, base: string) returns (name: string)
    ensures name == FreshName(data, base)
  {
    name := base;
    if IsSet(data, name) {
      var num := 1;
      TakenBound(data, name, num);
      while IsSet(data, name + Decimal(num))
        invariant num >= 1 && Taken(data, name, num)
        invariant FreeNumber(data, name, num) == FreeNumber(data, name, 1)
        decreases |data| + 1 - num
      {
        TakenNext(data, name, num);
        TakenBound(data, name, num + 1);
        num := num + 1;
      }
      name := name + Decimal(num);
    }
  }

  /** The inner loop of api. */
  method StoreAll(data: seq<Section>, name: string, section: string, items: seq<string>, hidden: set<string>)
    returns (after: seq<Section>)
    ensures after == StoreItems(data, name, section, items, hidden).0
  {
    after := data;
    var counter := 0;
    for i := 0 to |items|
      invariant (after, counter) == StoreItems(data, name, section, items[..i], hidden)
    {
      assert items[..i + 1][..i] == items[..i];
      var id := ExplodeTwo('=', items[i]);
      if section + "." + id[0] in hidden {
        continue;
      }
      if |id| == 2 {
        after := Assign(after, name, id[0], Revert(id[1]));
      } else {
        after := Assign(after, name, Decimal(counter), id[0]);
      }
      counter := counter + 1;
    }
    assert items[..|items|] == items;
  }

  /** api, on what the socket delivers: nothing at all is an error, anything else becomes an array. */
  method Api(stream: string, hidden: set<string>) returns (result: Option<seq<Section>>)
    ensures result == if Text(stream) == "" then None else Some(Parsed(stream, hidden))
  {
    hide StoreItems, Explode, Convert, Text, BaseName, NoDigits, FreshName;
    var line := ReadSockLine(stream);
    if |line| == 0 {
      return None;
    }
    line := ApiConvertEscape(line);
    var data := [];
    var objs := Explode('|', line);
    for i := 0 to |objs|
      invariant data == StoreObjects(objs[..i], hidden)
    {
      assert objs[..i + 1][..i] == objs[..i];
      if |objs[i]| > 0 {
        var items := Explode(',', objs[i]);
        var base := BaseName(items[0]);
        var name := NameObject(data, base);
        data := StoreAll(data, name, NoDigits(base), items, hidden);
      }
    }
    assert objs[..|objs|] == objs;
    result := Some(data);
  }
}
