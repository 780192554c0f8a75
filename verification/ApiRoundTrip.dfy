/** What api.c prints in text mode and miner.php parses comes back: the same sections, names, values and order. */
module ApiRoundTrip {
  import opened Sequences
  import opened CStrings
  import opened ApiEscape
  import opened ApiData
  import opened Decimals
  import opened ApiParse

  predicate Separator(c: char) {
    c == ',' || c == '|' || c == '\\'
  }

  /** Names without delimiters, and values without code bytes that hold separators only if they are escaped. */
  predicate Sendable(f: Field) {
    (forall i :: 0 <= i < |f.name| ==> !Separator(f.name[i]) && f.name[i] != '=' && f.name[i] != '\0')
    && (forall i :: 0 <= i < |f.text| ==> Printable(f.text[i]) && (f.escape || !Separator(f.text[i])))
  }

  ghost predicate SendableAll(fs: seq<Field>) {
    |fs| > 0
    && (forall i :: 0 <= i < |fs| ==> Sendable(fs[i]))
    && (forall i, j :: 0 <= i < j < |fs| ==> fs[i].name != fs[j].name)
  }

  /** A reply: sections printed one after the other. */
  function Message(sections: seq<seq<Field>>): string {
    if |sections| == 0 then "" else Message(sections[..|sections| - 1]) + (Items(sections[|sections| - 1]) + "|")
  }

  /** A field as it looks after api_convert_escape. */
  function CodedValue(f: Field): string {
    if f.escape then Coded(f.text) else f.text
  }

  function CodedItem(f: Field): string {
    f.name + "=" + CodedValue(f)
  }

  function CodedItems(fs: seq<Field>): string {
    if |fs| == 0 then ""
    else if |fs| == 1 then CodedItem(fs[0])
    else CodedItems(fs[..|fs| - 1]) + "," + CodedItem(fs[|fs| - 1])
  }

  function ItemList(fs: seq<Field>): (r: seq<string>)
    ensures |r| == |fs| && forall i :: 0 <= i < |fs| ==> r[i] == CodedItem(fs[i])
  {
    if |fs| == 0 then [] else ItemList(fs[..|fs| - 1]) + [CodedItem(fs[|fs| - 1])]
  }

  lemma ConvertValue(f: Field, rest: string)
    requires Sendable(f)
    ensures Convert(Value(f) + rest) == CodedValue(f) + Convert(rest)
  {
    if f.escape {
      ConvertEscaped(f.text, rest);
    } else {
      ConvertPlain(f.text, rest);
    }
  }

  lemma ConvertItem(f: Field, rest: string)
    requires Sendable(f)
    ensures Convert(Item(f) + rest) == CodedItem(f) + Convert(rest)
  {
    hide Convert, Value, CodedValue, Printable;
    ConvertValue(f, rest);
    ConvertPlain("=", Value(f) + rest);
    ConvertPlain(f.name, "=" + (Value(f) + rest));
    hide Sendable, Separator;
    assert Item(f) + rest == f.name + ("=" + (Value(f) + rest));
    assert f.name + ("=" + (CodedValue(f) + Convert(rest))) == CodedItem(f) + Convert(rest);
  }

  lemma {:induction false} ConvertItems(fs: seq<Field>, rest: string)
    requires forall i :: 0 <= i < |fs| ==> Sendable(fs[i])
    ensures Convert(Items(fs) + rest) == CodedItems(fs) + Convert(rest)
  {
    hide Sendable, Convert, Item, CodedItem;
    if |fs| == 0 {
      assert "" + rest == rest;
    } else if |fs| == 1 {
      ConvertItem(fs[0], rest);
    } else {
      var front, last := fs[..|fs| - 1], fs[|fs| - 1];
      ConvertItem(last, rest);
      ConvertPlain(",", Item(last) + rest);
      ConvertItems(front, "," + (Item(last) + rest));
      assert Items(fs) + rest == Items(front) + ("," + (Item(last) + rest));
      assert CodedItems(front) + ("," + (CodedItem(last) + Convert(rest))) == CodedItems(fs) + Convert(rest);
    }
  }

  lemma {:induction false} FirstOf(h: char, p: seq<string>, q: seq<string>)
    requires |p| > 0
    ensures [[h] + (p + q)[0]] + (p + q)[1..] == ([[h] + p[0]] + p[1..]) + q
    ensures [""] + (p + q) == ([""] + p) + q
  {
  }

  /** Splitting what was joined by a separator. */
  lemma {:induction false} ExplodeConcat(c: char, a: string, b: string)
    ensures Explode(c, a + [c] + b) == Explode(c, a) + Explode(c, b)
  {
    var s := a + [c] + b;
    if |a| == 0 {
      assert s[1..] == b;
    } else {
      ExplodeConcat(c, a[1..], b);
      assert s[1..] == a[1..] + [c] + b && s[0] == a[0];
      FirstOf(a[0], Explode(c, a[1..]), Explode(c, b));
    }
  }

  function AddToLast(p: seq<string>, x: string): (r: seq<string>)
    requires |p| > 0
    ensures |r| == |p|
  {
    p[..|p| - 1] + [p[|p| - 1] + x]
  }

  lemma AddToOnly(x: string)
    ensures AddToLast([""], x) == [x]
  {
    assert "" + x == x;
  }

  lemma {:induction false} AddToLastOf(h: char, p: seq<string>, x: string)
    requires |p| > 0
    ensures var q := AddToLast(p, x); [[h] + q[0]] + q[1..] == AddToLast([[h] + p[0]] + p[1..], x)
    ensures [""] + AddToLast(p, x) == AddToLast([""] + p, x)
  {
    if |p| == 1 {
      assert [h] + (p[0] + x) == ([h] + p[0]) + x;
    }
  }

  /** Text without a separator goes into the last piece. */
  lemma {:induction false} ExplodeExtend(c: char, a: string, x: string)
    requires c !in x
    ensures Explode(c, a + x) == AddToLast(Explode(c, a), x)
  {
    hide AddToLast;
    if |a| == 0 {
      ExplodeWhole(c, x);
      AddToOnly(x);
      assert a + x == x;
    } else {
      ExplodeExtend(c, a[1..], x);
      AddToLastOf(a[0], Explode(c, a[1..]), x);
      assert (a + x)[1..] == a[1..] + x && (a + x)[0] == a[0];
    }
  }

  lemma CodedItemClean(f: Field)
    requires Sendable(f)
    ensures ',' !in CodedItem(f) && '|' !in CodedItem(f) && '=' !in f.name && Revert(CodedValue(f)) == f.text
  {
    if f.escape {
      CodedClean(f.text);
      RevertCoded(f.text);
    } else {
      RevertPrintable(f.text);
    }
  }

  lemma RevertPrintable(s: string)
    requires forall i :: 0 <= i < |s| ==> Printable(s[i])
    ensures Revert(s) == s
  {
  }

  lemma {:induction false} ExplodeItems(fs: seq<Field>)
    requires |fs| > 0 && forall i :: 0 <= i < |fs| ==> Sendable(fs[i])
    ensures Explode(',', CodedItems(fs)) == ItemList(fs) && '|' !in CodedItems(fs)
  {
    hide Sendable, CodedItem, Explode;
    var last := fs[|fs| - 1];
    CodedItemClean(last);
    ExplodeWhole(',', CodedItem(last));
    if |fs| == 1 {
      assert ItemList(fs[..0]) == [];
    } else {
      ExplodeItems(fs[..|fs| - 1]);
      ExplodeConcat(',', CodedItems(fs[..|fs| - 1]), CodedItem(last));
      assert [','] == ",";
    }
  }

  ghost predicate SendableSections(sections: seq<seq<Field>>) {
    forall i :: 0 <= i < |sections| ==> SendableAll(sections[i])
  }

  function CodedMessage(sections: seq<seq<Field>>): string {
    if |sections| == 0 then ""
    else CodedMessage(sections[..|sections| - 1]) + (CodedItems(sections[|sections| - 1]) + "|")
  }

  function Objects(sections: seq<seq<Field>>): (r: seq<string>)
    ensures |r| == |sections|
  {
    if |sections| == 0 then [] else Objects(sections[..|sections| - 1]) + [CodedItems(sections[|sections| - 1])]
  }

  lemma {:induction false} ConvertMessage(sections: seq<seq<Field>>, rest: string)
    requires SendableSections(sections)
    ensures Convert(Message(sections) + rest) == CodedMessage(sections) + Convert(rest)
  {
    hide Convert, Items, CodedItems, Sendable;
    if |sections| == 0 {
      assert "" + rest == rest;
    } else {
      var front, last := sections[..|sections| - 1], sections[|sections| - 1];
      assert SendableAll(last);
      ConvertSection(last, rest);
      ConvertMessage(front, (Items(last) + "|") + rest);
      Associative(Message(front), Items(last) + "|", rest);
      Associative(CodedMessage(front), CodedItems(last) + "|", Convert(rest));
    }
  }

  lemma ConvertSection(fs: seq<Field>, rest: string)
    requires SendableAll(fs)
    ensures Convert((Items(fs) + "|") + rest) == (CodedItems(fs) + "|") + Convert(rest)
  {
    hide Convert, Items, CodedItems, Sendable;
    ConvertPlain("|", rest);
    ConvertItems(fs, "|" + rest);
    Associative(Items(fs), "|", rest);
    Associative(CodedItems(fs), "|", Convert(rest));
  }

  /** Every section is one object of the reply, and there is an empty one behind the last separator. */
  lemma {:induction false} ExplodeMessage(sections: seq<seq<Field>>)
    requires SendableSections(sections)
    ensures Explode('|', CodedMessage(sections)) == Objects(sections) + [""]
  {
    if |sections| == 0 {
    } else {
      hide *;
      var front, last := sections[..|sections| - 1], CodedItems(sections[|sections| - 1]);
      LastSection(sections);
      ExplodeMessage(front);
      ExplodeItems(sections[|sections| - 1]);
      ExplodeExtend('|', CodedMessage(front), last);
      ExplodeConcat('|', CodedMessage(front) + last, "");
      assert "" + last == last;
    }
  }

  lemma {:induction false} LastSection(sections: seq<seq<Field>>)
    requires SendableSections(sections) && |sections| > 0
    ensures var front, fs := sections[..|sections| - 1], sections[|sections| - 1];
      && SendableSections(front) && SendableAll(fs)
      && CodedMessage(sections) == (CodedMessage(front) + CodedItems(fs)) + ['|'] + ""
      && Objects(sections) == Objects(front) + [CodedItems(fs)]
    ensures Explode('|', "") == [""]
  {
    hide CodedItems, ItemList, Sendable;
  }

  /** The values of a section that are not hidden from the page. */
  function Shown(fs: seq<Field>, section: string, hidden: set<string>): (r: seq<Pair>)
    ensures |r| <= |fs|
  {
    if |fs| == 0 then []
    else
      var f := fs[|fs| - 1];
      Shown(fs[..|fs| - 1], section, hidden) + if section + "." + f.name in hidden then [] else [Pair(f.name, f.text)]
  }

  lemma {:induction false} ShownKeys(fs: seq<Field>, section: string, hidden: set<string>)
    ensures forall p :: p in Shown(fs, section, hidden) ==> exists i :: 0 <= i < |fs| && fs[i].name == p.key
  {
    if |fs| == 0 {
    } else {
      ShownKeys(fs[..|fs| - 1], section, hidden);
      assert fs[|fs| - 1].name == fs[|fs| - 1].name;
    }
  }

  lemma {:induction false} AssignEntryNew(entries: seq<Pair>, key: string, value: string)
    requires forall p :: p in entries ==> p.key != key
    ensures AssignEntry(entries, key, value) == entries + [Pair(key, value)]
  {
    if |entries| == 0 {
    } else {
      AssignEntryNew(entries[1..], key, value);
    }
  }

  lemma {:induction false} AssignFirst(data: seq<Section>, name: string, key: string, value: string)
    requires !IsSet(data, name)
    ensures Assign(data, name, key, value) == data + [Section(name, [Pair(key, value)])]
  {
    if |data| == 0 {
    } else {
      forall i | 0 <= i < |data[1..]|
        ensures data[1..][i].name != name
      {
        assert data[1..][i] == data[i + 1];
      }
      AssignFirst(data[1..], name, key, value);
    }
  }

  lemma {:induction false} AssignLast(data: seq<Section>, name: string, entries: seq<Pair>, key: string, value: string)
    requires !IsSet(data, name) && forall p :: p in entries ==> p.key != key
    ensures Assign(data + [Section(name, entries)], name, key, value)
         == data + [Section(name, entries + [Pair(key, value)])]
  {
    AssignEntryNew(entries, key, value);
    if |data| == 0 {
    } else {
      forall i | 0 <= i < |data[1..]|
        ensures data[1..][i].name != name
      {
        assert data[1..][i] == data[i + 1];
      }
      AssignLast(data[1..], name, entries, key, value);
      assert (data + [Section(name, entries)])[1..] == data[1..] + [Section(name, entries)];
    }
  }

  /** A section joins the array as soon as one of its values is stored. */
  function With(data: seq<Section>, name: string, entries: seq<Pair>): seq<Section> {
    if |entries| == 0 then data else data + [Section(name, entries)]
  }

  lemma {:induction false} StoreOne(data: seq<Section>, count: nat, name: string, section: string,
      entries: seq<Pair>, f: Field, hidden: set<string>)
    requires Sendable(f) && !IsSet(data, name) && forall p :: p in entries ==> p.key != f.name
    ensures StoreItem(With(data, name, entries), count, name, section, CodedItem(f), hidden).0
      == With(data, name, entries + if section + "." + f.name in hidden then [] else [Pair(f.name, f.text)])
  {
    CodedItemClean(f);
    hide Sendable, CodedValue, Revert;
    ExplodeAt('=', f.name, CodedValue(f));
    assert CodedItem(f) == f.name + ['='] + CodedValue(f);
    hide ExplodeTwo, CodedItem, IsSet, Assign;
    if section + "." + f.name in hidden {
      assert entries + [] == entries;
    } else if |entries| == 0 {
      AssignFirst(data, name, f.name, f.text);
      assert entries + [Pair(f.name, f.text)] == [Pair(f.name, f.text)];
    } else {
      AssignLast(data, name, entries, f.name, f.text);
    }
  }

  lemma {:induction false} StoredItems(data: seq<Section>, name: string, section: string, fs: seq<Field>,
                                       hidden: set<string>)
    requires !IsSet(data, name) && forall i :: 0 <= i < |fs| ==> Sendable(fs[i])
    requires forall i, j :: 0 <= i < j < |fs| ==> fs[i].name != fs[j].name
    ensures StoreItems(data, name, section, ItemList(fs), hidden).0 == With(data, name, Shown(fs, section, hidden))
  {
    hide IsSet, Sendable, With, StoreItem, CodedItem;
    if |fs| == 0 {
      WithNone(data, name);
    } else {
      var front := fs[..|fs| - 1];
      StoredItems(data, name, section, front, hidden);
      assert ItemList(fs)[..|fs| - 1] == ItemList(front);
      ShownKeys(front, section, hidden);
      var count := StoreItems(data, name, section, ItemList(front), hidden).1;
      StoreOne(data, count, name, section, Shown(front, section, hidden), fs[|fs| - 1], hidden);
    }
  }

  lemma WithNone(data: seq<Section>, name: string)
    ensures With(data, name, []) == data
  {
  }

  /** The name a printed section gets: that of its first field, with the value added if that is a number. */
  function Heading(fs: seq<Field>): (name: string)
    requires |fs| > 0
  {
    var name := if Digits(fs[0].text) then fs[0].name + fs[0].text else fs[0].name;
    if |name| == 0 then "null" else name
  }

  lemma {:induction false} HeadingParsed(fs: seq<Field>)
    requires |fs| > 0 && Sendable(fs[0])
    ensures BaseName(CodedItem(fs[0])) == Heading(fs)
  {
    var f := fs[0];
    CodedItemClean(f);
    ExplodeAt('=', f.name, CodedValue(f));
    assert CodedItem(f) == f.name + ['='] + CodedValue(f);
    DigitsCoded(f.text);
  }

  lemma {:induction false} DigitsCoded(s: string)
    ensures Digits(Coded(s)) <==> Digits(s)
    ensures Digits(s) ==> Coded(s) == s
  {
    if Digits(Coded(s)) {
      forall i | 0 <= i < |s|
        ensures '0' <= s[i] <= '9'
      {
        assert '0' <= Coded(s)[i] <= '9';
      }
    }
  }

  /** What the page gets to see of a reply. */
  function Expected(sections: seq<seq<Field>>, hidden: set<string>): seq<Section> {
    if |sections| == 0 then []
    else
      var before, last := Expected(sections[..|sections| - 1], hidden), sections[|sections| - 1];
      if |last| == 0 then before
      else With(before, FreshName(before, Heading(last)), Shown(last, NoDigits(Heading(last)), hidden))
  }

  lemma {:induction false} StoredObject(data: seq<Section>, fs: seq<Field>, hidden: set<string>)
    requires SendableAll(fs)
    ensures StoreObject(data, CodedItems(fs), hidden)
      == With(data, FreshName(data, Heading(fs)), Shown(fs, NoDigits(Heading(fs)), hidden))
  {
    ExplodeItems(fs);
    HeadingParsed(fs);
    hide CodedItem, With, BaseName, Heading, FreshName, NoDigits, IsSet, Shown, Sendable, Explode;
    ExplodedNonempty(fs);
    StoredItems(data, FreshName(data, Heading(fs)), NoDigits(Heading(fs)), fs, hidden);
  }

  lemma {:induction false} ExplodedNonempty(fs: seq<Field>)
    requires |fs| > 0
    ensures |CodedItems(fs)| > 0
  {
  }

  lemma {:induction false} StoredObjects(sections: seq<seq<Field>>, hidden: set<string>)
    requires SendableSections(sections)
    ensures StoreObjects(Objects(sections), hidden) == Expected(sections, hidden)
  {
    hide StoreObject, CodedItems, With, Heading, FreshName, NoDigits, Shown, Sendable;
    if |sections| == 0 {
    } else {
      var front := sections[..|sections| - 1];
      StoredObjects(front, hidden);
      assert SendableAll(sections[|sections| - 1]);
      assert Objects(sections)[..|sections| - 1] == Objects(front);
      StoredObject(Expected(front, hidden), sections[|sections| - 1], hidden);
    }
  }

  lemma {:induction false} EscapeKeepsOut(s: string, c: char)
    requires c !in s && c != '\\'
    ensures c !in Escape(s, false)
  {
    if |s| == 0 {
    } else {
      EscapeKeepsOut(s[1..], c);
    }
  }

  lemma {:induction false} ItemsNoNul(fs: seq<Field>)
    requires forall i :: 0 <= i < |fs| ==> Sendable(fs[i])
    ensures '\0' !in Items(fs)
  {
    if |fs| == 0 {
    } else {
      ItemNoNul(fs[|fs| - 1]);
      if |fs| > 1 {
        ItemsNoNul(fs[..|fs| - 1]);
      }
    }
    hide Sendable, Item;
  }

  lemma ItemNoNul(f: Field)
    requires Sendable(f)
    ensures '\0' !in Item(f)
  {
    if f.escape {
      EscapeKeepsOut(f.text, '\0');
    }
  }

  lemma {:induction false} MessageNoNul(sections: seq<seq<Field>>)
    requires SendableSections(sections)
    ensures '\0' !in Message(sections)
  {
    hide Sendable, Items;
    if |sections| == 0 {
    } else {
      assert SendableAll(sections[|sections| - 1]);
      ItemsNoNul(sections[|sections| - 1]);
      MessageNoNul(sections[..|sections| - 1]);
    }
  }

  /** Whatever is printed is parsed as it was meant, up to the terminator and whatever follows that. */
  lemma {:induction false} ReplyRoundTrip(sections: seq<seq<Field>>, rest: string, hidden: set<string>)
    requires SendableSections(sections)
    ensures Parsed(Message(sections) + ['\0'] + rest, hidden) == Expected(sections, hidden)
  {
    MessageNoNul(sections);
    TextEnds(Message(sections), rest);
    ConvertMessage(sections, "");
    ExplodeMessage(sections);
    StoredObjects(sections, hidden);
    assert Convert("") == "";
    hide Convert, Explode, Message, CodedMessage, Expected, Text, StoreObject, SendableSections, Objects;
    assert Message(sections) + "" == Message(sections) && CodedMessage(sections) + "" == CodedMessage(sections);
    assert (Objects(sections) + [""])[..|sections|] == Objects(sections);
    assert forall data :: StoreObject(data, "", hidden) == data by {
      EmptyObject(hidden);
    }
  }

  lemma EmptyObject(hidden: set<string>)
    ensures forall data :: StoreObject(data, "", hidden) == data
  {
  }

  /** The names and values of a section, unescaped and in order. */
  function Pairs(fs: seq<Field>): (r: seq<Pair>)
    ensures |r| == |fs| && forall i :: 0 <= i < |fs| ==> r[i] == Pair(fs[i].name, fs[i].text)
  {
    if |fs| == 0 then [] else Pairs(fs[..|fs| - 1]) + [Pair(fs[|fs| - 1].name, fs[|fs| - 1].text)]
  }

  lemma {:induction false} ShownAll(fs: seq<Field>, section: string)
    ensures Shown(fs, section, {}) == Pairs(fs)
  {
    if |fs| == 0 {
    } else {
      ShownAll(fs[..|fs| - 1], section);
    }
  }

  /** With nothing hidden: one section for each that was printed, under distinct names, with exactly its fields. */
  lemma {:induction false} NothingLost(sections: seq<seq<Field>>)
    requires SendableSections(sections)
    ensures var data := Expected(sections, {});
      && |data| == |sections|
      && (forall i :: 0 <= i < |data| ==> data[i].entries == Pairs(sections[i]))
      && (forall i, j :: 0 <= i < j < |data| ==> data[i].name != data[j].name)
  {
    hide Sendable, Heading, NoDigits;
    if |sections| == 0 {
    } else {
      var front, last := sections[..|sections| - 1], sections[|sections| - 1];
      NothingLost(front);
      assert SendableAll(last);
      ShownAll(last, NoDigits(Heading(last)));
    }
  }

  /** Exactly the fields that are not hidden under the name of their section are shown. */
  lemma {:induction false} ShownExactly(fs: seq<Field>, section: string, hidden: set<string>, p: Pair)
    ensures p in Shown(fs, section, hidden)
       <==> section + "." + p.key !in hidden && exists i :: 0 <= i < |fs| && p == Pair(fs[i].name, fs[i].text)
  {
    if |fs| == 0 {
    } else {
      var n := |fs| - 1;
      ShownExactly(fs[..n], section, hidden, p);
      if i :| 0 <= i < n && p == Pair(fs[..n][i].name, fs[..n][i].text) {
        assert p == Pair(fs[i].name, fs[i].text);
      }
      if i :| 0 <= i < |fs| && p == Pair(fs[i].name, fs[i].text) {
        assert i < n ==> p == Pair(fs[..n][i].name, fs[..n][i].text);
      }
      hide NoDigits;
    }
  }

  lemma FreshNumbered(data: seq<Section>, name: string)
    ensures NoDigits(FreshName(data, name)) == NoDigits(name)
  {
    hide NoDigits, IsSet, Decimal;
    var number := Decimal(FreeNumber(data, name, 1));
    DecimalDigits(FreeNumber(data, name, 1));
    NoDigitsGone(number);
    NoDigitsConcat(name, number);
  }

  lemma NumberedName(name: string, number: string)
    requires (forall c <- name :: !('0' <= c <= '9')) && forall c <- number :: '0' <= c <= '9'
    ensures NoDigits(name + number) == name
  {
    hide NoDigits;
    NoDigitsPlain(name);
    NoDigitsGone(number);
    NoDigitsConcat(name, number);
  }

  /** A field hidden under a name is in no section of that name, whatever number follows it. */
  lemma {:induction false} HiddenNeverShown(sections: seq<seq<Field>>, hidden: set<string>, s: Section,
                                            name: string, number: string, p: Pair)
    requires s in Expected(sections, hidden) && s.name == name + number && name + "." + p.key in hidden
    requires (forall c <- name :: !('0' <= c <= '9')) && forall c <- number :: '0' <= c <= '9'
    ensures p !in s.entries
  {
    hide NoDigits, FreshName, Heading, Shown;
    if |sections| == 0 {
    } else {
      var before, last := Expected(sections[..|sections| - 1], hidden), sections[|sections| - 1];
      if s in before {
        HiddenNeverShown(sections[..|sections| - 1], hidden, s, name, number, p);
      } else {
        NumberedName(name, number);
        FreshNumbered(before, Heading(last));
        ShownExactly(last, NoDigits(Heading(last)), hidden, p);
      }
    }
  }
}
