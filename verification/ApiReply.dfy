/** A reply of api.c from its fields to what miner.php makes of it: lists are built, joined, printed and parsed. */
module ApiReply {
  import opened CStrings
  import opened Options
  import opened Lists
  import opened ApiData
  import opened ApiParse
  import opened ApiRoundTrip

  /** A section: the fields of its own list, and those of a list that api_add_extra puts behind it. */
  datatype Source = Source(own: seq<Field>, extra: seq<Field>)

  function Wholes(sources: seq<Source>): (r: seq<seq<Field>>)
    ensures |r| == |sources| && forall i :: 0 <= i < |r| ==> r[i] == sources[i].own + sources[i].extra
  {
    if |sources| == 0 then []
    else Wholes(sources[..|sources| - 1]) + [sources[|sources| - 1].own + sources[|sources| - 1].extra]
  }

  /** A list of fields, one api_add_data_full after the other. */
  method BuildList(fs: seq<Field>) returns (root: Node?<Field>, ghost s: seq<Entry>)
    ensures Chain(root, s) && Fields(s) == fs && forall k :: 0 <= k < |s| ==> fresh(s[k])
  {
    hide Ring, Fields;
    root, s := null, [];
    for i := 0 to |fs|
      invariant Chain(root, s) && Fields(s) == fs[..i] && forall k :: 0 <= k < |s| ==> fresh(s[k])
    {
      ghost var before := s;
      root, s := AddDataFull(root, fs[i], s);
      assert forall k :: 0 <= k < |before| ==> s[k] == s[..|before|][k] == before[k];
    }
  }

  /** A section is built from its two lists and printed. */
  method PrintSection(source: Source) returns (buf: string)
    ensures buf == Items(source.own + source.extra) + "|"
  {
    hide Ring, Fields, Items, Chain;
    ghost var s, t;
    var root, extra;
    root, s := BuildList(source.own);
    extra, t := BuildList(source.extra);
    root := AddExtra(root, extra, s, t);
    assert Fields(s + t) == Fields(s) + Fields(t);
    buf := PrintData(root, s + t);
  }

  /** All sections, one behind the other. */
  method Print(sources: seq<Source>) returns (buf: string)
    ensures buf == Message(Wholes(sources))
  {
    hide Items;
    buf := "";
    for i := 0 to |sources|
      invariant buf == Message(Wholes(sources[..i]))
    {
      assert sources[..i + 1][..i] == sources[..i];
      assert Wholes(sources[..i + 1])[..i] == Wholes(sources[..i]);
      var section := PrintSection(sources[i]);
      buf := buf + section;
    }
    assert sources[..|sources|] == sources;
  }

  lemma {:induction false} ReplyBegins(sections: seq<seq<Field>>, rest: string)
    requires SendableSections(sections)
    ensures Text(Message(sections) + ['\0'] + rest) == "" <==> |sections| == 0
  {
    MessageNoNul(sections);
    TextEnds(Message(sections), rest);
    hide Text, Items, SendableSections;
    if |sections| > 0 {
      assert |Message(sections)| > 0;
    }
  }

  /**
   * What is sent, with the terminating NUL and anything behind it, is parsed as it was meant; a reply without sections
   * is nothing at all.
   */
  method SendAndParse(sources: seq<Source>, rest: string, hidden: set<string>) returns (result: Option<seq<Section>>)
    requires SendableSections(Wholes(sources))
    ensures result == if sources == [] then None else Some(Expected(Wholes(sources), hidden))
  {
    hide *;
    var message := Print(sources);
    ReplyRoundTrip(Wholes(sources), rest, hidden);
    ReplyBegins(Wholes(sources), rest);
    result := Api(message + ['\0'] + rest, hidden);
  }
}
