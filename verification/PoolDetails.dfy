/** The argument of addpool: taken apart by pooldetails in api.c, put together by the cbs escaper of miner.php. */
module PoolDetails {
  import opened Options
  import opened CStrings

  /** The text up to the first separator that has no backslash before it, and what follows that separator. */
  function Span(ch: char, s: string): (r: (string, string))
    ensures |r.0| + |r.1| <= |s|
    ensures |r.1| > 0 ==> |r.0| + |r.1| < |s|
  {
    if |s| == 0 then ("", "")
    else if s[0] == ch then ("", s[1..])
    else if s[0] == '\\' && |s| > 1 then
      var r := Span(ch, s[2..]);
      ([s[1]] + r.0, r.1)
    else
      var r := Span(ch, s[1..]);
      ([s[0]] + r.0, r.1)
  }

  datatype Details = Details(url: string, user: string, pass: string)

  /** The details in a parameter, unless the user or the password is missing. */
  function Parse(param: string): Option<Details> {
    var url := Span(',', param);
    var user := Span(',', url.1);
    if |url.1| == 0 || |user.1| == 0 then None
    else Some(Details(url.0, user.0, Span(',', user.1).0))
  }

  /** copyadvanceafter, from a position in the parameter to one in the buffer. */
  method CopyAdvanceAfter(ch: char, param: string, from: nat, buf: array<char>, to: nat) returns (src: nat, dst: nat)
    requires buf.Length == |param| + 1 && to <= from <= |param|
    modifies buf
    ensures from <= src <= |param| && param[src..] == Span(ch, param[from..]).1
    ensures to < dst <= buf.Length && (src < |param| ==> dst <= src)
    ensures buf[..dst] == old(buf[..to]) + Span(ch, param[from..]).0 + ['\0']
  {
    hide Span;
    src, dst := from, to;
    while src < |param| && param[src] != ch
      invariant from <= src <= |param| && to <= dst <= src
      invariant Span(ch, param[src..]).1 == Span(ch, param[from..]).1
      invariant buf[..dst] + Span(ch, param[src..]).0 == old(buf[..to]) + Span(ch, param[from..]).0
      decreases |param| - src
    {
      SpanNext(ch, param, src);
      if param[src] == '\\' && src + 1 < |param| {
        src := src + 1;
      }
      ghost var was := buf[..dst];
      buf[dst] := param[src];
      dst := dst + 1;
      src := src + 1;
      assert buf[..dst] == was + [param[src - 1]];
    }
    SpanEnd(ch, param, src);
    if src < |param| {
      src := src + 1;
    }
    buf[dst] := '\0';
    dst := dst + 1;
  }

  lemma {:induction false} SpanNext(ch: char, s: string, i: nat)
    requires i < |s| && s[i] != ch
    ensures var j := if s[i] == '\\' && i + 1 < |s| then i + 1 else i;
      Span(ch, s[i..]) == ([s[j]] + Span(ch, s[j + 1..]).0, Span(ch, s[j + 1..]).1)
  {
    assert s[i..][1..] == s[i + 1..];
    assert i + 1 < |s| ==> s[i..][2..] == s[i + 2..];
  }

  lemma {:induction false} SpanEnd(ch: char, s: string, i: nat)
    requires i <= |s| && (i < |s| ==> s[i] == ch)
    ensures Span(ch, s[i..]) == ("", if i < |s| then s[i + 1..] else "")
  {
    assert i < |s| ==> s[i..][1..] == s[i + 1..];
  }

  lemma {:induction false} SpanNoNul(ch: char, s: string)
    requires '\0' !in s
    ensures '\0' !in Span(ch, s).0 && '\0' !in Span(ch, s).1
  {
    if |s| == 0 || s[0] == ch {
    } else {
      SpanNoNul(ch, s[if s[0] == '\\' && |s| > 1 then 2 else 1..]);
    }
  }

  /**
   * pooldetails, on a parameter that ends where the C string does. One buffer, no longer than the parameter with
   * its terminator, takes the three texts; user and pass are where the second and the third begin.
   */
  method PoolDetails(param: string) returns (ok: bool, buf: array<char>, user: nat, pass: nat)
    ensures ok == Parse(param).Some? && fresh(buf) && buf.Length == |param| + 1
    ensures ok ==> user <= buf.Length && pass <= buf.Length
    ensures ok && '\0' !in param ==> Parse(param).value == Details(Text(buf[..]), Text(buf[user..]), Text(buf[pass..]))
  {
    hide Span, Text;
    user, pass := 0, 0;
    buf := new char[|param| + 1];
    assert param[0..] == param;
    var src, dst := CopyAdvanceAfter(',', param, 0, buf, 0);
    ghost var url := Span(',', param).0;
    assert buf[..dst] == url + ['\0'];
    if src == |param| {
      return false, buf, user, pass;
    }
    user := dst;
    src, dst := CopyAdvanceAfter(',', param, src, buf, dst);
    if src == |param| {
      return false, buf, user, pass;
    }
    pass := dst;
    ghost var first := buf[..dst];
    src, dst := CopyAdvanceAfter(',', param, src, buf, dst);
    ok := true;
    ThreeTexts(param, buf[..], user, pass, dst);
  }

  lemma {:induction false} ThreeTexts(param: string, b: string, user: nat, pass: nat, end: nat)
    requires Parse(param).Some? && user <= pass <= end <= |b|
    requires var d := Parse(param).value;
      b[..end] == d.url + ['\0'] + d.user + ['\0'] + d.pass + ['\0']
      && user == |d.url| + 1 && pass == user + |d.user| + 1
    ensures '\0' !in param ==> Parse(param).value == Details(Text(b), Text(b[user..]), Text(b[pass..]))
  {
    hide Span, Text;
    var d := Parse(param).value;
    if '\0' !in param {
      SpanNoNul(',', param);
      SpanNoNul(',', Span(',', param).1);
      SpanNoNul(',', Span(',', Span(',', param).1).1);
      TextEnds(d.url, d.user + ['\0'] + d.pass + ['\0'] + b[end..]);
      TextEnds(d.user, d.pass + ['\0'] + b[end..]);
      TextEnds(d.pass, b[end..]);
      assert b == b[..end] + b[end..];
      assert b == d.url + ['\0'] + (d.user + ['\0'] + d.pass + ['\0'] + b[end..]);
      assert b[user..] == d.user + ['\0'] + (d.pass + ['\0'] + b[end..]);
      assert b[pass..] == d.pass + ['\0'] + b[end..];
    }
  }

  /** cbs: a backslash in front of every backslash, then one in front of every comma. */
  function Prefixed(c: char, s: string): string {
    if |s| == 0 then "" else (if s[0] == c then ['\\', c] else [s[0]]) + Prefixed(c, s[1..])
  }

  function Cbs(s: string): string {
    Prefixed(',', Prefixed('\\', s))
  }

  /** What the page sends for the three inputs. */
  function Argument(d: Details): string {
    Cbs(d.url) + "," + Cbs(d.user) + "," + Cbs(d.pass)
  }

  function Lead(c: char): string {
    if c == '\\' || c == ',' then ['\\', c] else [c]
  }

  lemma {:induction false} CbsNext(s: string)
    requires |s| > 0
    ensures Cbs(s) == Lead(s[0]) + Cbs(s[1..])
  {
    var rest := Prefixed('\\', s[1..]);
    if s[0] == '\\' {
      assert ['\\', '\\'] + rest == ['\\'] + (['\\'] + rest);
      PrefixedNext('\\', ['\\'] + rest);
      PrefixedNext('\\', rest);
    } else {
      PrefixedNext(s[0], rest);
    }
  }

  lemma {:induction false} PrefixedNext(c: char, rest: string)
    ensures Prefixed(',', [c] + rest) == (if c == ',' then ['\\', ','] else [c]) + Prefixed(',', rest)
  {
    assert ([c] + rest)[1..] == rest;
  }

  /** Escaped text is taken whole, up to the separator behind it or the end. */
  lemma {:induction false} SpanCbs(s: string, rest: string)
    ensures Span(',', Cbs(s) + [','] + rest) == (s, rest) && Span(',', Cbs(s)) == (s, "")
  {
    if |s| == 0 {
      assert ([','] + rest)[1..] == rest;
    } else {
      SpanCbs(s[1..], rest);
      SpanOnePiece(s, rest);
    }
  }

  lemma {:induction false} SpanOnePiece(s: string, rest: string)
    requires |s| > 0
    requires Span(',', Cbs(s[1..]) + [','] + rest) == (s[1..], rest) && Span(',', Cbs(s[1..])) == (s[1..], "")
    ensures Span(',', Cbs(s) + [','] + rest) == (s, rest) && Span(',', Cbs(s)) == (s, "")
  {
    hide *;
    CbsNext(s);
    SpanFirst(s[0], Cbs(s[1..]) + [','] + rest);
    SpanFirst(s[0], Cbs(s[1..]));
    assert (Lead(s[0]) + Cbs(s[1..])) + [','] + rest == Lead(s[0]) + (Cbs(s[1..]) + [','] + rest);
    assert [s[0]] + s[1..] == s;
  }

  lemma {:induction false} SpanFirst(c: char, rest: string)
    ensures Span(',', Lead(c) + rest) == ([c] + Span(',', rest).0, Span(',', rest).1)
  {
    assert ([c] + rest)[1..] == rest;
    assert (['\\', c] + rest)[2..] == rest;
  }

  /** The details arrive as they were entered exactly when there is a password; without one they are refused. */
  lemma {:induction false} DetailsRoundTrip(d: Details)
    ensures Parse(Argument(d)) == if d.pass == "" then None else Some(d)
  {
    hide Span, Cbs;
    SpanCbs(d.url, Cbs(d.user) + [','] + Cbs(d.pass));
    SpanCbs(d.user, Cbs(d.pass));
    SpanCbs(d.pass, "");
    CbsEmpty(d.pass);
    assert Argument(d) == Cbs(d.url) + [','] + (Cbs(d.user) + [','] + Cbs(d.pass));
  }

  lemma CbsEmpty(s: string)
    ensures Cbs(s) == "" <==> s == ""
  {
    if |s| > 0 {
      CbsNext(s);
    }
  }
}
