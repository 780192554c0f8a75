/** escape_string of api.c, and the two functions of miner.php that undo it: api_convert_escape and revert. */
module ApiEscape {
  import opened Sequences

  /** The characters that get a backslash: one set for plain text replies, another for JSON ones. */
  predicate Special(c: char, isjson: bool) {
    c == '\\' || if isjson then c == '"' else c == ',' || c == '|' || c == '='
  }

  /** What is written for one character. */
  function Written(c: char, isjson: bool): string {
    if Special(c, isjson) then ['\\', c] else [c]
  }

  function Escape(s: string, isjson: bool): string {
    if |s| == 0 then "" else Written(s[0], isjson) + Escape(s[1..], isjson)
  }

  function CountSpecial(s: string, isjson: bool): nat {
    if |s| == 0 then 0 else (if Special(s[0], isjson) then 1 else 0) + CountSpecial(s[1..], isjson)
  }

  /** The buffer escape_string allocates is exactly as long as what it writes. */
  lemma {:induction false} EscapeLength(s: string, isjson: bool)
    ensures |Escape(s, isjson)| == |s| + CountSpecial(s, isjson)
    ensures CountSpecial(s, isjson) == 0 ==> Escape(s, isjson) == s
  {
    if |s| == 0 {
    } else {
      EscapeLength(s[1..], isjson);
    }
  }

  lemma {:induction false} EscapeNext(s: string, i: nat, isjson: bool)
    requires i < |s|
    ensures Escape(s[i..], isjson) == Written(s[i], isjson) + Escape(s[i + 1..], isjson)
    ensures CountSpecial(s[i..], isjson) == (if Special(s[i], isjson) then 1 else 0) + CountSpecial(s[i + 1..], isjson)
  {
    assert s[i..][1..] == s[i + 1..];
  }

  /** The first loop of escape_string. */
  method Count(str: string, isjson: bool) returns (count: nat)
    ensures count == CountSpecial(str, isjson)
  {
    count := 0;
    var i := 0;
    while i < |str|
      invariant i <= |str| && count + CountSpecial(str[i..], isjson) == CountSpecial(str, isjson)
    {
      EscapeNext(str, i, isjson);
      match str[i] {
        case ',' | '|' | '=' =>
          if !isjson {
            count := count + 1;
          }
        case '"' =>
          if isjson {
            count := count + 1;
          }
        case '\\' =>
          count := count + 1;
        case _ =>
      }
      i := i + 1;
    }
  }

  lemma EscapeEnd(s: string, isjson: bool)
    ensures Escape(s[0..], isjson) == Escape(s, isjson) && Escape(s[|s|..], isjson) == ""
  {
    assert s[0..] == s;
  }

  /** What one turn of the second loop of escape_string writes. */
  method Put(buf: array<char>, at: nat, c: char, isjson: bool) returns (ptr: nat)
    requires at + |Written(c, isjson)| <= buf.Length
    modifies buf
    ensures ptr == at + |Written(c, isjson)| && buf[..ptr] == old(buf[..at]) + Written(c, isjson)
  {
    ptr := at;
    match c {
      case ',' | '|' | '=' =>
        if !isjson {
          buf[ptr] := '\\';
          ptr := ptr + 1;
        }
      case '"' =>
        if isjson {
          buf[ptr] := '\\';
          ptr := ptr + 1;
        }
      case '\\' =>
        buf[ptr] := '\\';
        ptr := ptr + 1;
      case _ =>
    }
    buf[ptr] := c;
    ptr := ptr + 1;
  }

  /** One turn: what is written and what is still to be written stay the same text. */
  method PutNext(buf: array<char>, at: nat, str: string, i: nat, isjson: bool) returns (ptr: nat)
    requires i < |str| && at + |Escape(str[i..], isjson)| < buf.Length
    modifies buf
    ensures ptr + |Escape(str[i + 1..], isjson)| == at + |Escape(str[i..], isjson)|
    ensures buf[..ptr] + Escape(str[i + 1..], isjson) == old(buf[..at]) + Escape(str[i..], isjson)
  {
    hide *;
    EscapeNext(str, i, isjson);
    ghost var was, rest := buf[..at], Escape(str[i + 1..], isjson);
    ptr := Put(buf, at, str[i], isjson);
    Associative(was, Written(str[i], isjson), rest);
  }

  /**
   * escape_string on the characters of a C string before its end. No result means that the argument itself is
   * returned; otherwise the buffer is filled to its last element, which is the terminator.
   */
  method EscapeString(str: string, isjson: bool) returns (buf: array?<char>)
    ensures buf == null ==> Escape(str, isjson) == str
    ensures buf != null ==> fresh(buf) && buf[..] == Escape(str, isjson) + ['\0']
  {
    hide *;
    var count := Count(str, isjson);
    EscapeLength(str, isjson);
    EscapeEnd(str, isjson);
    if count == 0 {
      return null;
    }
    buf := new char[|str| + count + 1];
    var i, ptr := 0, 0;
    while i < |str|
      invariant i <= |str|
      invariant 0 <= ptr < buf.Length && ptr + |Escape(str[i..], isjson)| + 1 == buf.Length
      invariant buf[..ptr] + Escape(str[i..], isjson) == Escape(str, isjson)
    {
      ptr := PutNext(buf, ptr, str, i, isjson);
      i := i + 1;
    }
    buf[ptr] := '\0';
  }

  /** Taking every escaped character for itself. */
  function Unescape(s: string): string {
    if |s| == 0 then ""
    else if s[0] == '\\' && |s| > 1 then [s[1]] + Unescape(s[2..])
    else [s[0]] + Unescape(s[1..])
  }

  /** Escaping loses nothing, in either style. */
  lemma {:induction false} EscapeRoundTrip(s: string, isjson: bool)
    ensures Unescape(Escape(s, isjson)) == s
  {
    if |s| == 0 {
    } else {
      EscapeRoundTrip(s[1..], isjson);
      UnescapeFirst(s[0], Escape(s[1..], isjson), isjson);
    }
  }

  lemma {:induction false} UnescapeFirst(c: char, rest: string, isjson: bool)
    ensures Unescape(Written(c, isjson) + rest) == [c] + Unescape(rest)
  {
    assert (['\\', c] + rest)[2..] == rest;
    assert ([c] + rest)[1..] == rest;
  }

  /** The byte api_convert_escape puts for an escaped character. */
  function Code(c: char): char {
    match c
    case '|' => 1 as char
    case '\\' => 2 as char
    case '=' => 3 as char
    case ',' => 4 as char
    case _ => c
  }

  function Convert(s: string): string {
    if |s| == 0 then ""
    else if s[0] != '\\' || |s| == 1 then [s[0]] + Convert(s[1..])
    else [Code(s[1])] + Convert(s[2..])
  }

  /** One turn of the loop of api_convert_escape: the character it adds, and where it goes on. */
  method ConvertOne(str: string, at: nat) returns (out: char, next: nat)
    requires at < |str|
    ensures at < next <= |str| && Convert(str[at..]) == [out] + Convert(str[next..])
  {
    ConvertNext(str, at);
    var i, ch := at, str[at];
    out := ch;
    if !(ch != '\\' || i == |str| - 1) {
      i := i + 1;
      ch := str[i];
      match ch {
        case '|' => out := 1 as char;
        case '\\' => out := 2 as char;
        case '=' => out := 3 as char;
        case ',' => out := 4 as char;
        case _ => out := ch;
      }
    }
    next := i + 1;
  }

  /** api_convert_escape. */
  method ApiConvertEscape(str: string) returns (res: string)
    ensures res == Convert(str)
  {
    res := "";
    var i := 0;
    assert Convert("") == "" && str[0..] == str;
    hide Convert;
    while i < |str|
      invariant i <= |str| && res + Convert(str[i..]) == Convert(str)
    {
      ghost var was, at := res, i;
      var ch;
      ch, i := ConvertOne(str, i);
      res := res + [ch];
      assert was + ([ch] + Convert(str[i..])) == res + Convert(str[i..]);
    }
    assert str[|str|..] == "";
  }

  lemma {:induction false} ConvertNext(s: string, i: nat)
    requires i < |s|
    ensures s[i] != '\\' || i == |s| - 1 ==> Convert(s[i..]) == [s[i]] + Convert(s[i + 1..])
    ensures s[i] == '\\' && i < |s| - 1 ==> Convert(s[i..]) == [Code(s[i + 1])] + Convert(s[i + 2..])
  {
    assert s[i..][1..] == s[i + 1..];
    assert i < |s| - 1 ==> s[i..][2..] == s[i + 2..];
  }

  /** str_replace of one character by another. */
  function Replace(from: char, to: char, s: string): (r: string)
    ensures |r| == |s| && forall i :: 0 <= i < |s| ==> r[i] == if s[i] == from then to else s[i]
  {
    if |s| == 0 then "" else [if s[0] == from then to else s[0]] + Replace(from, to, s[1..])
  }

  /** revert: str_replace with arrays replaces one pair after another. */
  function Revert(s: string): (r: string)
    ensures |r| == |s|
  {
    Replace(4 as char, ',', Replace(3 as char, '=', Replace(2 as char, '\\', Replace(1 as char, '|', s))))
  }

  /** A character that is not used as a code, nor ends the reply. */
  predicate Printable(c: char) {
    c as int > 4
  }

  /** The codes of the special characters of a string. */
  function Coded(s: string): (r: string)
    ensures |r| == |s| && forall i :: 0 <= i < |s| ==> r[i] == Code(s[i])
  {
    seq(|s|, i requires 0 <= i < |s| => Code(s[i]))
  }

  /** What is left of delimiters in a converted escaped string: none. */
  lemma CodedClean(s: string)
    ensures forall i :: 0 <= i < |s| ==> Coded(s)[i] != ',' && Coded(s)[i] != '|' && Coded(s)[i] != '='
  {
  }

  /** Reverting restores a string in which the codes themselves do not occur. */
  lemma {:induction false} RevertCoded(s: string)
    requires forall i :: 0 <= i < |s| ==> Printable(s[i])
    ensures Revert(Coded(s)) == s
  {
  }

  /** An escaped string is converted as a whole, whatever follows it. */
  lemma {:induction false} ConvertEscaped(s: string, rest: string)
    ensures Convert(Escape(s, false) + rest) == Coded(s) + Convert(rest)
  {
    if |s| == 0 {
      assert "" + rest == rest;
    } else {
      ConvertEscaped(s[1..], rest);
      ConvertOnePiece(s, rest);
    }
  }

  lemma {:induction false} ConvertOnePiece(s: string, rest: string)
    requires |s| > 0 && Convert(Escape(s[1..], false) + rest) == Coded(s[1..]) + Convert(rest)
    ensures Convert(Escape(s, false) + rest) == Coded(s) + Convert(rest)
  {
    hide *;
    ConvertFirst(s[0], Escape(s[1..], false) + rest);
    EscapeFirst(s, rest);
    Associative([Code(s[0])], Coded(s[1..]), Convert(rest));
  }

  lemma {:induction false} EscapeFirst(s: string, rest: string)
    requires |s| > 0
    ensures Coded(s) == [Code(s[0])] + Coded(s[1..])
    ensures Escape(s, false) + rest == Written(s[0], false) + (Escape(s[1..], false) + rest)
  {
    hide Code, Written;
  }

  lemma {:induction false} ConvertFirst(c: char, rest: string)
    ensures Convert(Written(c, false) + rest) == [Code(c)] + Convert(rest)
  {
    assert (['\\', c] + rest)[2..] == rest;
    assert ([c] + rest)[1..] == rest;
  }

  /** Text without a backslash is left alone. */
  lemma {:induction false} ConvertPlain(s: string, rest: string)
    requires forall i :: 0 <= i < |s| ==> s[i] != '\\'
    ensures Convert(s + rest) == s + Convert(rest)
  {
    if |s| == 0 {
      assert s + rest == rest;
    } else {
      ConvertPlain(s[1..], rest);
      assert (s + rest)[1..] == s[1..] + rest;
    }
  }

  /** Exactly the strings without a code byte survive the whole way from the printer to the page. */
  lemma {:induction false} ValueRoundTrip(s: string)
    ensures (forall i :: 0 <= i < |s| ==> s[i] as int !in {1, 2, 3, 4}) <==> Revert(Convert(Escape(s, false))) == s
  {
    ConvertEscaped(s, "");
    assert Escape(s, false) + "" == Escape(s, false) && Coded(s) + "" == Coded(s);
    RevertPointwise(s);
  }

  lemma {:induction false} RevertPointwise(s: string)
    ensures forall i :: 0 <= i < |s| ==> (Revert(Coded(s))[i] == s[i] <==> s[i] as int !in {1, 2, 3, 4})
  {
  }
}
