/** The string operations the ORM relies on: `sep.join(parts)`,
    `s.find(t)`, `s.lower()`, and the two readers that undo what the SQL
    renderer writes (a quoted SQLite string literal, a back-quoted name list). */
module Text {
  import opened Values

  /** `sep.join(parts)`. */
  function Join(sep: string, parts: seq<string>): (r: string)
    ensures |parts| == 1 ==> r == parts[0]
    ensures |parts| > 0 ==> |r| >= |parts[0]|
    decreases |parts|
  {
    if |parts| == 0 then ""
    else if |parts| == 1 then parts[0]
    else parts[0] + sep + Join(sep, parts[1..])
  }

  /** Joining one more part adds the separator and that part at the end. */
  lemma {:induction false} JoinSnoc(sep: string, parts: seq<string>, p: string)
    requires |parts| > 0
    ensures Join(sep, parts + [p]) == Join(sep, parts) + sep + p
    decreases |parts|
  {
    if |parts| == 1 {
      assert (parts + [p])[1..] == [p];
    } else {
      assert (parts + [p])[1..] == parts[1..] + [p];
      JoinSnoc(sep, parts[1..], p);
    }
  }

  // ---------------------------------------------------------------- find

  predicate OccursAt(s: string, t: string, i: int)
  {
    0 <= i && i + |t| <= |s| && s[i..i + |t|] == t
  }

  function FindFrom(s: string, t: string, i: nat): (r: int)
    requires i <= |s| + 1
    ensures r == -1 || (i <= r && OccursAt(s, t, r))
    ensures forall j :: i <= j && (r == -1 || j < r) ==> !OccursAt(s, t, j)
    decreases |s| + 1 - i
  {
    if i + |t| > |s| then -1
    else if s[i..i + |t|] == t then i
    else FindFrom(s, t, i + 1)
  }

  /** `s.find(t)`: the lowest index where `t` occurs in `s`, or -1. */
  function Find(s: string, t: string): (r: int)
    ensures r >= 0 <==> exists j :: OccursAt(s, t, j)
    ensures r >= 0 ==> OccursAt(s, t, r) && forall j :: 0 <= j < r ==> !OccursAt(s, t, j)
    ensures r >= -1
  {
    FindFrom(s, t, 0)
  }

  // ---------------------------------------------------------------- lower

  function LowerChar(c: char): char
  {
    if 'A' <= c <= 'Z' then (c as int + 32) as char else c
  }

  predicate IsUpper(c: char)
  {
    'A' <= c <= 'Z'
  }

  /** `s.lower()` on a Python 2 byte string: no capital letter is left,
      each capital becomes its small letter, and nothing else changes. */
  function Lower(s: string): (r: string)
    ensures |r| == |s|
    ensures forall j :: 0 <= j < |r| ==> !IsUpper(r[j])
    ensures forall j :: 0 <= j < |s| && !IsUpper(s[j]) ==> r[j] == s[j]
    ensures forall j :: 0 <= j < |s| && IsUpper(s[j]) ==> r[j] as int - s[j] as int == 'a' as int - 'A' as int
  {
    seq(|s|, j requires 0 <= j < |s| => LowerChar(s[j]))
  }

  /** Lower-casing twice is lower-casing once. */
  lemma LowerIdempotent(s: string)
    ensures Lower(Lower(s)) == Lower(s)
  {
    var r := Lower(s);
    assert forall j :: 0 <= j < |r| ==> Lower(r)[j] == r[j];
  }

  // ---------------------------------------------------------------- reading a SQLite string literal back

  /** The body of a single-quoted SQL string literal, where a doubled quote
      stands for one quote and a lone quote ends the literal early. */
  function Unescape(b: string): (r: Option<string>)
    decreases |b|
  {
    if b == [] then Some([])
    else if b[0] == '\'' then
      if |b| >= 2 && b[1] == '\'' then
        match Unescape(b[2..])
        case Some(u) => Some(['\''] + u)
        case None => None
      else None
    else
      match Unescape(b[1..])
      case Some(u) => Some([b[0]] + u)
      case None => None
  }

  /** What a SQL reader makes of `s` as one single-quoted string literal. */
  function UnquoteString(s: string): Option<string>
  {
    if |s| >= 2 && s[0] == '\'' && s[|s| - 1] == '\'' then Unescape(s[1..|s| - 1]) else None
  }

  lemma {:induction false} UnescapeQuoteFree(b: string)
    requires '\'' !in b
    ensures Unescape(b) == Some(b)
    decreases |b|
  {
    if b != [] {
      assert b[0] in b;
      assert forall c :: c in b[1..] ==> c in b;
      UnescapeQuoteFree(b[1..]);
      assert [b[0]] + b[1..] == b;
    }
  }

  /** Reading never lengthens the body, and keeps its length only when
      the body holds no quote at all. */
  lemma {:induction false} UnescapeShrinks(b: string)
    requires Unescape(b).Some?
    ensures |Unescape(b).value| <= |b|
    ensures |Unescape(b).value| == |b| ==> '\'' !in b
    decreases |b|
  {
    if b != [] {
      if b[0] == '\'' {
        UnescapeShrinks(b[2..]);
      } else {
        UnescapeShrinks(b[1..]);
        assert b == [b[0]] + b[1..];
      }
    }
  }

  /** A quote-free text survives quoting and reading back, and a text with
      a quote in it does not. */
  lemma UnquoteRoundTrip(t: string)
    ensures UnquoteString("'" + t + "'") == Some(t) <==> '\'' !in t
  {
    var s := "'" + t + "'";
    assert s[1..|s| - 1] == t;
    if '\'' !in t {
      UnescapeQuoteFree(t);
    } else if Unescape(t).Some? {
      UnescapeShrinks(t);
    }
  }

  // ---------------------------------------------------------------- back-quoted name lists

  function Backquote(name: string): string
  {
    "`" + name + "`"
  }

  function BackquoteAll(names: seq<string>): (r: seq<string>)
    ensures |r| == |names|
    ensures forall j :: 0 <= j < |names| ==> r[j] == Backquote(names[j])
  {
    seq(|names|, j requires 0 <= j < |names| => Backquote(names[j]))
  }

  /** `','.join(['`' + v + '`' for v in names])`. */
  function QuotedList(names: seq<string>): string
  {
    Join(",", BackquoteAll(names))
  }

  /** Index of the first `c` in `s`, or `|s|`. */
  function IndexOf(s: string, c: char): (r: nat)
    ensures r <= |s|
    ensures r < |s| ==> s[r] == c
    ensures forall j :: 0 <= j < r ==> s[j] != c
    decreases |s|
  {
    if s == [] then 0 else if s[0] == c then 0 else 1 + IndexOf(s[1..], c)
  }

  /** Reads a comma-separated list of back-quoted names. */
  function ParseQuotedList(s: string): (r: Option<seq<string>>)
    decreases |s|
  {
    if |s| == 0 || s[0] != '`' then None
    else
      var close := 1 + IndexOf(s[1..], '`');
      if close >= |s| then None
      else
        var name := s[1..close];
        var rest := s[close + 1..];
        if rest == [] then Some([name])
        else if rest[0] != ',' then None
        else
          match ParseQuotedList(rest[1..])
          case Some(names) => Some([name] + names)
          case None => None
  }

  predicate NoBackquote(names: seq<string>)
  {
    forall j :: 0 <= j < |names| ==> '`' !in names[j]
  }

  lemma IndexOfPrefix(name: string, tail: string)
    requires '`' !in name
    ensures IndexOf(name + "`" + tail, '`') == |name|
  {
    var s := name + "`" + tail;
    var k := IndexOf(s, '`');
    assert s[|name|] == '`';
  }

  /** One back-quoted name, then either the end or a comma and more. */
  lemma ParseFirst(name: string, tail: string)
    requires '`' !in name
    ensures tail == [] ==> ParseQuotedList("`" + name + "`" + tail) == Some([name])
    ensures tail != [] && tail[0] == ',' ==>
      ParseQuotedList("`" + name + "`" + tail) ==
        match ParseQuotedList(tail[1..])
        case Some(names) => Some([name] + names)
        case None => None
  {
    var s := "`" + name + "`" + tail;
    assert s[1..] == name + "`" + tail;
    IndexOfPrefix(name, tail);
    assert s[1..1 + |name|] == name;
    assert s[|name| + 2..] == tail;
  }

  /** A list of back-quote-free names is read back from its rendering. */
  lemma {:induction false} QuotedListRoundTrip(names: seq<string>)
    requires |names| > 0 && NoBackquote(names)
    ensures ParseQuotedList(QuotedList(names)) == Some(names)
    decreases |names|
  {
    var n := names[0];
    assert '`' !in n;
    if |names| == 1 {
      assert QuotedList(names) == "`" + n + "`" + "";
      ParseFirst(n, "");
      assert names == [n];
    } else {
      var rest := QuotedList(names[1..]);
      QuotedListCons(names);
      ParseFirst(n, "," + rest);
      assert ("," + rest)[1..] == rest;
      assert NoBackquote(names[1..]);
      QuotedListRoundTrip(names[1..]);
      assert [n] + names[1..] == names;
    }
  }

  /** The rendering of two or more names: the first name, a comma, and the
      rendering of the others. */
  lemma QuotedListCons(names: seq<string>)
    requires |names| > 1
    ensures QuotedList(names) == "`" + names[0] + "`" + ("," + QuotedList(names[1..]))
  {
    var quoted := BackquoteAll(names);
    assert quoted[1..] == BackquoteAll(names[1..]);
    assert QuotedList(names) == quoted[0] + "," + Join(",", quoted[1..]);
  }
}
