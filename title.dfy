/** Title extraction (the lambda in src/main.ts): the title of a post is what
    the regular expression `"(.*)"` captures on the second line of its
    `index.md`, or "No title". */
module Title {
  import opened Base

  /** `s.split(sep)` for a one-character separator: the pieces between the
      separators, in order; a string without `sep` is one piece. */
  function Split(s: string, sep: char): (r: seq<string>)
    ensures r != []
    ensures forall k :: 0 <= k < |r| ==> sep !in r[k]
    decreases |s|
  {
    if s == [] then [""]
    else
      var rest := Split(s[1..], sep);
      if s[0] == sep then [""] + rest
      else [[s[0]] + rest[0]] + rest[1..]
  }

  /** `pieces.join(sep)`: the inverse of `Split`. */
  function Join(pieces: seq<string>, sep: char): string
    requires pieces != []
    decreases |pieces|
  {
    if |pieces| == 1 then pieces[0] else pieces[0] + [sep] + Join(pieces[1..], sep)
  }

  /** Splitting and joining again gives back the string. */
  lemma {:induction false} JoinSplit(s: string, sep: char)
    ensures Join(Split(s, sep), sep) == s
    decreases |s|
  {
    if s != [] {
      var rest := Split(s[1..], sep);
      JoinSplit(s[1..], sep);
      if s[0] == sep {
        assert Split(s, sep)[1..] == rest;
      } else {
        var r := Split(s, sep);
        if |rest| > 1 {
          assert r[1..] == rest[1..];
          assert Join(rest, sep) == rest[0] + [sep] + Join(rest[1..], sep);
        }
        assert s == [s[0]] + s[1..];
      }
    }
  }

  /** Joining separator-free pieces and splitting again gives back the pieces. */
  lemma {:induction false} SplitJoin(pieces: seq<string>, sep: char)
    requires pieces != []
    requires forall k :: 0 <= k < |pieces| ==> sep !in pieces[k]
    ensures Split(Join(pieces, sep), sep) == pieces
    decreases |pieces|
  {
    if |pieces| == 1 {
      SplitNoSep(pieces[0], [], sep);
      assert pieces[0] + [] == pieces[0];
      assert Split([], sep) == [""];
    } else {
      SplitJoin(pieces[1..], sep);
      var tail := [sep] + Join(pieces[1..], sep);
      SplitNoSep(pieces[0], tail, sep);
      assert Join(pieces, sep) == pieces[0] + tail;
      assert Split(tail, sep) == [""] + pieces[1..] by {
        assert tail[0] == sep && tail[1..] == Join(pieces[1..], sep);
      }
      var r := Split(pieces[0] + tail, sep);
      assert r[0] == pieces[0] + "" == pieces[0];
      assert r == [r[0]] + r[1..];
      assert pieces == [pieces[0]] + pieces[1..];
    }
  }

  /** A separator-free prefix joins the first piece of what follows it. */
  lemma {:induction false} SplitNoSep(a: string, t: string, sep: char)
    requires sep !in a
    ensures var r, rt := Split(a + t, sep), Split(t, sep);
      |r| == |rt| && r[0] == a + rt[0] && r[1..] == rt[1..]
    decreases |a|
  {
    if a != [] {
      assert (a + t)[0] == a[0] && (a + t)[1..] == a[1..] + t;
      assert sep !in a[1..];
      SplitNoSep(a[1..], t, sep);
      var rest := Split(a[1..] + t, sep);
      assert Split(a + t, sep) == [[a[0]] + rest[0]] + rest[1..];
      assert [a[0]] + (a[1..] + Split(t, sep)[0]) == a + Split(t, sep)[0];
    } else {
      assert a + t == t && a + Split(t, sep)[0] == Split(t, sep)[0];
    }
  }

  /** There is more than one piece exactly when the separator occurs. */
  lemma {:induction false} SplitMany(s: string, sep: char)
    ensures |Split(s, sep)| > 1 <==> sep in s
    decreases |s|
  {
    if s != [] {
      SplitMany(s[1..], sep);
      assert sep in s <==> s[0] == sep || sep in s[1..];
    }
  }

  /** `split("\n")[1]`: the second line, or `undefined` when there is no line break. */
  function TitleLine(file: string): Option<string>
  {
    var lines := Split(file, '\n');
    if |lines| > 1 then Some(lines[1]) else None
  }

  /** The second line is what lies between the first and the second line
      break (or the end of the file). */
  lemma SecondLine(a: string, line: string, rest: string)
    requires '\n' !in a && '\n' !in line && (rest == [] || rest[0] == '\n')
    ensures TitleLine(a + "\n" + line + rest) == Some(line)
  {
    var t := "\n" + line + rest;
    assert a + "\n" + line + rest == a + t;
    SplitNoSep(a, t, '\n');
    assert t[0] == '\n' && t[1..] == line + rest;
    assert Split(t, '\n') == [""] + Split(line + rest, '\n');
    SplitNoSep(line, rest, '\n');
    assert Split(rest, '\n')[0] == "";
    assert line + "" == line;
  }

  /** Conversely, the line `TitleLine` picks is always of that form. */
  lemma SecondLineIsBetweenBreaks(file: string)
    requires TitleLine(file).Some?
    ensures exists a, rest ::
      '\n' !in a && (rest == [] || rest[0] == '\n') && file == a + "\n" + TitleLine(file).value + rest
  {
    var lines := Split(file, '\n');
    JoinSplit(file, '\n');
    var a, line := lines[0], lines[1];
    var rest := if |lines| > 2 then "\n" + Join(lines[2..], '\n') else "";
    assert lines[1..][0] == line && lines[1..][1..] == lines[2..];
    assert Join(lines[1..], '\n') == line + rest;
    assert file == a + "\n" + Join(lines[1..], '\n');
    assert file == a + "\n" + line + rest;
    assert '\n' !in a && (rest == [] || rest[0] == '\n');
  }

  /** A file without a line break has no second line. */
  lemma NoSecondLine(file: string)
    ensures TitleLine(file) == None <==> '\n' !in file
  {
    SplitMany(file, '\n');
  }

  /** The characters `.` does not match. */
  predicate IsLineTerminator(c: char)
  {
    c == '\n' || c == '\r' || c == '\U{2028}' || c == '\U{2029}'
  }

  /** A match of `"(.*)"` in `s`: a quote at `open`, a quote at `close`, and
      no line terminator between them. */
  predicate QuotedPair(s: string, open: int, close: int)
  {
    0 <= open < close < |s| && s[open] == '"' && s[close] == '"' &&
    forall k :: open < k < close ==> !IsLineTerminator(s[k])
  }

  /** Where a run of `.` starting at `i` stops: the first line terminator
      at or after `i`, or the end of `s`. */
  function RunEnd(s: string, i: nat): (e: nat)
    requires i <= |s|
    ensures i <= e <= |s|
    ensures forall k :: i <= k < e ==> !IsLineTerminator(s[k])
    ensures e < |s| ==> IsLineTerminator(s[e])
    decreases |s| - i
  {
    if i == |s| || IsLineTerminator(s[i]) then i else RunEnd(s, i + 1)
  }

  /** The last quote in `s[lo..hi]`: greedy `.*` gives back characters from
      the right until the closing quote matches. */
  function LastQuote(s: string, lo: nat, hi: nat): (r: Option<nat>)
    requires lo <= hi <= |s|
    ensures r.Some? ==> lo <= r.value < hi && s[r.value] == '"'
    ensures r.Some? ==> forall k :: r.value < k < hi ==> s[k] != '"'
    ensures r.None? ==> forall k :: lo <= k < hi ==> s[k] != '"'
    decreases hi - lo
  {
    if hi == lo then None
    else if s[hi - 1] == '"' then Some(hi - 1)
    else LastQuote(s, lo, hi - 1)
  }

  /** The attempt to match at `i`: the index of the closing quote of the
      longest match opening there, if any. */
  function MatchAt(s: string, i: nat): (r: Option<nat>)
    requires i < |s|
    ensures r.Some? ==> QuotedPair(s, i, r.value)
    ensures r.Some? ==> forall c :: QuotedPair(s, i, c) ==> c <= r.value
    ensures r.None? ==> forall c :: !QuotedPair(s, i, c)
  {
    if s[i] != '"' then None
    else
      var e := RunEnd(s, i + 1);
      var r := LastQuote(s, i + 1, e);
      assert forall c :: QuotedPair(s, i, c) ==> c < e;
      r
  }

  /** The quotes of a match. */
  datatype Match = Match(open: nat, close: nat)

  /** The match `exec` reports: the one that opens leftmost and, among
      those, closes rightmost. */
  ghost predicate IsLeftmostLongest(s: string, m: Match)
  {
    QuotedPair(s, m.open, m.close) &&
    (forall o, c :: QuotedPair(s, o, c) ==> m.open <= o) &&
    (forall c :: QuotedPair(s, m.open, c) ==> c <= m.close)
  }

  /** `exec` from position `i` on: try to match at each position in turn. */
  function ExecFrom(s: string, i: nat): (r: Option<Match>)
    requires i <= |s|
    ensures r.Some? ==> i <= r.value.open && QuotedPair(s, r.value.open, r.value.close)
    ensures r.Some? ==> forall o, c :: i <= o && QuotedPair(s, o, c) ==> r.value.open <= o
    ensures r.Some? ==> forall c :: QuotedPair(s, r.value.open, c) ==> c <= r.value.close
    ensures r.None? ==> forall o, c :: i <= o ==> !QuotedPair(s, o, c)
    decreases |s| - i
  {
    if i == |s| then None
    else
      match MatchAt(s, i)
      case Some(c) => Some(Match(i, c))
      case None => ExecFrom(s, i + 1)
  }

  /** `/"(.*)"/.exec(s)?.[1]`: the text between the quotes of the
      leftmost-longest match, or nothing when there is no match. */
  function Exec(s: string): (r: Option<string>)
    ensures r.None? <==> forall o, c :: !QuotedPair(s, o, c)
    ensures r.Some? ==> exists m :: IsLeftmostLongest(s, m) && r.value == s[m.open + 1..m.close]
  {
    match ExecFrom(s, 0)
    case None => None
    case Some(m) =>
      assert IsLeftmostLongest(s, m);
      Some(s[m.open + 1..m.close])
  }

  /** The leftmost-longest match is the one `exec` reports. */
  lemma ExecFindsLeftmostLongest(s: string, m: Match)
    requires IsLeftmostLongest(s, m)
    ensures Exec(s) == Some(s[m.open + 1..m.close])
  {
    var r := ExecFrom(s, 0);
    assert r.Some?;
    assert r.value.open == m.open;
    assert r.value.close == m.close;
  }

  /** `.exec(...)?.[1]?.toString() ?? "No title"`. */
  function LineTitle(line: string): string
  {
    match Exec(line)
    case None => "No title"
    case Some(g) => g
  }

  /** The string `exec` sees: the line, or "undefined" when there is none. */
  function Subject(line: Option<string>): string
  {
    match line
    case None => "undefined"
    case Some(l) => l
  }

  /** The title of a post, from the text of its `index.md`. */
  function Title(file: string): string
  {
    LineTitle(Subject(TitleLine(file)))
  }

  /** Only the second line decides the title. */
  lemma TitleOfSecondLine(a: string, line: string, rest: string)
    requires '\n' !in a && '\n' !in line && (rest == [] || rest[0] == '\n')
    ensures Title(a + "\n" + line + rest) == LineTitle(line)
  {
    SecondLine(a, line, rest);
  }

  /** On a line with no line terminator, the title is everything strictly
      between the first and the last quote. */
  lemma BetweenFirstAndLastQuote(line: string, first: nat, last: nat)
    requires forall k :: 0 <= k < |line| ==> !IsLineTerminator(line[k])
    requires first < last < |line| && line[first] == '"' && line[last] == '"'
    requires forall k :: 0 <= k < first ==> line[k] != '"'
    requires forall k :: last < k < |line| ==> line[k] != '"'
    ensures LineTitle(line) == line[first + 1..last]
  {
    ExecFindsLeftmostLongest(line, Match(first, last));
  }

  /** A line with fewer than two quotes has no title. */
  lemma FewerThanTwoQuotes(line: string)
    requires forall i, j :: 0 <= i < j < |line| ==> !(line[i] == '"' && line[j] == '"')
    ensures LineTitle(line) == "No title"
  {
  }

  /** A file without a line break has no second line; `exec` then sees
      "undefined", which has no quotes. */
  lemma NoLineBreakNoTitle(file: string)
    requires '\n' !in file
    ensures Title(file) == "No title"
  {
    NoSecondLine(file);
    FewerThanTwoQuotes("undefined");
  }

  /** A front-matter line `key"body"` with no quote in `key` and no line
      terminator anywhere has title `body`, quotes inside `body` included. */
  lemma QuotedValue(key: string, body: string)
    requires '"' !in key
    requires forall k :: 0 <= k < |key| ==> !IsLineTerminator(key[k])
    requires forall k :: 0 <= k < |body| ==> !IsLineTerminator(body[k])
    ensures LineTitle(key + "\"" + body + "\"") == body
  {
    var line := key + "\"" + body + "\"";
    var first, last := |key|, |key| + 1 + |body|;
    forall k | 0 <= k < |line|
      ensures !IsLineTerminator(line[k])
    {
      if k < first {
        assert line[k] == key[k];
      } else if first < k < last {
        assert line[k] == body[k - first - 1];
      }
    }
    forall k | 0 <= k < first
      ensures line[k] != '"'
    {
      assert line[k] == key[k];
    }
    BetweenFirstAndLastQuote(line, first, last);
    assert line[first + 1..last] == body;
  }

  /** A line without line terminators has no line break. */
  lemma NoTerminatorNoBreak(s: string)
    requires forall k :: 0 <= k < |s| ==> !IsLineTerminator(s[k])
    ensures '\n' !in s
  {
  }

  /** `key""` on its own: the empty title. */
  lemma EmptyQuotedValue(key: string)
    requires '"' !in key
    requires forall k :: 0 <= k < |key| ==> !IsLineTerminator(key[k])
    ensures LineTitle(key + "\"\"") == "" && '\n' !in key + "\"\""
  {
    QuotedValue(key, "");
    assert key + "\"" + "" + "\"" == key + "\"\"";
    NoTerminatorNoBreak(key);
  }

  /** An empty pair of quotes is an empty title, not "No title". */
  lemma EmptyQuotesEmptyTitle(a: string, key: string, rest: string)
    requires '\n' !in a && (rest == [] || rest[0] == '\n')
    requires '"' !in key
    requires forall k :: 0 <= k < |key| ==> !IsLineTerminator(key[k])
    ensures Title(a + "\n" + key + "\"\"" + rest) == ""
  {
    var line := key + "\"\"";
    EmptyQuotedValue(key);
    assert a + "\n" + key + "\"\"" + rest == a + "\n" + line + rest;
    TitleOfSecondLine(a, line, rest);
  }
}
