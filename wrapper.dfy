/** Greedy line wrapping (`splitLine` in src/impl.ts): whole words are packed
    into lines, and a word starts a new line only when adding it to the
    current line would make that line wider than `maxWidth`. */
module LineWrapper {
  import opened Base
  import opened Segmenter

  /** The line measures no wider than `maxWidth`. */
  predicate Fits(m: Metrics, maxWidth: real, line: string)
  {
    TextSize(m, line).width <= maxWidth
  }

  /** One turn of the wrapping loop: `now` goes onto the last line if the
      result still fits, and becomes a line of its own otherwise. */
  function WrapStep(m: Metrics, maxWidth: real, ret: seq<string>, now: string): (lines: seq<string>)
    requires ret != []
    ensures |ret| <= |lines| <= |ret| + 1
    ensures lines[..|ret| - 1] == ret[..|ret| - 1]
    ensures Concat(lines) == Concat(ret) + now
  {
    var next := ret[|ret| - 1] + now;
    ConcatAppend(ret, now);
    ConcatExtendLast(ret, now);
    if !Fits(m, maxWidth, next) then ret + [now] else ret[..|ret| - 1] + [next]
  }

  /** The lines the wrapping loop builds from `words`, starting from `[""]`. */
  function Wrap(m: Metrics, maxWidth: real, words: seq<string>): (lines: seq<string>)
    ensures lines != []
  {
    if words == [] then [""]
    else WrapStep(m, maxWidth, Wrap(m, maxWidth, words[..|words| - 1]), words[|words| - 1])
  }

  /** The words that make up each line of `Wrap`, in the same loop. */
  ghost function Grouping(m: Metrics, maxWidth: real, words: seq<string>): (gs: seq<seq<string>>)
    ensures gs != []
  {
    if words == [] then [[]]
    else
      var gs := Grouping(m, maxWidth, words[..|words| - 1]);
      var now := words[|words| - 1];
      if !Fits(m, maxWidth, Concat(gs[|gs| - 1]) + now) then gs + [[now]]
      else gs[..|gs| - 1] + [gs[|gs| - 1] + [now]]
  }

  /** The words of all groups, in order. */
  function Flatten(gs: seq<seq<string>>): seq<string>
  {
    if gs == [] then [] else Flatten(gs[..|gs| - 1]) + gs[|gs| - 1]
  }

  lemma FlattenAppend(gs: seq<seq<string>>, g: seq<string>)
    ensures Flatten(gs + [g]) == Flatten(gs) + g
  {
    assert (gs + [g])[..|gs|] == gs;
  }

  /** The first `j + 1` words of group `g` fit on one line. */
  predicate PrefixFits(m: Metrics, maxWidth: real, g: seq<string>, j: int)
    requires 0 <= j < |g|
  {
    Fits(m, maxWidth, Concat(g[..j + 1]))
  }

  /** Every word added to line `g` at the else-branch left the line fitting:
      every word of the first line, every word but the first of the others. */
  predicate GroupFits(m: Metrics, maxWidth: real, g: seq<string>, first: bool)
  {
    forall j :: 0 <= j < |g| && (first || 1 <= j) ==> PrefixFits(m, maxWidth, g, j)
  }

  /** Line `k` obeys the greedy rule: its words were added while they fit,
      and, unless it is the first line, it is non-empty and was started
      because its first word did not fit on the line before it. */
  predicate GroupOk(m: Metrics, maxWidth: real, gs: seq<seq<string>>, k: int)
    requires 0 <= k < |gs|
  {
    GroupFits(m, maxWidth, gs[k], k == 0) &&
    (k > 0 ==> gs[k] != [] && !Fits(m, maxWidth, Concat(gs[k - 1]) + gs[k][0]))
  }

  /** The greedy rule, stated on how the words are grouped into lines: the
      groups hold the words in order, and every line obeys the rule. The
      first line may be empty: it is the initial `""`. */
  ghost predicate IsGreedyGrouping(m: Metrics, maxWidth: real, words: seq<string>, gs: seq<seq<string>>)
  {
    gs != [] && Flatten(gs) == words &&
    forall k :: 0 <= k < |gs| ==> GroupOk(m, maxWidth, gs, k)
  }

  /** Line `k` is the concatenation of group `k`, for every `k`. */
  predicate LinesOfGroups(lines: seq<string>, gs: seq<seq<string>>)
  {
    |lines| == |gs| && forall k :: 0 <= k < |gs| ==> lines[k] == Concat(gs[k])
  }

  lemma LinesOfGroupsPush(lines: seq<string>, gs: seq<seq<string>>, now: string)
    requires LinesOfGroups(lines, gs)
    ensures LinesOfGroups(lines + [now], gs + [[now]])
  {
    assert Concat([now]) == Concat([]) + now;
    forall k | 0 <= k < |gs|
      ensures (lines + [now])[k] == Concat((gs + [[now]])[k])
    {
      assert (lines + [now])[k] == lines[k] && (gs + [[now]])[k] == gs[k];
    }
  }

  lemma LinesOfGroupsExtend(lines: seq<string>, gs: seq<seq<string>>, now: string)
    requires LinesOfGroups(lines, gs) && gs != []
    ensures var n := |gs|;
      LinesOfGroups(lines[..n - 1] + [lines[n - 1] + now], gs[..n - 1] + [gs[n - 1] + [now]])
  {
    var n := |gs|;
    var lines2, gs2 := lines[..n - 1] + [lines[n - 1] + now], gs[..n - 1] + [gs[n - 1] + [now]];
    ConcatAppend(gs[n - 1], now);
    forall k | 0 <= k < n
      ensures lines2[k] == Concat(gs2[k])
    {
      if k < n - 1 {
        assert lines2[k] == lines[k] && gs2[k] == gs[k];
      }
    }
  }

  /** Each line of `Wrap` is the concatenation of its group of words. */
  lemma {:induction false} WrapGrouping(m: Metrics, maxWidth: real, words: seq<string>)
    ensures LinesOfGroups(Wrap(m, maxWidth, words), Grouping(m, maxWidth, words))
  {
    if words == [] {
      assert Concat([]) == "";
      return;
    }
    var w' := words[..|words| - 1];
    WrapGrouping(m, maxWidth, w');
    var lines', gs' := Wrap(m, maxWidth, w'), Grouping(m, maxWidth, w');
    var now := words[|words| - 1];
    var n := |gs'|;
    assert lines'[n - 1] == Concat(gs'[n - 1]);
    if Fits(m, maxWidth, Concat(gs'[n - 1]) + now) {
      LinesOfGroupsExtend(lines', gs', now);
    } else {
      LinesOfGroupsPush(lines', gs', now);
    }
  }

  /** A word that fits at the end of a line keeps the line's words fitting. */
  lemma GroupFitsExtend(m: Metrics, maxWidth: real, g: seq<string>, now: string, first: bool)
    requires GroupFits(m, maxWidth, g, first) && Fits(m, maxWidth, Concat(g) + now)
    requires first || g != []
    ensures GroupFits(m, maxWidth, g + [now], first)
  {
    var g2 := g + [now];
    forall j | 0 <= j < |g2| && (first || 1 <= j)
      ensures PrefixFits(m, maxWidth, g2, j)
    {
      if j < |g| {
        assert g2[..j + 1] == g[..j + 1];
        assert PrefixFits(m, maxWidth, g, j);
      } else {
        assert g2[..j + 1] == g2;
        ConcatAppend(g, now);
      }
    }
  }

  /** Taking the last word off a line keeps its words fitting; the word had
      fit at the end of the shorter line when it was added there. */
  lemma GroupFitsDropLast(m: Metrics, maxWidth: real, g: seq<string>, first: bool)
    requires GroupFits(m, maxWidth, g, first) && g != []
    ensures GroupFits(m, maxWidth, g[..|g| - 1], first)
    ensures first || |g| > 1 ==> Fits(m, maxWidth, Concat(g[..|g| - 1]) + g[|g| - 1])
  {
    var h := g[..|g| - 1];
    forall j | 0 <= j < |h| && (first || 1 <= j)
      ensures PrefixFits(m, maxWidth, h, j)
    {
      assert h[..j + 1] == g[..j + 1];
      assert PrefixFits(m, maxWidth, g, j);
    }
    if first || |g| > 1 {
      assert PrefixFits(m, maxWidth, g, |g| - 1);
      assert g[..|g|] == g;
      ConcatAppend(h, g[|g| - 1]);
      assert h + [g[|g| - 1]] == g;
    }
  }

  /** Starting a new line with `now` keeps the greedy rule when `now` does
      not fit on the last line. */
  lemma GreedyPush(m: Metrics, maxWidth: real, words: seq<string>, gs: seq<seq<string>>, now: string)
    requires IsGreedyGrouping(m, maxWidth, words, gs)
    requires !Fits(m, maxWidth, Concat(gs[|gs| - 1]) + now)
    ensures IsGreedyGrouping(m, maxWidth, words + [now], gs + [[now]])
  {
    var gs2 := gs + [[now]];
    var n := |gs|;
    FlattenAppend(gs, [now]);
    forall k | 0 <= k < |gs2|
      ensures GroupOk(m, maxWidth, gs2, k)
    {
      if k < n {
        assert GroupOk(m, maxWidth, gs, k);
        assert gs2[k] == gs[k];
        if k > 0 {
          assert gs2[k - 1] == gs[k - 1];
        }
      } else {
        assert gs2[k - 1] == gs[n - 1];
        assert GroupFits(m, maxWidth, [now], false);
      }
    }
  }

  /** Adding `now` to the last line keeps the greedy rule when the longer
      line fits. */
  lemma GreedyExtend(m: Metrics, maxWidth: real, words: seq<string>, gs: seq<seq<string>>, now: string)
    requires IsGreedyGrouping(m, maxWidth, words, gs)
    requires Fits(m, maxWidth, Concat(gs[|gs| - 1]) + now)
    ensures var n := |gs|; IsGreedyGrouping(m, maxWidth, words + [now], gs[..n - 1] + [gs[n - 1] + [now]])
  {
    var n := |gs|;
    var g := gs[n - 1];
    var gs2 := gs[..n - 1] + [g + [now]];
    FlattenAppend(gs[..n - 1], g);
    assert gs[..n - 1] + [g] == gs;
    FlattenAppend(gs[..n - 1], g + [now]);
    forall k | 0 <= k < |gs2|
      ensures GroupOk(m, maxWidth, gs2, k)
    {
      assert GroupOk(m, maxWidth, gs, k);
      if k > 0 {
        assert gs2[k - 1] == gs[k - 1];
      }
      if k < n - 1 {
        assert gs2[k] == gs[k];
      } else {
        GroupFitsExtend(m, maxWidth, g, now, k == 0);
        assert gs2[k] == g + [now];
      }
    }
  }

  /** `Grouping` follows the greedy rule. */
  lemma {:induction false} GroupingIsGreedy(m: Metrics, maxWidth: real, words: seq<string>)
    ensures IsGreedyGrouping(m, maxWidth, words, Grouping(m, maxWidth, words))
  {
    if words == [] {
      assert Flatten([[]]) == Flatten([]) + [];
      assert GroupOk(m, maxWidth, [[]], 0);
      return;
    }
    var w' := words[..|words| - 1];
    var now := words[|words| - 1];
    assert words == w' + [now];
    GroupingIsGreedy(m, maxWidth, w');
    var gs' := Grouping(m, maxWidth, w');
    if !Fits(m, maxWidth, Concat(gs'[|gs'| - 1]) + now) {
      GreedyPush(m, maxWidth, w', gs', now);
    } else {
      GreedyExtend(m, maxWidth, w', gs', now);
    }
  }

  /** Groups after the first are non-empty, so a grouping of no words is one
      empty group. */
  lemma FlattenEmpty(gs: seq<seq<string>>)
    requires gs != [] && Flatten(gs) == []
    requires forall k :: 0 < k < |gs| ==> gs[k] != []
    ensures gs == [[]]
  {
    var n := |gs|;
    assert Flatten(gs) == Flatten(gs[..n - 1]) + gs[n - 1];
    assert gs[n - 1] == [];
    assert n == 1;
    assert gs == [gs[0]];
  }

  /** A greedy grouping whose last line is the single word `now`, pushed as
      a line of its own, comes from a greedy grouping of the earlier words on
      whose last line `now` did not fit. */
  lemma GreedyUnpush(m: Metrics, maxWidth: real, words: seq<string>, now: string, gs: seq<seq<string>>)
    requires IsGreedyGrouping(m, maxWidth, words + [now], gs)
    requires |gs| > 1 && gs[|gs| - 1] == [now]
    ensures var gs' := gs[..|gs| - 1];
      IsGreedyGrouping(m, maxWidth, words, gs') &&
      gs == gs' + [[now]] && !Fits(m, maxWidth, Concat(gs'[|gs'| - 1]) + now)
  {
    var n := |gs|;
    var gs' := gs[..n - 1];
    assert gs == gs' + [[now]];
    assert Flatten(gs) == Flatten(gs') + [now];
    assert Flatten(gs') == (words + [now])[..|words|] == words;
    forall k | 0 <= k < |gs'|
      ensures GroupOk(m, maxWidth, gs', k)
    {
      assert GroupOk(m, maxWidth, gs, k);
      assert gs'[k] == gs[k];
      if k > 0 {
        assert gs'[k - 1] == gs[k - 1];
      }
    }
    assert GroupOk(m, maxWidth, gs, n - 1);
  }

  /** A greedy grouping whose last line holds more than the pushed word `now`
      (or is the first line) comes from a greedy grouping of the earlier words
      on whose last line `now` fit. */
  lemma GreedyUnextend(m: Metrics, maxWidth: real, words: seq<string>, now: string, gs: seq<seq<string>>)
    requires IsGreedyGrouping(m, maxWidth, words + [now], gs)
    requires var g := gs[|gs| - 1]; g != [] && g[|g| - 1] == now && (|gs| == 1 || |g| > 1)
    ensures var n, g := |gs|, gs[|gs| - 1];
      var gs' := gs[..n - 1] + [g[..|g| - 1]];
      IsGreedyGrouping(m, maxWidth, words, gs') &&
      gs == gs'[..n - 1] + [gs'[n - 1] + [now]] && Fits(m, maxWidth, Concat(gs'[n - 1]) + now)
  {
    var n, g := |gs|, gs[|gs| - 1];
    var h := g[..|g| - 1];
    var gs' := gs[..n - 1] + [h];
    assert g == h + [now];
    assert gs == gs'[..n - 1] + [h + [now]];
    assert Flatten(gs) == Flatten(gs[..n - 1]) + g;
    FlattenAppend(gs[..n - 1], h);
    assert Flatten(gs') + [now] == words + [now];
    assert Flatten(gs') == (words + [now])[..|words|] == words;
    assert GroupOk(m, maxWidth, gs, n - 1);
    GroupFitsDropLast(m, maxWidth, g, n == 1);
    forall k | 0 <= k < |gs'|
      ensures GroupOk(m, maxWidth, gs', k)
    {
      assert GroupOk(m, maxWidth, gs, k);
      if k > 0 {
        assert gs'[k - 1] == gs[k - 1];
      }
      if k < n - 1 {
        assert gs'[k] == gs[k];
      } else {
        assert gs'[k] == h;
        if k > 0 {
          assert h[0] == g[0];
        }
      }
    }
  }

  /** The greedy rule leaves no choice: a grouping that follows it is the one
      the wrapping loop builds. */
  lemma {:induction false} GreedyGroupingIsGrouping(m: Metrics, maxWidth: real, words: seq<string>, gs: seq<seq<string>>)
    requires IsGreedyGrouping(m, maxWidth, words, gs)
    ensures gs == Grouping(m, maxWidth, words)
    decreases |words|
  {
    if words == [] {
      forall k | 0 < k < |gs|
        ensures gs[k] != []
      {
        assert GroupOk(m, maxWidth, gs, k);
      }
      FlattenEmpty(gs);
      return;
    }
    var w' := words[..|words| - 1];
    var now := words[|words| - 1];
    assert words == w' + [now];
    var n := |gs|;
    var g := gs[n - 1];
    assert GroupOk(m, maxWidth, gs, n - 1);
    assert Flatten(gs) == Flatten(gs[..n - 1]) + g;
    assert g != [] by {
      if n == 1 {
        assert Flatten(gs[..0]) == [];
      }
    }
    assert g[|g| - 1] == now;
    if n > 1 && |g| == 1 {
      assert g == [now];
      GreedyUnpush(m, maxWidth, w', now, gs);
      GreedyGroupingIsGrouping(m, maxWidth, w', gs[..n - 1]);
    } else {
      GreedyUnextend(m, maxWidth, w', now, gs);
      GreedyGroupingIsGrouping(m, maxWidth, w', gs[..n - 1] + [g[..|g| - 1]]);
    }
  }

  /** Wrapping neither drops, adds nor reorders a character: the lines
      concatenate back to the words. */
  lemma {:induction false} WrapConcat(m: Metrics, maxWidth: real, words: seq<string>)
    ensures Concat(Wrap(m, maxWidth, words)) == Concat(words)
  {
    if words == [] {
      assert Concat([""]) == Concat([]) + "";
      return;
    }
    var w' := words[..|words| - 1];
    var now := words[|words| - 1];
    WrapConcat(m, maxWidth, w');
    ConcatAppend(w', now);
    assert words == w' + [now];
    var ret := Wrap(m, maxWidth, w');
    if Fits(m, maxWidth, ret[|ret| - 1] + now) {
      ConcatExtendLast(ret, now);
    } else {
      ConcatAppend(ret, now);
    }
  }

  /** The width bound: a line fits unless it is the initial empty line or a
      single word that was pushed as a line of its own. */
  lemma WrapWidthBound(m: Metrics, maxWidth: real, words: seq<string>, k: nat)
    requires k < |Grouping(m, maxWidth, words)|
    requires var g := Grouping(m, maxWidth, words)[k]; |g| >= 2 || (k == 0 && |g| == 1)
    ensures k < |Wrap(m, maxWidth, words)| && Fits(m, maxWidth, Wrap(m, maxWidth, words)[k])
  {
    var gs := Grouping(m, maxWidth, words);
    GroupingIsGreedy(m, maxWidth, words);
    WrapGrouping(m, maxWidth, words);
    assert GroupOk(m, maxWidth, gs, k);
    assert PrefixFits(m, maxWidth, gs[k], |gs[k]| - 1);
    assert gs[k][..|gs[k]|] == gs[k];
  }

  /** In a grouping whose lines after the first are non-empty, the first word
      opens the first line or, if that line is empty, the second. */
  lemma {:induction false} FirstWordPlacement(words: seq<string>, gs: seq<seq<string>>)
    requires words != [] && gs != [] && Flatten(gs) == words
    requires forall k :: 0 < k < |gs| ==> gs[k] != []
    ensures gs[0] == [] ==> 2 <= |gs| && gs[1] != [] && gs[1][0] == words[0]
    ensures gs[0] != [] ==> gs[0][0] == words[0]
    decreases |gs|
  {
    var n := |gs|;
    var gs' := gs[..n - 1];
    assert Flatten(gs) == Flatten(gs') + gs[n - 1];
    if n == 1 {
      assert Flatten(gs') == [];
      return;
    }
    if Flatten(gs') == [] {
      FlattenEmpty(gs');
      return;
    }
    FirstWordPlacement(Flatten(gs'), gs');
  }

  /** Where the first word goes in a greedy grouping. */
  lemma GreedyFirstWord(m: Metrics, maxWidth: real, words: seq<string>, gs: seq<seq<string>>)
    requires words != [] && IsGreedyGrouping(m, maxWidth, words, gs)
    ensures gs[0] == [] <==> !Fits(m, maxWidth, words[0])
    ensures gs[0] == [] ==> 2 <= |gs| && gs[1] != [] && gs[1][0] == words[0]
    ensures gs[0] != [] ==> gs[0][0] == words[0]
  {
    forall k | 0 < k < |gs|
      ensures gs[k] != []
    {
      assert GroupOk(m, maxWidth, gs, k);
    }
    FirstWordPlacement(words, gs);
    assert GroupOk(m, maxWidth, gs, 0);
    if gs[0] == [] {
      assert GroupOk(m, maxWidth, gs, 1);
      assert Concat(gs[0]) + words[0] == words[0];
    } else {
      assert PrefixFits(m, maxWidth, gs[0], 0);
      var one := gs[0][..1];
      assert one[..0] == [];
      assert Concat(one) == words[0];
    }
  }

  /** A first word too wide for a line leaves the first line empty and opens
      the second; otherwise the first word opens the first line. */
  lemma WrapLeadingEmpty(m: Metrics, maxWidth: real, words: seq<string>)
    requires words != []
    ensures var gs, lines := Grouping(m, maxWidth, words), Wrap(m, maxWidth, words);
      (gs[0] == [] <==> !Fits(m, maxWidth, words[0])) &&
      (gs[0] == [] ==> lines[0] == "" && 2 <= |gs| && gs[1] != [] && gs[1][0] == words[0]) &&
      (gs[0] != [] ==> gs[0][0] == words[0])
  {
    var gs := Grouping(m, maxWidth, words);
    GroupingIsGreedy(m, maxWidth, words);
    WrapGrouping(m, maxWidth, words);
    GreedyFirstWord(m, maxWidth, words, gs);
  }

  /** The wrapping loop of `splitLine`, over the words `splitWord` produced. */
  method WrapWords(m: Metrics, maxWidth: real, words: seq<string>) returns (lines: seq<string>)
    ensures lines == Wrap(m, maxWidth, words)
    ensures Concat(lines) == Concat(words)
  {
    WrapConcat(m, maxWidth, words);
    lines := [""];
    for i := 0 to |words|
      invariant lines == Wrap(m, maxWidth, words[..i])
    {
      assert words[..i + 1][..i] == words[..i];
      var now := words[i];
      var next := lines[|lines| - 1] + now;
      if TextSize(m, next).width > maxWidth {
        lines := lines + [now];
      } else {
        lines := lines[..|lines| - 1] + [next];
      }
    }
    assert words[..|words|] == words;
  }

  /** What `splitLine` returns or throws. */
  function Lines(m: Metrics, maxWidth: real, text: string): (r: Result<seq<string>>)
    ensures r.Err? <==> LatinBeforeAstral(text)
    ensures r.Err? ==> r.error.InvalidCharLength?
    ensures r.Ok? ==> r.value != [] && Concat(r.value) == text
  {
    WordsFailsIff(text);
    WordsShape(text);
    match Words(text)
    case Err(e) => Err(e)
    case Ok(words) =>
      WrapConcat(m, maxWidth, words);
      Ok(Wrap(m, maxWidth, words))
  }

  /** `splitLine`: segment the text, then wrap the words. */
  method SplitLine(m: Metrics, maxWidth: real, text: string) returns (r: Result<seq<string>>)
    ensures r == Lines(m, maxWidth, text)
    ensures r.Err? <==> LatinBeforeAstral(text)
    ensures r.Ok? ==> r.value != [] && Concat(r.value) == text
  {
    var words := SplitWord(text);
    if words.Err? {
      return Err(words.error);
    }
    WordsShape(text);
    var lines := WrapWords(m, maxWidth, words.value);
    r := Ok(lines);
  }
}
