/** Worked scenarios for the segmenter and the wrapper, built from small
    facts about one loop turn at a time. */
module Scenarios {
  import opened Base
  import opened Segmenter
  import opened LineWrapper

  /** No Latin-class character lies outside the Basic Multilingual Plane. */
  lemma LatinIsBmp(c: char)
    requires IsLatinChar(c)
    ensures c as int < 0x1_0000
  {
  }

  lemma ConcatSingle(w: string)
    ensures Concat([w]) == w
  {
    assert [w][..0] == [];
  }

  /** When a text cannot make `splitWord` throw, its words are the one
      segmentation of it. */
  lemma WordsAreTheSegmentation(text: string, ws: seq<string>)
    requires text != [] && IsSegmentation(text, ws) && !LatinBeforeAstral(text)
    ensures Words(text) == Ok(ws)
  {
    WordsFailsIff(text);
    WordsShape(text);
    SegmentationUnique(text, Words(text).value, ws);
  }

  /** A non-empty run of Latin-class characters is one word. */
  lemma LatinRunIsOneWord(text: string)
    requires text != [] && AllLatin(text)
    ensures Words(text) == Ok([text])
  {
    assert !LatinBeforeAstral(text) by {
      forall i | 0 < i < |text|
        ensures text[i] as int < 0x1_0000
      {
        LatinIsBmp(text[i]);
      }
    }
    ConcatSingle(text);
    assert IsSegmentation(text, [text]);
    WordsAreTheSegmentation(text, [text]);
  }

  /** The characters of `text`, each as a word of its own. */
  function Singles(text: string): seq<string>
  {
    seq(|text|, k requires 0 <= k < |text| => [text[k]])
  }

  lemma {:induction false} ConcatSingles(text: string)
    ensures Concat(Singles(text)) == text
  {
    if text != [] {
      var t := text[..|text| - 1];
      ConcatSingles(t);
      assert Singles(text)[..|text| - 1] == Singles(t);
      assert t + [text[|text| - 1]] == text;
    }
  }

  /** A non-empty text with no Latin-class character is one word per character. */
  lemma NoLatinSingles(text: string)
    requires text != [] && forall k :: 0 <= k < |text| ==> !IsLatinChar(text[k])
    ensures Words(text) == Ok(Singles(text))
  {
    SinglesSegmentation(text);
    WordsAreTheSegmentation(text, Singles(text));
  }

  /** Without Latin-class characters, the single characters segment the text. */
  lemma SinglesSegmentation(text: string)
    requires forall k :: 0 <= k < |text| ==> !IsLatinChar(text[k])
    ensures IsSegmentation(text, Singles(text)) && !LatinBeforeAstral(text)
  {
    var ws := Singles(text);
    ConcatSingles(text);
    forall k | 0 < k < |ws|
      ensures Separated(ws, k)
    {
      assert ws[k - 1] == [text[k - 1]];
    }
  }

  /** `_`, `<` and `>` belong to the Latin class, so `a_b<c>` is one word. */
  lemma UnderscoreJoins()
    ensures Words("a_b<c>") == Ok(["a_b<c>"])
  {
    LatinRunIsOneWord("a_b<c>");
  }

  /** The wrapping of `words + [w]` is one loop turn on that of `words`. */
  lemma WrapSnoc(m: Metrics, maxWidth: real, words: seq<string>, w: string)
    ensures Wrap(m, maxWidth, words + [w]) == WrapStep(m, maxWidth, Wrap(m, maxWidth, words), w)
  {
    assert (words + [w])[..|words|] == words;
  }

  /** Glyphs 56 pixels wide apiece. */
  function Monospace(): Metrics
  {
    Metrics(s => 56.0 * |s| as real, s => 40.0, s => 16.0)
  }

  /** Two such glyphs fit in 112 pixels, three do not. */
  lemma MonospaceFits(line: string)
    ensures Fits(Monospace(), 112.0, line) <==> |line| <= 2
  {
  }

  /** A word that still fits next to the last line's glyphs joins that line. */
  lemma MonoJoin(ret: seq<string>, now: string)
    requires ret != [] && |ret[|ret| - 1]| + |now| <= 2
    ensures WrapStep(Monospace(), 112.0, ret, now) == ret[..|ret| - 1] + [ret[|ret| - 1] + now]
  {
    MonospaceFits(ret[|ret| - 1] + now);
  }

  /** A word that would make the last line three glyphs wide opens a new line. */
  lemma MonoPush(ret: seq<string>, now: string)
    requires ret != [] && |ret[|ret| - 1]| + |now| > 2
    ensures WrapStep(Monospace(), 112.0, ret, now) == ret + [now]
  {
    MonospaceFits(ret[|ret| - 1] + now);
  }

  /** Wrapping `words + [now]` when `now` still fits on the last line. */
  lemma MonoSnocJoin(words: seq<string>, now: string)
    requires var ls := Wrap(Monospace(), 112.0, words); |ls[|ls| - 1]| + |now| <= 2
    ensures var ls := Wrap(Monospace(), 112.0, words);
      Wrap(Monospace(), 112.0, words + [now]) == ls[..|ls| - 1] + [ls[|ls| - 1] + now]
  {
    WrapSnoc(Monospace(), 112.0, words, now);
    MonoJoin(Wrap(Monospace(), 112.0, words), now);
  }

  /** Wrapping `words + [now]` when `now` does not fit on the last line. */
  lemma MonoSnocPush(words: seq<string>, now: string)
    requires var ls := Wrap(Monospace(), 112.0, words); |ls[|ls| - 1]| + |now| > 2
    ensures Wrap(Monospace(), 112.0, words + [now]) == Wrap(Monospace(), 112.0, words) + [now]
  {
    WrapSnoc(Monospace(), 112.0, words, now);
    MonoPush(Wrap(Monospace(), 112.0, words), now);
  }

  /** The first one-glyph word opens the first line. */
  lemma OneGlyph(a: string)
    requires |a| == 1
    ensures Wrap(Monospace(), 112.0, [a]) == [a]
  {
    MonoSnocJoin([], a);
    assert [] + [a] == [a] && "" + a == a;
  }

  /** The second one-glyph word joins it. */
  lemma TwoGlyphs(a: string, b: string)
    requires |a| == 1 && |b| == 1
    ensures Wrap(Monospace(), 112.0, [a, b]) == [a + b]
  {
    OneGlyph(a);
    MonoSnocJoin([a], b);
    assert [a] + [b] == [a, b];
  }

  /** The third one-glyph word opens the second line. */
  lemma ThreeGlyphs(a: string, b: string, c: string)
    requires |a| == 1 && |b| == 1 && |c| == 1
    ensures Wrap(Monospace(), 112.0, [a, b, c]) == [a + b, c]
  {
    TwoGlyphs(a, b);
    MonoSnocPush([a, b], c);
    assert [a, b] + [c] == [a, b, c];
  }

  /** With room for two such glyphs per line, four one-character words
      make two lines of two. */
  lemma TwoPerLine(a: string, b: string, c: string, d: string)
    requires |a| == 1 && |b| == 1 && |c| == 1 && |d| == 1
    ensures Wrap(Monospace(), 112.0, [a, b, c, d]) == [a + b, c + d]
  {
    ThreeGlyphs(a, b, c);
    MonoSnocJoin([a, b, c], d);
    assert [a, b, c] + [d] == [a, b, c, d];
  }

  /** A title of four characters, none of them Latin-class, is cut into its
      four characters. */
  lemma FourSingles(a: char, b: char, c: char, d: char)
    requires !IsLatinChar(a) && !IsLatinChar(b) && !IsLatinChar(c) && !IsLatinChar(d)
    ensures Words([a, b, c, d]) == Ok([[a], [b], [c], [d]])
  {
    var text := [a, b, c, d];
    assert forall k :: 0 <= k < |text| ==> text[k] == a || text[k] == b || text[k] == c || text[k] == d;
    NoLatinSingles(text);
    SinglesOfFour(a, b, c, d);
  }

  /** The four characters, each as a word of its own. */
  lemma SinglesOfFour(a: char, b: char, c: char, d: char)
    ensures Singles([a, b, c, d]) == [[a], [b], [c], [d]]
  {
    var ws := Singles([a, b, c, d]);
    assert ws[0] == [a] && ws[1] == [b] && ws[2] == [c] && ws[3] == [d];
  }

  /** With 56 px glyphs and 112 px of width, a title of four characters, none
      of them Latin-class, makes two lines of two. */
  lemma FourSinglesTwoPerLine(a: char, b: char, c: char, d: char)
    requires !IsLatinChar(a) && !IsLatinChar(b) && !IsLatinChar(c) && !IsLatinChar(d)
    ensures Lines(Monospace(), 112.0, [a, b, c, d]) == Ok([[a, b], [c, d]])
  {
    FourSingles(a, b, c, d);
    TwoPerLine([a], [b], [c], [d]);
    assert [a] + [b] == [a, b] && [c] + [d] == [c, d];
  }

  /** The same for a four-character title of ideographs, from the title
      itself through `splitLine`. */
  lemma IdeographPairs()
    ensures Wrap(Monospace(), 112.0, ["橙", "と", "林", "檎"]) == ["橙と", "林檎"]
    ensures Lines(Monospace(), 112.0, "橙と林檎") == Ok(["橙と", "林檎"])
  {
    FourSinglesTwoPerLine('橙', 'と', '林', '檎');
    TwoPerLine("橙", "と", "林", "檎");
    assert "橙" + "と" == "橙と";
    assert "林" + "檎" == "林檎";
  }

  /** A run of Latin-class characters that fits the width is a line of its own. */
  lemma LatinRunIsOneLine(m: Metrics, maxWidth: real, text: string)
    requires text != [] && AllLatin(text) && Fits(m, maxWidth, text)
    ensures Lines(m, maxWidth, text) == Ok([text])
  {
    LatinRunIsOneWord(text);
    WrapSnoc(m, maxWidth, [], text);
    assert [] + [text] == [text];
    assert "" + text == text;
  }
}
