/** Word segmentation (`splitWord` and `isEnChar` in src/impl.ts): a title is
    cut into maximal runs of Latin-class characters and single characters of
    any other kind. */
module Segmenter {
  import opened Base

  /** The regular expression `/[A-z]|_|\$|<|>/` tested on one UTF-16 unit.
      The range `[A-z]` runs from code 65 to code 122, so it also holds the six
      characters between `Z` and `a`; `_` is one of them. */
  predicate IsLatinUnit(u: int)
  {
    65 <= u <= 122 || u == 36 || u == 60 || u == 62
  }

  /** A character is Latin-class when it is one UTF-16 unit that the regular
      expression accepts; no character outside the Basic Multilingual Plane is. */
  predicate IsLatinChar(c: char)
  {
    IsLatinUnit(c as int)
  }

  /** The Latin class, listed character by character. */
  lemma LatinClassMembers(c: char)
    ensures IsLatinChar(c) <==>
      ('A' <= c <= 'Z') || ('a' <= c <= 'z') ||
      c == '[' || c == '\\' || c == ']' || c == '^' || c == '_' || c == '`' ||
      c == '$' || c == '<' || c == '>'
  {
  }

  /** `isEnChar`: throws unless its argument is exactly one UTF-16 unit. */
  function IsEnChar(s: seq<int>): (r: Result<bool>)
    ensures r.Err? ==> r.error == InvalidCharLength(s)
    ensures forall c: char {:trigger Utf16Char(c)} :: s == Utf16Char(c) ==>
      (r.Err? <==> c as int >= 0x1_0000) && (r.Ok? ==> (r.value <==> IsLatinChar(c)))
  {
    if |s| != 1 then Err(InvalidCharLength(s)) else Ok(IsLatinUnit(s[0]))
  }

  /** One turn of the `for..of` loop: `now` is added to the last word when
      the last word is still empty, or when the last unit of the last word and
      `now` are both Latin-class (`&&` short-circuits); otherwise it starts a
      new word. */
  function WordsStep(ret: seq<string>, now: char): (r: Result<seq<string>>)
    requires ret != []
    ensures r.Err? ==> r.error.InvalidCharLength?
    ensures r.Ok? ==> |ret| <= |r.value| <= |ret| + 1 && r.value[..|ret| - 1] == ret[..|ret| - 1]
    ensures r.Ok? ==> Concat(r.value) == Concat(ret) + [now]
  {
    ConcatAppend(ret, [now]);
    ConcatExtendLast(ret, [now]);
    var last := ret[|ret| - 1];
    var prev := SliceLast(Utf16(last));
    if prev == [] then Ok(ret[..|ret| - 1] + [last + [now]])
    else
      match IsEnChar(prev)
      case Err(e) => Err(e)
      case Ok(prevEn) =>
        if !prevEn then Ok(ret + [[now]])
        else
          match IsEnChar(Utf16Char(now))
          case Err(e) => Err(e)
          case Ok(nowEn) =>
            if nowEn then Ok(ret[..|ret| - 1] + [last + [now]]) else Ok(ret + [[now]])
  }

  /** What `splitWord(text)` returns or throws: the loop run over every
      character of `text`, starting from `[""]`. */
  function Words(text: string): (r: Result<seq<string>>)
    ensures r.Ok? ==> r.value != []
  {
    if text == [] then Ok([""])
    else
      match Words(text[..|text| - 1])
      case Err(e) => Err(e)
      case Ok(ret) => WordsStep(ret, text[|text| - 1])
  }

  /** What `slice(-1)` of a non-empty word hands to `isEnChar`: one unit,
      Latin-class exactly when the word's last character is. */
  lemma PrevUnit(last: string)
    requires last != []
    ensures var prev := SliceLast(Utf16(last));
      |prev| == 1 && (IsLatinUnit(prev[0]) <==> IsLatinChar(last[|last| - 1]))
  {
    SliceLastUtf16(last);
    var c := last[|last| - 1];
    var u := Utf16Char(c);
    assert SliceLast(u) == [u[|u| - 1]];
    if |u| == 1 {
      assert u[0] == c as int;
    } else {
      assert 0xDC00 <= u[1] && c as int >= 0x1_0000;
    }
  }

  /** `isEnChar(prev)` with `prev` the `slice(-1)` of a non-empty word never
      throws, and answers for the word's last character. */
  lemma PrevEnChar(last: string)
    requires last != []
    ensures IsEnChar(SliceLast(Utf16(last))) == Ok(IsLatinChar(last[|last| - 1]))
  {
    PrevUnit(last);
  }

  /** What `isEnChar(now)` does with a whole character: it throws on a
      character outside the Basic Multilingual Plane and otherwise tests it. */
  lemma NowUnit(now: char)
    ensures IsEnChar(Utf16Char(now)).Err? <==> now as int >= 0x1_0000
    ensures IsEnChar(Utf16Char(now)).Ok? ==> (IsEnChar(Utf16Char(now)).value <==> IsLatinChar(now))
  {
  }

  /** The three outcomes of one loop turn, in terms of characters rather than
      UTF-16 units: the first character always goes into the initial empty
      word; after that the turn throws exactly when a Latin-class last
      character meets a character outside the Basic Multilingual Plane, and
      otherwise joins two Latin-class characters and separates all others. */
  lemma WordsStepCases(ret: seq<string>, now: char)
    requires ret != []
    ensures var last := ret[|ret| - 1];
      (last == [] ==> WordsStep(ret, now) == Ok(ret[..|ret| - 1] + [[now]])) &&
      (last != [] ==>
         (WordsStep(ret, now).Err? <==>
            IsLatinChar(last[|last| - 1]) && now as int >= 0x1_0000) &&
         (WordsStep(ret, now).Ok? ==>
            WordsStep(ret, now).value ==
              if IsLatinChar(last[|last| - 1]) && IsLatinChar(now)
              then ret[..|ret| - 1] + [last + [now]]
              else ret + [[now]]))
  {
    var last := ret[|ret| - 1];
    if last == [] {
      assert Utf16(last) == [];
      assert last + [now] == [now];
    } else {
      PrevUnit(last);
      NowUnit(now);
    }
  }

  predicate AllLatin(w: string)
  {
    forall i :: 0 <= i < |w| ==> IsLatinChar(w[i])
  }

  /** `ws` cuts `text` into words: in order and with nothing lost, every word
      non-empty and either one character or a run of Latin-class characters,
      and no two neighbouring words that could have been one run. */
  predicate IsSegmentation(text: string, ws: seq<string>)
  {
    Concat(ws) == text &&
    (forall k :: 0 <= k < |ws| ==> ws[k] != [] && (|ws[k]| == 1 || AllLatin(ws[k]))) &&
    (forall k :: 0 < k < |ws| ==> Separated(ws, k))
  }

  /** Words `k - 1` and `k` do not meet at two Latin-class characters. */
  predicate Separated(ws: seq<string>, k: int)
    requires 0 < k < |ws|
  {
    ws[k - 1] != [] && ws[k] != [] &&
    !(IsLatinChar(ws[k - 1][|ws[k - 1]| - 1]) && IsLatinChar(ws[k][0]))
  }

  /** The input on which `isEnChar` throws: a Latin-class character followed by
      a character outside the Basic Multilingual Plane. `for..of` hands the
      latter over whole, and it is two UTF-16 units long. */
  predicate LatinBeforeAstral(text: string)
  {
    exists i :: 0 < i < |text| && IsLatinChar(text[i - 1]) && text[i] as int >= 0x1_0000
  }

  /** The words of a non-empty segmentation end with the text's last character. */
  lemma SegmentationLast(text: string, ws: seq<string>)
    requires IsSegmentation(text, ws) && text != []
    ensures ws != [] && text[|text| - 1] == ws[|ws| - 1][|ws[|ws| - 1]| - 1]
  {
    assert ws != [] by {
      assert Concat([]) == "";
    }
    assert text == Concat(ws[..|ws| - 1]) + ws[|ws| - 1];
  }

  /** Dropping the last word of a segmentation leaves a segmentation of the
      rest of the text. */
  lemma SegmentationPrefix(text: string, ws: seq<string>)
    requires IsSegmentation(text, ws) && ws != []
    ensures IsSegmentation(Concat(ws[..|ws| - 1]), ws[..|ws| - 1])
  {
    var ws' := ws[..|ws| - 1];
    forall k | 0 < k < |ws'|
      ensures Separated(ws', k)
    {
      assert Separated(ws, k);
    }
  }

  /** A segmentation extended by a word that is one character, or that does
      not continue a Latin-class run, is a segmentation of the longer text. */
  lemma SegmentationPush(text: string, ws: seq<string>, c: char)
    requires IsSegmentation(text, ws) && ws != []
    requires var last := ws[|ws| - 1]; !(IsLatinChar(last[|last| - 1]) && IsLatinChar(c))
    ensures IsSegmentation(text + [c], ws + [[c]])
  {
    var ws' := ws + [[c]];
    ConcatAppend(ws, [c]);
    forall k | 0 < k < |ws'|
      ensures Separated(ws', k)
    {
      if k < |ws| {
        assert Separated(ws, k);
      }
    }
  }

  /** A Latin-class character appended to a word that ends in one keeps a segmentation. */
  lemma SegmentationExtend(text: string, ws: seq<string>, c: char)
    requires IsSegmentation(text, ws) && ws != []
    requires var last := ws[|ws| - 1]; IsLatinChar(last[|last| - 1]) && IsLatinChar(c)
    ensures var n := |ws|; IsSegmentation(text + [c], ws[..n - 1] + [ws[n - 1] + [c]])
  {
    var n := |ws|;
    var last := ws[n - 1];
    var ws' := ws[..n - 1] + [last + [c]];
    ConcatExtendLast(ws, [c]);
    assert AllLatin(last + [c]) by {
      assert |last| == 1 || AllLatin(last);
    }
    forall k | 0 < k < |ws'|
      ensures Separated(ws', k)
    {
      assert Separated(ws, k);
      assert ws'[k][0] == ws[k][0];
    }
  }

  /** One loop turn on the words of `t` gives words of `t + [c]`: `[c]` after
      the initial `[""]`, and a segmentation after a segmentation. */
  lemma ShapeStep(t: string, ret: seq<string>, c: char)
    requires ret != [] && (t == [] ==> ret == [""]) && (t != [] ==> IsSegmentation(t, ret))
    ensures WordsStep(ret, c).Ok? ==> IsSegmentation(t + [c], WordsStep(ret, c).value)
  {
    WordsStepCases(ret, c);
    if t == [] {
      assert WordsStep(ret, c) == Ok([[c]]);
      assert t + [c] == [c];
      assert Concat([[c]]) == Concat([]) + [c];
      return;
    }
    SegmentationLast(t, ret);
    if WordsStep(ret, c).Ok? {
      var last := ret[|ret| - 1];
      if IsLatinChar(last[|last| - 1]) && IsLatinChar(c) {
        assert WordsStep(ret, c).value == ret[..|ret| - 1] + [last + [c]];
        SegmentationExtend(t, ret, c);
      } else {
        assert WordsStep(ret, c).value == ret + [[c]];
        SegmentationPush(t, ret, c);
      }
    }
  }

  /** One loop turn on the words of `t` throws exactly at a Latin-class last
      character of `t` followed by an astral `c`, and then with `InvalidCharLength`. */
  lemma FailStep(t: string, ret: seq<string>, c: char)
    requires ret != [] && (t == [] ==> ret == [""]) && (t != [] ==> IsSegmentation(t, ret))
    ensures WordsStep(ret, c).Err? <==> t != [] && IsLatinChar(t[|t| - 1]) && c as int >= 0x1_0000
    ensures WordsStep(ret, c).Err? ==> WordsStep(ret, c).error.InvalidCharLength?
  {
    WordsStepCases(ret, c);
    if t != [] {
      SegmentationLast(t, ret);
    }
  }

  /** `splitWord` reproduces its input: `[""]` for the empty title, otherwise
      a segmentation of it. */
  lemma {:induction false} WordsShape(text: string)
    ensures Words(text).Ok? ==>
      var ws := Words(text).value;
      Concat(ws) == text &&
      (text == [] ==> ws == [""]) &&
      (text != [] ==> IsSegmentation(text, ws))
  {
    if text == [] {
      return;
    }
    var t, c := text[..|text| - 1], text[|text| - 1];
    assert text == t + [c];
    WordsShape(t);
    if Words(t).Err? {
      return;
    }
    var ret := Words(t).value;
    assert Words(text) == WordsStep(ret, c);
    ShapeStep(t, ret, c);
  }

  /** The offending pair lies either inside `t` or at its junction with `c`. */
  lemma LatinBeforeAstralSnoc(t: string, c: char)
    ensures LatinBeforeAstral(t + [c]) <==>
      LatinBeforeAstral(t) || (t != [] && IsLatinChar(t[|t| - 1]) && c as int >= 0x1_0000)
  {
    var text := t + [c];
    if LatinBeforeAstral(text) {
      var i :| 0 < i < |text| && IsLatinChar(text[i - 1]) && text[i] as int >= 0x1_0000;
      if i < |t| {
        assert t[i - 1] == text[i - 1] && t[i] == text[i];
      }
    }
    if LatinBeforeAstral(t) {
      var i :| 0 < i < |t| && IsLatinChar(t[i - 1]) && t[i] as int >= 0x1_0000;
      assert text[i - 1] == t[i - 1] && text[i] == t[i];
    }
    if t != [] && IsLatinChar(t[|t| - 1]) && c as int >= 0x1_0000 {
      assert text[|t| - 1] == t[|t| - 1] && text[|t|] == c;
    }
  }

  /** `splitWord` throws exactly on a Latin-class character followed by a
      character outside the Basic Multilingual Plane. */
  lemma {:induction false} WordsFailsIff(text: string)
    ensures Words(text).Err? <==> LatinBeforeAstral(text)
    ensures Words(text).Err? ==> Words(text).error.InvalidCharLength?
  {
    if text == [] {
      return;
    }
    var t, c := text[..|text| - 1], text[|text| - 1];
    assert text == t + [c];
    WordsFailsIff(t);
    LatinBeforeAstralSnoc(t, c);
    if Words(t).Err? {
      return;
    }
    var ret := Words(t).value;
    assert Words(text) == WordsStep(ret, c);
    WordsShape(t);
    FailStep(t, ret, c);
  }

  /** Once `splitWord` has thrown on a prefix, the rest of the input does not
      matter: the same exception escapes. */
  lemma {:induction false} WordsErrPersists(text: string, k: nat)
    requires k <= |text| && Words(text[..k]).Err?
    ensures Words(text) == Words(text[..k])
    decreases |text|
  {
    if k < |text| {
      var t := text[..|text| - 1];
      assert t[..k] == text[..k];
      WordsErrPersists(t, k);
    } else {
      assert text[..k] == text;
    }
  }

  /** When a segmentation's last word is shorter than a Latin-class suffix of
      the text, its last two words meet at two Latin-class characters. */
  lemma ShortLastWordJoins(text: string, x: string, b: seq<string>)
    requires Concat(b) == text && b != []
    requires forall k :: 0 <= k < |b| ==> b[k] != []
    requires AllLatin(x) && |x| <= |text| && text[|text| - |x|..] == x
    requires |b[|b| - 1]| < |x|
    ensures 1 < |b| && !Separated(b, |b| - 1)
  {
    var y := b[|b| - 1];
    assert text == Concat(b[..|b| - 1]) + y;
    var n := |text| - |y|;
    assert text[n] == y[0] && text[n] == x[|x| - |y|];
    assert text[n - 1] == x[|x| - |y| - 1];
    var b' := b[..|b| - 1];
    assert |Concat(b')| > 0;
    var z := b'[|b'| - 1];
    assert Concat(b') == Concat(b'[..|b'| - 1]) + z;
    assert text[n - 1] == z[|z| - 1];
  }

  /** Two segmentations of one text cannot end in last words of different
      lengths: the shorter one would continue the Latin-class run of the longer. */
  lemma SegmentationLastLength(text: string, a: seq<string>, b: seq<string>)
    requires IsSegmentation(text, a) && IsSegmentation(text, b) && a != [] && b != []
    ensures |a[|a| - 1]| <= |b[|b| - 1]|
  {
    var x := a[|a| - 1];
    assert text == Concat(a[..|a| - 1]) + x;
    if |x| > |b[|b| - 1]| {
      assert AllLatin(x);
      ShortLastWordJoins(text, x, b);
      assert false;
    }
  }

  /** There is only one way to cut a text into words: `IsSegmentation`
      determines the words completely. */
  lemma {:induction false} SegmentationUnique(text: string, a: seq<string>, b: seq<string>)
    requires IsSegmentation(text, a) && IsSegmentation(text, b)
    ensures a == b
    decreases |text|
  {
    if a == [] || b == [] {
      if a != [] {
        SegmentationLast(text, a);
      }
      if b != [] {
        SegmentationLast(text, b);
      }
      return;
    }
    SegmentationLastLength(text, a, b);
    SegmentationLastLength(text, b, a);
    var a', b' := a[..|a| - 1], b[..|b| - 1];
    assert text == Concat(a') + a[|a| - 1];
    assert text == Concat(b') + b[|b| - 1];
    var t' := Concat(a');
    assert t' == text[..|t'|] == Concat(b');
    SegmentationPrefix(text, a);
    SegmentationPrefix(text, b);
    SegmentationUnique(t', a', b');
    assert a == a' + [a[|a| - 1]];
    assert b == b' + [b[|b| - 1]];
  }

  /** One more turn of the loop extends the words of a prefix. */
  lemma WordsPrefixStep(text: string, i: nat, ret: seq<string>)
    requires i < |text| && Words(text[..i]) == Ok(ret)
    ensures Words(text[..i + 1]) == WordsStep(ret, text[i])
  {
    assert text[..i + 1][..i] == text[..i];
  }

  /** `splitWord`: the loop of src/impl.ts, building `ret` by appending to its
      last word or pushing a new one. */
  method SplitWord(text: string) returns (r: Result<seq<string>>)
    ensures r == Words(text)
    ensures r.Err? <==> LatinBeforeAstral(text)
    ensures r.Ok? && text == [] ==> r.value == [""]
    ensures r.Ok? && text != [] ==> IsSegmentation(text, r.value)
  {
    var ret := [""];
    for i := 0 to |text|
      invariant Words(text[..i]) == Ok(ret)
      invariant ret != []
    {
      var now := text[i];
      WordsPrefixStep(text, i, ret);
      var last := ret[|ret| - 1];
      var prev := SliceLast(Utf16(last));
      if prev == [] {
        assert WordsStep(ret, now) == Ok(ret[..|ret| - 1] + [last + [now]]);
        ret := ret[..|ret| - 1] + [last + [now]];
        continue;
      }
      // `prev` is one unit long, so this call never throws.
      PrevEnChar(last);
      var prevEn := IsEnChar(prev);
      if prevEn.Err? {
        assert false;
      }
      if prevEn.value {
        NowUnit(now);
        var nowEn := IsEnChar(Utf16Char(now));
        if nowEn.Err? {
          WordsErrPersists(text, i + 1);
          WordsFailsIff(text);
          return Err(nowEn.error);
        }
        if nowEn.value {
          assert WordsStep(ret, now) == Ok(ret[..|ret| - 1] + [last + [now]]);
          ret := ret[..|ret| - 1] + [last + [now]];
          continue;
        }
      }
      assert WordsStep(ret, now) == Ok(ret + [[now]]);
      ret := ret + [[now]];
    }
    assert text[..|text|] == text;
    WordsShape(text);
    WordsFailsIff(text);
    r := Ok(ret);
  }
}
