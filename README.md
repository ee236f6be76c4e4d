# Text layout of ryota2357.com-images, in Dafny

This project models the text-layout engine that renders a blog post's title
onto its share image. It also models the small function that pulls that title
out of the post's Markdown front matter.

- **Segmentation** (`isEnChar`, `splitWord`): a title is cut into words. A word
  is a maximal run of Latin-class characters or a single character of any
  other kind. `isEnChar` throws when it is handed something that is not one
  UTF-16 unit.
- **Wrapping** (`splitLine`): the words are packed greedily into lines. Every
  line that a word was added to stays within the padded width; a word that
  does not fit opens a new line, however wide it is.
- **Placement** (`writeText`): the block of lines is refused when it is taller
  than the padded area. Otherwise every line is drawn at the same `x`, and the
  block is centred vertically, one line height between lines.
- **Title** (the lambda in `src/main.ts`): the second line of `index.md`,
  then the greedy `/"(.*)"/`, with `"No title"` as the fallback.

Modelling choices:

- **Text.** A string is `seq<char>`; each `char` is one of the code points that
  `for..of` walks. UTF-16 is modelled explicitly (`Base.Utf16`, `Base.SliceLast`)
  because `slice(-1)` cuts one UTF-16 unit and `isEnChar` checks its length.
  This is how the model finds the one input on which `splitWord` throws: a
  Latin-class character followed by a character outside the Basic Multilingual
  Plane.
- **Errors.** The two exceptions are values of `Base.Error`, and the
  operations return `Base.Result`.
- **Measurement.** `measureText` is a `Base.Metrics` value holding three
  arbitrary functions: advance width, ascent and descent. `Base.TextSize` is
  `textSize` (src/impl.ts:56-62). The general lemmas hold for every choice
  of metrics. The scenario lemmas fix theirs: `Scenarios.TwoPerLine` and
  `Scenarios.IdeographPairs` use a monospace font of 56 px glyphs, and
  `Layout.ThreeLinesFit` and `Layout.FiveLinesOverflow` fix the line height.
- **Pixels.** Pixel arithmetic is over `real`. The block height
  `lines.length * textHight` is written as repeated addition, `Layout.Span`.
  This keeps the arithmetic linear. `Layout.SpanIsProduct` and
  `Layout.OffsetIsProduct` prove that `Span` and `Offset` equal the products
  the source computes, and the main layout lemmas are stated with those
  products. `Layout.Overflows(n, h, area)` is the comparison
  `n * h > area`.
- **Imperative code.** `splitWord`, the wrapping loop and `writeText` are
  imperative in the source. Here they are methods: the loops are
  `Segmenter.SplitWord`, `LineWrapper.WrapWords` and `Layout.DrawLines`,
  which `LineWrapper.SplitLine` and `Layout.WriteText` call. Each method is
  proved equal to a function (`Words`, `Wrap`, `Lines`, `Placement`,
  `Layout`), and the properties are lemmas about those functions.
- **The canvas.** `Layout.Canvas` records the `fillText` calls it receives in
  the `drawn` field.

Where the code and the usual description of it differ, the model follows the
code:

- `splitWord("")` is `[""]`, not an empty list of words.
- The class `[A-z]` runs from code 65 to code 122. It therefore also holds
  `[`, `\`, `]`, `^`, `_` and the backquote.
- A first word too wide for the line does not become line 1. It leaves an
  empty first line `""`, which counts toward the block height, and opens
  line 2.

## Model

| member | source | states |
|---|---|---|
| `Base.Utf16Char` | src/impl.ts:82-83 | a character is one UTF-16 unit (its own code) below U+10000 and a surrogate pair above it |
| `Base.SliceLast` | src/impl.ts:83 | `slice(-1)` is empty on the empty string, and otherwise one unit that completes the rest back to the whole |
| `Base.SliceLastUtf16` | src/impl.ts:83 | the last UTF-16 unit of a non-empty string is the last unit of its last character |
| `Base.TextSize` | src/impl.ts:56-62 | no contract: the width is the advance and the height is ascent plus descent, for any metrics; it is used by `LineWrapper.Fits`, `LineWrapper.WrapWords` and `Layout.LineHeight` |
| `Segmenter.LatinClassMembers` | src/impl.ts:78 | the Latin class is exactly A-Z, a-z, `[ \ ] ^ _` backquote, `$`, `<` and `>` |
| `Segmenter.IsLatinUnit` | src/impl.ts:78 | no contract: the regular expression on one unit; `Segmenter.LatinClassMembers` lists the characters it accepts |
| `Segmenter.IsEnChar` | src/impl.ts:74-79 | on the units of any one character, `isEnChar` throws exactly when the character is outside the Basic Multilingual Plane and otherwise answers whether it is Latin-class; the error it throws is `InvalidCharLength` with the argument |
| `Segmenter.NowUnit` | src/impl.ts:74-79 | `isEnChar(now)` on a whole character throws exactly when the character is outside the Basic Multilingual Plane, and otherwise tests the Latin class |
| `Segmenter.PrevUnit` | src/impl.ts:83-84 | `slice(-1)` of a non-empty word is one unit, Latin-class exactly when the word's last character is |
| `Segmenter.PrevEnChar` | src/impl.ts:83-84 | so `isEnChar(prev)` never throws and answers for the word's last character |
| `Segmenter.WordsStep` | src/impl.ts:83-88 | one loop turn keeps every word but the last, adds at most one word, appends `now` to the concatenation, and throws only `InvalidCharLength` |
| `Segmenter.Words` | src/impl.ts:81-90 | `splitWord` never returns an empty list of words |
| `Segmenter.WordsStepCases` | src/impl.ts:82-88 | one loop turn: an empty last word takes `now`; two Latin-class characters join; a Latin-class character before an astral one throws; otherwise `now` starts a new word |
| `Segmenter.WordsShape` | src/impl.ts:81-90 | the words concatenate back to the title; `""` gives `[""]`; otherwise every word is non-empty, one character or all Latin-class, and neighbours never meet at two Latin-class characters |
| `Segmenter.WordsFailsIff` | src/impl.ts:74-84 | `splitWord` throws exactly when a Latin-class character is followed by an astral character, and the error is `InvalidCharLength` |
| `Segmenter.WordsErrPersists` | src/impl.ts:82-84 | once the loop has thrown on a prefix, the rest of the text does not change the outcome |
| `Segmenter.SegmentationUnique` | src/impl.ts:84-88 | the segmentation rules admit only one cutting of a text, so they determine `splitWord`'s words |
| `Segmenter.SplitWord` | src/impl.ts:73-91 | the loop computes `Words`; it throws exactly on a Latin-class-then-astral pair; otherwise it returns `[""]` or a segmentation |
| `LineWrapper.WrapStep` | src/impl.ts:95-100 | one loop turn keeps every line but the last, adds at most one line, and appends the word to the concatenation |
| `LineWrapper.Wrap` | src/impl.ts:93-102 | the wrapping loop never returns an empty list of lines |
| `LineWrapper.WrapGrouping` | src/impl.ts:93-101 | line k is the concatenation of the k-th group of whole words |
| `LineWrapper.GroupingIsGreedy` | src/impl.ts:93-101 | the groups hold all the words in order; every word added to a line left it fitting; every later line is non-empty and starts with a word that did not fit on the line before |
| `LineWrapper.GreedyGroupingIsGrouping` | src/impl.ts:93-101 | any grouping that obeys the greedy rule is the loop's own: the rule defines the wrapping |
| `LineWrapper.WrapConcat` | src/impl.ts:93-101 | the lines concatenate back to the words |
| `LineWrapper.WrapWidthBound` | src/impl.ts:95-99 | a line of two or more words, or a first line of one word, is no wider than `maxWidth` |
| `LineWrapper.WrapLeadingEmpty` | src/impl.ts:93-97 | the first line is empty exactly when the first word does not fit, and that word then opens line 2; otherwise it opens line 1 |
| `LineWrapper.WrapWords` | src/impl.ts:93-102 | the loop computes `Wrap`, and its lines concatenate back to the words |
| `LineWrapper.Lines` | src/impl.ts:64-103 | `splitLine` throws exactly on a Latin-class-then-astral pair, with `InvalidCharLength`; otherwise the list of lines is non-empty and the lines concatenate back to the text |
| `LineWrapper.SplitLine` | src/impl.ts:64-103 | `splitLine` computes `Lines`; it throws exactly on a Latin-class-then-astral pair; otherwise the list of lines is non-empty and the lines concatenate back to the text |
| `Layout.Canvas.FillText` | src/impl.ts:138 | `fillText` records one more draw call |
| `Layout.SpanIsProduct` | src/impl.ts:129 | the block height is `lines.length * textHight` |
| `Layout.SpanMonotone` | src/impl.ts:129 | for a non-negative line height, fewer lines take no more height |
| `Layout.OffsetIsProduct` | src/impl.ts:133 | the offset is `(textHight / 2) * (lines.length - 1)` |
| `Layout.Placement` | src/impl.ts:137-140 | no contract: line i at `x` and `y0 + i * h`; `Layout.PlacementSnoc`, `Layout.BlockLayoutDraws` and `Layout.BlockLayoutSpacing` state its properties |
| `Layout.BlockLayout` | src/impl.ts:118-135 | no contract: the overflow check and the placement, once the lines and the line height are known; the `Layout.BlockLayout*` lemmas state its properties |
| `Layout.Layout` | src/impl.ts:118-135 | no contract: `writeText` as a value; `Layout.LayoutFailsBlock`, `Layout.LayoutFailsIff`, `Layout.LayoutFailsOk` and `Layout.LayoutDrawsText` state its properties |
| `Layout.BlockLayoutFails` | src/impl.ts:128-132 | the block is refused with `NotEnoughArea` exactly when `lines.length * h` exceeds the padded height; equality fits |
| `Layout.BlockLayoutDraws` | src/impl.ts:126-139 | a block that fits draws every line once, in order, line i at `x = left + maxWidth / 2` and `y = top + area / 2 - (h / 2)(n - 1) + i * h` |
| `Layout.BlockLayoutCentredX` | src/impl.ts:118-126 | every line's `x` is as far from the left padding as from the right |
| `Layout.BlockLayoutSpacing` | src/impl.ts:137-140 | consecutive lines are exactly one line height apart |
| `Layout.BlockLayoutCentred` | src/impl.ts:128-134 | the first and last lines are symmetric about the centre of the padded area, and a single line sits on it |
| `Layout.BlockLayoutInside` | src/impl.ts:127-139 | with a non-negative line height, the band of every line lies within the padded area |
| `Layout.LayoutFailsBlock` | src/impl.ts:118-132 | `writeText` throws exactly when `splitWord` throws or the block does not fit |
| `Layout.LayoutFailsOk` | src/impl.ts:118-132 | once `splitLine` has succeeded, `writeText` throws exactly when `lines.length * textHight > area` |
| `Layout.LayoutFailsIff` | src/impl.ts:118-132 | `writeText` throws exactly when `splitWord` throws or `lines.length * textHight > area` |
| `Layout.LayoutDrawsText` | src/impl.ts:118-140 | the lines drawn are `splitLine`'s lines, in order, and they concatenate back to the title |
| `Layout.PlacementSnoc` | src/impl.ts:137-140 | drawing one more line extends the drawing by that line, one step lower |
| `Layout.DrawLines` | src/impl.ts:137-140 | the draw loop appends exactly the placement of the lines to what the canvas has drawn |
| `Layout.WriteText` | src/impl.ts:105-141 | `writeText` throws exactly when the layout fails, with the same error and nothing drawn; otherwise it draws exactly the layout |
| `Layout.ThreeLinesFit` | src/main.ts:47-68 | on the 1200x630 page, three 56 px lines at line height 1.7 fit, at x = 600, y = 179.8 to 370.2 |
| `Layout.FiveLinesOverflow` | src/main.ts:47-68 | on that page, five such lines are refused with `NotEnoughArea` |
| `Title.Split` | src/main.ts:34-36 | `split` returns at least one piece, and no piece holds the separator |
| `Title.JoinSplit` | src/main.ts:34-36 | joining the pieces of `split` with the separator gives back the string |
| `Title.SplitJoin` | src/main.ts:34-36 | splitting a join of separator-free pieces gives back the pieces |
| `Title.SplitMany` | src/main.ts:34-36 | there is more than one piece exactly when the separator occurs |
| `Title.SecondLine` | src/main.ts:34-36 | the text between the first and the second line break, or after the only one, is what `[1]` picks |
| `Title.SecondLineIsBetweenBreaks` | src/main.ts:34-36 | conversely, what `[1]` picks is always such a text |
| `Title.NoSecondLine` | src/main.ts:34-36 | there is no second line exactly when the file holds no line break |
| `Title.RunEnd` | src/main.ts:37 | `.*` runs up to the first line terminator |
| `Title.LastQuote` | src/main.ts:37 | greedy backtracking stops at the last quote in the run |
| `Title.MatchAt` | src/main.ts:37 | a match attempt at i finds the farthest closing quote, or reports that none exists |
| `Title.ExecFrom` | src/main.ts:37 | the match found from i opens leftmost and, among those, closes farthest; none is found only when there is no match |
| `Title.Exec` | src/main.ts:37 | `exec` fails exactly when there is no quoted pair, and otherwise returns the group of the leftmost-longest match |
| `Title.ExecFindsLeftmostLongest` | src/main.ts:37 | the leftmost-longest match is the one `exec` reports |
| `Title.TitleLine` | src/main.ts:34-36 | no contract: `split("\n")[1]`; `Title.SecondLine`, `Title.SecondLineIsBetweenBreaks` and `Title.NoSecondLine` state its properties |
| `Title.LineTitle` | src/main.ts:37 | no contract: `exec`'s group or "No title"; `Title.BetweenFirstAndLastQuote`, `Title.FewerThanTwoQuotes` and `Title.QuotedValue` state its properties |
| `Title.Subject` | src/main.ts:36-37 | no contract: the missing line becomes the string "undefined"; `Title.NoLineBreakNoTitle` states its consequence |
| `Title.Title` | src/main.ts:33-38 | no contract: the title lambda; `Title.TitleOfSecondLine`, `Title.NoLineBreakNoTitle` and `Title.EmptyQuotesEmptyTitle` state its properties |
| `Title.TitleOfSecondLine` | src/main.ts:33-38 | the title depends on the second line only |
| `Title.BetweenFirstAndLastQuote` | src/main.ts:37 | on a line without line terminators, the title is the text strictly between the first and the last quote |
| `Title.FewerThanTwoQuotes` | src/main.ts:37 | a line with fewer than two quotes gives "No title" |
| `Title.NoLineBreakNoTitle` | src/main.ts:33-38 | a file without a line break gives "No title": `exec` sees "undefined" |
| `Title.QuotedValue` | src/main.ts:37 | `key"body"` gives `body`, quotes inside `body` included |
| `Title.EmptyQuotesEmptyTitle` | src/main.ts:33-38 | a second line `key""` gives the empty title, not "No title" |
| `Scenarios.LatinRunIsOneWord` | src/impl.ts:81-90 | a non-empty run of Latin-class characters is one word |
| `Scenarios.NoLatinSingles` | src/impl.ts:81-90 | a non-empty text with no Latin-class character gives one word per character |
| `Scenarios.UnderscoreJoins` | src/impl.ts:78 | `a_b<c>` is a single word, because `_`, `<` and `>` are Latin-class |
| `Scenarios.TwoPerLine` | src/impl.ts:93-101 | with 56 px glyphs and 112 px of width, four one-character words wrap into two lines of two |
| `Scenarios.FourSingles` | src/impl.ts:81-90 | a four-character title with no Latin-class character is cut into its four characters |
| `Scenarios.FourSinglesTwoPerLine` | src/impl.ts:64-103 | with 56 px glyphs and 112 px of width, such a title makes two lines of two |
| `Scenarios.IdeographPairs` | src/impl.ts:64-103 | the title `橙と林檎` is cut into four words and wrapped into `橙と` and `林檎` |
| `Scenarios.LatinRunIsOneLine` | src/impl.ts:64-103 | a Latin-class run that fits the width is `splitLine`'s only line |

## Left out

- Canvas setup and output are foreign library calls and image I/O:
  `setupCanvas` with `registerFont`, `loadImage`, `createCanvas` and
  `drawImage`, and `canvas.toBuffer`. The context's font, alignment and
  baseline are folded into the `Metrics` value.
- Real glyph metrics are not modelled. `measureText` is any three functions
  of the string.
- IEEE-754 rounding is not modelled: pixel arithmetic is exact, over `real`.
- `writeFileSafe` is left out: it only touches the filesystem.
- `DeepPartial` is left out: it is a type-level utility with no behaviour.
- The rest of `src/main.ts` is I/O and asynchronous orchestration: the
  repository clone, the directory walk, reading `index.md` and writing the
  images. `Title.Title` takes the file's text as a parameter. The render
  parameters appear only as the constants of `Layout.ThreeLinesFit` and
  `Layout.FiveLinesOverflow`.
- Lone surrogates are not modelled: a Dafny `char` is a Unicode scalar
  value, so a title holding an unpaired surrogate cannot be written.
- The error messages are not modelled: `Error` carries the error kind and
  the rejected argument, not the text.
- `.toString()` on the captured group is the identity and is not modelled.
