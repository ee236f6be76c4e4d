/** Block placement (`writeText` in src/impl.ts): the wrapped lines are drawn
    centred horizontally in the padded width and, as one block of equally
    spaced lines, centred vertically in the padded height; a block taller
    than the padded height is an error and nothing is drawn. */
module Layout {
  import opened Base
  import opened Segmenter
  import opened LineWrapper

  datatype Padding = Padding(top: real, left: real, bottom: real, right: real)

  /** The text style: line height in ems and the padding in pixels. */
  datatype Style = Style(lineHeight: real, padding: Padding)

  /** One `fillText(line, x, y)` call. */
  datatype Draw = Draw(line: string, x: real, y: real)

  /** The drawing context: the metrics of its current font, and the calls to
      `fillText` made on it so far. */
  class Canvas {
    const metrics: Metrics
    var drawn: seq<Draw>

    constructor (metrics: Metrics)
      ensures this.metrics == metrics && drawn == []
    {
      this.metrics := metrics;
      drawn := [];
    }

    /** `fillText`: draws `line` centred at `x` with its middle at `y`. */
    method FillText(line: string, x: real, y: real)
      modifies this
      ensures drawn == old(drawn) + [Draw(line, x, y)]
    {
      drawn := drawn + [Draw(line, x, y)];
    }
  }

  /** The width available to a line: the canvas width less the left and right padding. */
  function MaxWidth(width: real, p: Padding): real
  {
    width - (p.left + p.right)
  }

  /** The height available to the block: the canvas height less the top and bottom padding. */
  function Area(height: real, p: Padding): real
  {
    height - (p.top + p.bottom)
  }

  /** The uniform line height: the height of the whole, unwrapped text times
      the style's line height. */
  function LineHeight(m: Metrics, text: string, style: Style): real
  {
    TextSize(m, text).height * style.lineHeight
  }

  /** Whether `n` lines of height `h` are taller than `area`. */
  predicate Overflows(n: nat, h: real, area: real)
  {
    n as real * h > area
  }

  /** The height of `n` lines of height `h` stacked without gaps: `n * h`,
      written as repeated addition so that the block arithmetic stays linear
      (`SpanIsProduct`). */
  function Span(n: nat, h: real): real
  {
    if n == 0 then 0.0 else Span(n - 1, h) + h
  }

  /** `Span` is the product of the line count and the line height. */
  lemma {:induction false} SpanIsProduct(n: nat, h: real)
    ensures Span(n, h) == (n as real) * h
  {
    if n > 0 {
      SpanIsProduct(n - 1, h);
      assert ((n - 1) as real) * h + h == (n as real) * h;
    }
  }

  /** For a non-negative line height, more lines take at least as much height. */
  lemma {:induction false} SpanMonotone(i: nat, n: nat, h: real)
    requires i <= n && 0.0 <= h
    ensures 0.0 <= Span(i, h) <= Span(n, h)
  {
    if i < n {
      SpanMonotone(i, n - 1, h);
    } else if i > 0 {
      SpanMonotone(i - 1, i - 1, h);
    }
  }

  /** The draw calls for `lines`: all at `x`, the first at `y0`, each next one
      `h` lower. */
  function Placement(lines: seq<string>, x: real, y0: real, h: real): seq<Draw>
  {
    seq(|lines|, i requires 0 <= i < |lines| => Draw(lines[i], x, y0 + Span(i, h)))
  }

  /** The distance from the block's centre up to its first line: half the
      height of all the lines but one, `(h / 2) * (n - 1)`
      (`OffsetIsProduct`). */
  function Offset(n: nat, h: real): real
  {
    (Span(n, h) - h) / 2.0
  }

  lemma OffsetIsProduct(n: nat, h: real)
    ensures Offset(n, h) == (h / 2.0) * (n as real - 1.0)
  {
    SpanIsProduct(n, h);
  }

  /** What `writeText` draws once it has its lines and line height `h`, or
      the error it throws when the block does not fit. */
  function BlockLayout(lines: seq<string>, width: real, height: real, h: real, p: Padding): Result<seq<Draw>>
  {
    var maxWidth := MaxWidth(width, p);
    var x := p.left + maxWidth / 2.0;
    var area := Area(height, p);
    var use := Span(|lines|, h);
    if area - use < 0.0 then Err(NotEnoughArea)
    else
      var offset := Offset(|lines|, h);
      Ok(Placement(lines, x, p.top + area / 2.0 - offset, h))
  }

  /** What `writeText` draws, or the error it throws. */
  function Layout(m: Metrics, text: string, width: real, height: real, style: Style): Result<seq<Draw>>
  {
    match Lines(m, MaxWidth(width, style.padding), text)
    case Err(e) => Err(e)
    case Ok(lines) => BlockLayout(lines, width, height, LineHeight(m, text, style), style.padding)
  }

  /** The overflow check: the block is refused exactly when its lines,
      `h` apiece, are taller than the padded area; equality is allowed. */
  lemma BlockLayoutFails(lines: seq<string>, width: real, height: real, h: real, p: Padding)
    ensures BlockLayout(lines, width, height, h, p).Err? <==> Overflows(|lines|, h, Area(height, p))
    ensures BlockLayout(lines, width, height, h, p).Err? ==>
      BlockLayout(lines, width, height, h, p).error == NotEnoughArea
  {
    SpanIsProduct(|lines|, h);
  }

  /** The draw calls of a block that fits: every line once, in order, at
      `x`, from `y0` down in steps of `h`. */
  lemma BlockLayoutDraws(lines: seq<string>, width: real, height: real, h: real, p: Padding)
    requires BlockLayout(lines, width, height, h, p).Ok?
    ensures var ds, n := BlockLayout(lines, width, height, h, p).value, |lines|;
      var y0 := p.top + Area(height, p) / 2.0 - (h / 2.0) * (n as real - 1.0);
      |ds| == n &&
      forall i :: 0 <= i < n ==> ds[i] == Draw(lines[i], p.left + MaxWidth(width, p) / 2.0, y0 + (i as real) * h)
  {
    var ds, n := BlockLayout(lines, width, height, h, p).value, |lines|;
    OffsetIsProduct(n, h);
    forall i | 0 <= i < n
      ensures ds[i].y == p.top + Area(height, p) / 2.0 - (h / 2.0) * (n as real - 1.0) + (i as real) * h
    {
      SpanIsProduct(i, h);
    }
  }

  /** Lines are centred horizontally in the padded width: every `x` is as
      far from the left padding as from the right one. */
  lemma BlockLayoutCentredX(lines: seq<string>, width: real, height: real, h: real, p: Padding)
    requires BlockLayout(lines, width, height, h, p).Ok?
    ensures var ds := BlockLayout(lines, width, height, h, p).value;
      |ds| == |lines| &&
      forall i :: 0 <= i < |ds| ==> ds[i].x - p.left == (width - p.right) - ds[i].x
  {
  }

  /** Consecutive lines are exactly `h` apart. */
  lemma BlockLayoutSpacing(lines: seq<string>, width: real, height: real, h: real, p: Padding)
    requires BlockLayout(lines, width, height, h, p).Ok?
    ensures var ds := BlockLayout(lines, width, height, h, p).value;
      |ds| == |lines| &&
      forall i :: 0 < i < |ds| ==> ds[i].y - ds[i - 1].y == h
  {
    var ds := BlockLayout(lines, width, height, h, p).value;
    forall i | 0 < i < |ds|
      ensures ds[i].y - ds[i - 1].y == h
    {
      assert Span(i, h) == Span(i - 1, h) + h;
    }
  }

  /** The block is centred vertically in the padded area: its first and last
      lines are symmetric about the centre, so that a single line sits on it. */
  lemma BlockLayoutCentred(lines: seq<string>, width: real, height: real, h: real, p: Padding)
    requires BlockLayout(lines, width, height, h, p).Ok?
    ensures var ds, n := BlockLayout(lines, width, height, h, p).value, |lines|;
      var centre := p.top + Area(height, p) / 2.0;
      |ds| == n &&
      (n > 0 ==> ds[0].y + ds[n - 1].y == 2.0 * centre) &&
      (n == 1 ==> ds[0].y == centre)
  {
    var ds, n := BlockLayout(lines, width, height, h, p).value, |lines|;
    if n > 0 {
      assert Span(n, h) == Span(n - 1, h) + h;
      assert Span(0, h) == 0.0;
    }
  }

  /** For a non-negative line height, the band of height `h` around every
      line of a block that fits lies inside the padded area. */
  lemma BlockLayoutInside(lines: seq<string>, width: real, height: real, h: real, p: Padding)
    requires BlockLayout(lines, width, height, h, p).Ok? && 0.0 <= h
    ensures var ds := BlockLayout(lines, width, height, h, p).value;
      forall i :: 0 <= i < |ds| ==> p.top <= ds[i].y - h / 2.0 && ds[i].y + h / 2.0 <= height - p.bottom
  {
    var ds, n := BlockLayout(lines, width, height, h, p).value, |lines|;
    forall i | 0 <= i < n
      ensures p.top <= ds[i].y - h / 2.0 && ds[i].y + h / 2.0 <= height - p.bottom
    {
      SpanMonotone(i, n, h);
      SpanMonotone(i + 1, n, h);
      assert Span(i + 1, h) == Span(i, h) + h;
    }
  }

  /** Once `splitLine` has returned `lines`, `writeText` does what the block
      placement of those lines does. */
  lemma LayoutOfLines(m: Metrics, text: string, width: real, height: real, style: Style, lines: seq<string>)
    requires Lines(m, MaxWidth(width, style.padding), text) == Ok(lines)
    ensures Layout(m, text, width, height, style) == BlockLayout(lines, width, height, LineHeight(m, text, style), style.padding)
  {
  }

  /** `writeText` fails exactly when `splitWord` throws or the lines
      `splitLine` returns do not fit the padded height. */
  lemma LayoutFailsBlock(m: Metrics, text: string, width: real, height: real, style: Style)
    ensures var ls := Lines(m, MaxWidth(width, style.padding), text);
      Layout(m, text, width, height, style).Err? <==>
        LatinBeforeAstral(text) ||
        (ls.Ok? && BlockLayout(ls.value, width, height, LineHeight(m, text, style), style.padding).Err?)
  {
    WordsFailsIff(text);
    var ls := Lines(m, MaxWidth(width, style.padding), text);
    assert ls.Err? <==> Words(text).Err?;
  }

  /** Once `splitLine` has succeeded, `writeText` fails exactly when its
      lines overflow the padded height. */
  lemma LayoutFailsOk(m: Metrics, text: string, width: real, height: real, style: Style, lines: seq<string>)
    requires Lines(m, MaxWidth(width, style.padding), text) == Ok(lines)
    ensures Layout(m, text, width, height, style).Err? <==>
      Overflows(|lines|, LineHeight(m, text, style), Area(height, style.padding))
  {
    BlockLayoutFails(lines, width, height, LineHeight(m, text, style), style.padding);
  }

  /** The same, with the overflow written as the product of the line count
      and the line height. */
  lemma LayoutFailsIff(m: Metrics, text: string, width: real, height: real, style: Style)
    ensures var ls := Lines(m, MaxWidth(width, style.padding), text);
      Layout(m, text, width, height, style).Err? <==>
        LatinBeforeAstral(text) ||
        (ls.Ok? && Overflows(|ls.value|, LineHeight(m, text, style), Area(height, style.padding)))
  {
    var ls := Lines(m, MaxWidth(width, style.padding), text);
    if ls.Ok? {
      LayoutFailsOk(m, text, width, height, style, ls.value);
    }
  }

  /** `writeText` draws the text it was given: the lines it draws are the
      ones `splitLine` returns, and they concatenate back to the title. */
  lemma LayoutDrawsText(m: Metrics, text: string, width: real, height: real, style: Style)
    requires Layout(m, text, width, height, style).Ok?
    ensures var ds, ls := Layout(m, text, width, height, style).value, Lines(m, MaxWidth(width, style.padding), text);
      ls.Ok? && Concat(ls.value) == text && |ds| == |ls.value| &&
      forall i :: 0 <= i < |ds| ==> ds[i].line == ls.value[i]
  {
    var ls := Lines(m, MaxWidth(width, style.padding), text);
    WordsShape(text);
    WrapConcat(m, MaxWidth(width, style.padding), Words(text).value);
    BlockLayoutDraws(ls.value, width, height, LineHeight(m, text, style), style.padding);
  }

  /** Drawing one more line extends the placement by that line, `h` below the previous one. */
  lemma PlacementSnoc(lines: seq<string>, i: nat, x: real, y0: real, h: real)
    requires i < |lines|
    ensures Placement(lines[..i + 1], x, y0, h) == Placement(lines[..i], x, y0, h) + [Draw(lines[i], x, y0 + Span(i, h))]
  {
  }

  /** The drawing loop of `writeText`: each line at `x`, the first at `y0`,
      each next one `h` lower. */
  method DrawLines(context: Canvas, lines: seq<string>, x: real, y0: real, h: real)
    modifies context
    ensures context.drawn == old(context.drawn) + Placement(lines, x, y0, h)
  {
    var y := y0;
    for i := 0 to |lines|
      invariant y == y0 + Span(i, h)
      invariant context.drawn == old(context.drawn) + Placement(lines[..i], x, y0, h)
    {
      PlacementSnoc(lines, i, x, y0, h);
      context.FillText(lines[i], x, y);
      y := y + h;
    }
    assert lines[..|lines|] == lines;
  }

  /** `writeText`: split the text into lines, check that the block fits,
      then draw the lines top to bottom. Nothing is drawn when it throws. */
  method WriteText(context: Canvas, text: string, width: real, height: real, style: Style) returns (r: Result<()>)
    modifies context
    ensures var want := Layout(context.metrics, text, width, height, style);
      (r.Err? <==> want.Err?) &&
      (want.Err? ==> r.error == want.error && context.drawn == old(context.drawn)) &&
      (want.Ok? ==> context.drawn == old(context.drawn) + want.value)
  {
    var p := style.padding;
    var maxWidth := MaxWidth(width, p);
    var h := LineHeight(context.metrics, text, style);
    var lines :- SplitLine(context.metrics, maxWidth, text);
    LayoutOfLines(context.metrics, text, width, height, style, lines);

    var x := p.left + maxWidth / 2.0;
    var area := Area(height, p);
    var use := Span(|lines|, h);
    if area - use < 0.0 {
      return Err(NotEnoughArea);
    }
    var offset := Offset(|lines|, h);
    var y := p.top + area / 2.0 - offset;

    DrawLines(context, lines, x, y, h);
    r := Ok(());
  }

  /** The parameters every page image is rendered with: a 1200 by 630
      canvas, padding 60, 100, 140 and 100, line height 1.7. */
  const PageWidth: real := 1200.0
  const PageHeight: real := 630.0
  const PageStyle: Style := Style(1.7, Padding(60.0, 100.0, 140.0, 100.0))

  /** Three lines of a 56-pixel-high title take 285.6 of the 430 pixels
      available: they fit, centred on x = 600 with the first at y = 179.8. */
  lemma ThreeLinesFit(lines: seq<string>)
    requires |lines| == 3
    ensures var r := BlockLayout(lines, PageWidth, PageHeight, 56.0 * 1.7, PageStyle.padding);
      r.Ok? && |r.value| == 3 && r.value[0] == Draw(lines[0], 600.0, 179.8) &&
      r.value[2].y == 370.2
  {
  }

  /** Five such lines need 476 pixels, more than the 430 available. */
  lemma FiveLinesOverflow(lines: seq<string>)
    requires |lines| == 5
    ensures BlockLayout(lines, PageWidth, PageHeight, 56.0 * 1.7, PageStyle.padding) == Err(NotEnoughArea)
  {
  }
}
