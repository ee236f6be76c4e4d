/** Shared vocabulary of the text-layout engine: results and errors, string
    concatenation, the UTF-16 view of a string that JavaScript's `slice` and
    `length` see, and the measurement contract of the drawing context. */
module Base {

  /** The two exceptions the engine throws. */
  datatype Error =
    | InvalidCharLength(arg: seq<int>)  // `isEnChar` got a string whose UTF-16 length is not 1
    | NotEnoughArea                     // the wrapped block is taller than the padded area

  /** A computation that either returns a value or throws an `Error`. */
  datatype Result<+T> = Ok(value: T) | Err(error: Error) {
    predicate IsFailure() { Err? }
    function PropagateFailure<U>(): Result<U> requires Err? { Err(error) }
    function Extract(): T requires Ok? { value }
  }

  datatype Option<+T> = None | Some(value: T)

  /** Concatenation of a sequence of strings, in order, with no separator. */
  function Concat(ws: seq<string>): string
  {
    if ws == [] then "" else Concat(ws[..|ws| - 1]) + ws[|ws| - 1]
  }

  lemma ConcatAppend(ws: seq<string>, w: string)
    ensures Concat(ws + [w]) == Concat(ws) + w
  {
    assert (ws + [w])[..|ws|] == ws;
  }

  /** Replacing the last string by itself extended with `w` extends the concatenation by `w`. */
  lemma ConcatExtendLast(ws: seq<string>, w: string)
    requires ws != []
    ensures Concat(ws[..|ws| - 1] + [ws[|ws| - 1] + w]) == Concat(ws) + w
  {
    ConcatAppend(ws[..|ws| - 1], ws[|ws| - 1] + w);
  }

  /** The UTF-16 code units of one character: one unit in the Basic
      Multilingual Plane, a surrogate pair above it. */
  function Utf16Char(c: char): (u: seq<int>)
    ensures |u| == 1 <==> c as int < 0x1_0000
    ensures 1 <= |u| <= 2
    ensures forall k :: 0 <= k < |u| ==> 0 <= u[k] < 0x1_0000
    ensures |u| == 2 ==> 0xD800 <= u[0] < 0xDC00 && 0xDC00 <= u[1] < 0xE000
    ensures |u| == 1 ==> u[0] == c as int
  {
    if c as int < 0x1_0000 then [c as int]
    else
      var v := c as int - 0x1_0000;
      [0xD800 + v / 0x400, 0xDC00 + v % 0x400]
  }

  /** The UTF-16 code units of a string, the units that `length` counts and `slice` cuts. */
  function Utf16(s: string): seq<int>
  {
    if s == [] then [] else Utf16(s[..|s| - 1]) + Utf16Char(s[|s| - 1])
  }

  /** JavaScript's `u.slice(-1)`: the last code unit, or nothing for the empty string. */
  function SliceLast(u: seq<int>): (r: seq<int>)
    ensures u == [] ==> r == []
    ensures u != [] ==> |r| == 1 && u[..|u| - 1] + r == u
  {
    if u == [] then [] else u[|u| - 1..]
  }

  /** The last UTF-16 unit of a non-empty string is the last unit of its last character. */
  lemma SliceLastUtf16(s: string)
    requires s != []
    ensures SliceLast(Utf16(s)) == SliceLast(Utf16Char(s[|s| - 1]))
  {
  }

  /** What `measureText` reports for a string under the context's current
      font, alignment and baseline. Glyph metrics are not modelled: any three
      functions will do. */
  datatype Metrics = Metrics(
    advance: string -> real,  // `width`
    ascent: string -> real,   // `actualBoundingBoxAscent`
    descent: string -> real)  // `actualBoundingBoxDescent`

  datatype Size = Size(width: real, height: real)

  /** `textSize`: the advance width and the ascent-plus-descent height of `s`. */
  function TextSize(m: Metrics, s: string): Size
  {
    Size(m.advance(s), m.ascent(s) + m.descent(s))
  }
}
