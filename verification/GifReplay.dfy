/** Drawing the frames of a GIF file one after the other, and the rows of an interlaced one each exactly once. */
module GifReplay {
  import opened Bytes
  import opened GifPixels
  import opened GifInterlace

  /** A pixel of the canvas of the reader. */
  datatype Rgba = Rgba(r: byte, g: byte, b: byte, a: byte)

  type Canvas = seq<seq<Rgba>>

  const DISPOSAL_UNSPECIFIED: nat := 0
  const DISPOSE_BACKGROUND: nat := 2

  /** A frame as the stream delivers it: fewer lines than its height mean that decoding fails there. */
  datatype Image = Image(left: nat, top: nat, width: nat, height: nat, interlaced: bool, disposal: nat,
                         transparent: Option<byte>, colors: Option<seq<Rgb>>, lines: seq<seq<byte>>)

  /** What the stream has in the place of subimage k: a frame, or a header that cannot be read or is refused. */
  datatype Record = Frame(image: Image) | NoFrame(disposal: nat)

  predicate Decodes(f: Image) {
    |f.lines| <= f.height && forall k :: 0 <= k < |f.lines| ==> |f.lines[k]| == f.width
  }

  predicate Sized(canvas: Canvas, width: nat, height: nat) {
    |canvas| == height && forall y :: 0 <= y < height ==> |canvas[y]| == width
  }

  function Blank(width: nat, height: nat): (canvas: Canvas)
    ensures Sized(canvas, width, height)
  {
    seq(height, _ => seq(width, _ => Rgba(0, 0, 0, 0)))
  }

  // ----- Drawing a line.

  predicate InTable(line: seq<byte>, colors: seq<Rgb>) {
    forall x :: 0 <= x < |line| ==> line[x] as int < |colors|
  }

  /** A palette entry; the transparent one keeps its color but not its alpha. */
  function Shade(index: byte, colors: seq<Rgb>, transparent: Option<byte>): Rgba
    requires index as int < |colors|
  {
    var c := colors[index];
    Rgba(c.r, c.g, c.b, if transparent == Some(index) then 0 else 255)
  }

  /** A line drawn from column left on, cut off at the right edge. */
  function DrawLine(row: seq<Rgba>, line: seq<byte>, left: nat, colors: seq<Rgb>, transparent: Option<byte>)
    : (drawn: seq<Rgba>)
    requires InTable(line, colors)
    ensures |drawn| == |row|
    ensures forall x :: 0 <= x < |row| ==>
      drawn[x] == if left <= x < left + |line| then Shade(line[x - left], colors, transparent) else row[x]
  {
    seq(|row|, x requires 0 <= x < |row| =>
      if left <= x < left + |line| then Shade(line[x - left], colors, transparent) else row[x])
  }

  /** The row that line k is drawn to. */
  function RowOf(f: Image, k: nat): (y: int)
  {
    f.top + if f.interlaced then DecodeLineNumber(k, f.height) else k
  }

  /** The canvas after the first n lines; lines outside it are not even looked at. */
  function DrawLines(canvas: Canvas, f: Image, colors: seq<Rgb>, n: nat): (drawn: Option<Canvas>)
    requires n <= |f.lines|
    ensures drawn.Some? ==> |drawn.value| == |canvas|
    ensures drawn.Some? ==> forall y :: 0 <= y < |canvas| ==> |drawn.value[y]| == |canvas[y]|
  {
    if n == 0 then Some(canvas)
    else
      match DrawLines(canvas, f, colors, n - 1)
      case None => None
      case Some(c) =>
        var (y, line) := (RowOf(f, n - 1), f.lines[n - 1]);
        if !(0 <= y < |c|) then Some(c)
        else if !InTable(line, colors) then None
        else Some(c[y := DrawLine(c[y], line, f.left, colors, f.transparent)])
  }

  /** A frame drawn on the canvas that the one before it left. */
  function DrawFrame(canvas: Canvas, previousDisposal: nat, f: Image, k: nat, width: nat, height: nat): Option<Canvas> {
    if f.colors.None? then None
    else
      var under := if k == 0 || previousDisposal == DISPOSE_BACKGROUND then Blank(width, height) else canvas;
      if |f.lines| < f.height then None else DrawLines(under, f, f.colors.value, |f.lines|)
  }

  // ----- Replaying from the first frame.

  /** The canvas and the disposal method of the last frame drawn. */
  datatype Shown = Shown(canvas: Canvas, disposal: nat)

  /** The first n frames, drawn one after the other by a reader that has just been opened. */
  function Replay(records: seq<Record>, width: nat, height: nat, n: nat): Option<Shown> {
    if n == 0 then Some(Shown([], DISPOSAL_UNSPECIFIED))
    else
      match Replay(records, width, height, n - 1)
      case None => None
      case Some(s) => DrawNext(records, width, height, n - 1, s)
  }

  function DrawNext(records: seq<Record>, width: nat, height: nat, k: nat, s: Shown): Option<Shown> {
    if k >= |records| || records[k].NoFrame? then None
    else
      var f := records[k].image;
      match DrawFrame(s.canvas, s.disposal, f, k, width, height)
      case None => None
      case Some(canvas) => Some(Shown(canvas, f.disposal))
  }

  lemma DrawnSized(canvas: Canvas, f: Image, colors: seq<Rgb>, n: nat, width: nat, height: nat)
    requires n <= |f.lines| && Sized(canvas, width, height) && DrawLines(canvas, f, colors, n).Some?
    ensures Sized(DrawLines(canvas, f, colors, n).value, width, height)
  {
  }

  /** Frames are drawn on a canvas of the size that the file declares. */
  lemma {:induction false} ReplaySized(records: seq<Record>, width: nat, height: nat, n: nat)
    requires n > 0 && Replay(records, width, height, n).Some?
    ensures n <= |records| && records[n - 1].Frame?
    ensures Sized(Replay(records, width, height, n).value.canvas, width, height)
  {
    var (s, f) := (Replay(records, width, height, n - 1).value, records[n - 1].image);
    if n - 1 > 0 {
      ReplaySized(records, width, height, n - 1);
    }
    var under := if n == 1 || s.disposal == DISPOSE_BACKGROUND then Blank(width, height) else s.canvas;
    DrawnSized(under, f, f.colors.value, |f.lines|, width, height);
  }

  /** The first frame covers whatever was there before. */
  lemma FirstFrame(records: seq<Record>, width: nat, height: nat, s: Shown)
    ensures DrawNext(records, width, height, 0, s) == Replay(records, width, height, 1)
  {
  }

  lemma ReplayNext(records: seq<Record>, width: nat, height: nat, k: nat, next: nat)
    requires next == k + 1
    ensures Replay(records, width, height, next)
         == match Replay(records, width, height, k) { case None => None
                                                      case Some(s) => DrawNext(records, width, height, k, s) }
  {
  }

  lemma NoneNext(records: seq<Record>, width: nat, height: nat, k: nat, next: nat)
    requires next == k + 1 && Replay(records, width, height, k) == None
    ensures Replay(records, width, height, next) == None
  {
  }

  /** If the frames up to some point cannot be drawn, no later ones can. */
  lemma {:induction false} NoneLater(records: seq<Record>, width: nat, height: nat, k: nat, n: nat)
    requires k <= n && Replay(records, width, height, k) == None
    ensures Replay(records, width, height, n) == None
  {
    if k < n {
      NoneLater(records, width, height, k, n - 1);
      NoneNext(records, width, height, n - 1, n);
    }
  }

  // ----- Every row of a frame is drawn exactly once.

  /** The stored line of a row of a frame. */
  function LineAt(f: Image, y: nat): nat
    requires y >= f.top
  {
    if f.interlaced then LineOf(y - f.top, f.height) else y - f.top
  }

  lemma LineAtIs(f: Image, y: nat, k: nat)
    requires f.top <= y < f.top + f.height && k < f.height
    ensures LineAt(f, y) < f.height && (RowOf(f, k) == y <==> k == LineAt(f, y))
  {
    if f.interlaced {
      InterlacedLine(y - f.top, k, f.height);
    }
  }

  lemma InterlacedLine(row: nat, k: nat, height: nat)
    requires row < height && k < height
    ensures LineOf(row, height) < height && (DecodeLineNumber(k, height) == row <==> k == LineOf(row, height))
  {
    RowStoredOnce(row, height);
    LineStoredOnce(k, height);
  }

  /** After n lines there is a canvas, and this is its row y. */
  predicate RowDrawn(canvas: Canvas, f: Image, colors: seq<Rgb>, n: nat, y: nat, row: seq<Rgba>)
    requires n <= |f.lines| && y < |canvas|
  {
    match DrawLines(canvas, f, colors, n)
    case None => false
    case Some(c) => c[y] == row
  }

  /** A line changes the row that it is drawn to, and no other. */
  lemma LineDrawn(canvas: Canvas, f: Image, colors: seq<Rgb>, k: nat, next: nat, y: nat, after: seq<Rgba>)
    returns (before: seq<Rgba>)
    requires k < |f.lines| && next == k + 1 && y < |canvas| && RowDrawn(canvas, f, colors, next, y, after)
    ensures RowDrawn(canvas, f, colors, k, y, before)
    ensures if RowOf(f, k) == y
            then InTable(f.lines[k], colors) && after == DrawLine(before, f.lines[k], f.left, colors, f.transparent)
            else after == before
  {
    before := DrawLines(canvas, f, colors, k).value[y];
  }

  /** The row y after n lines. */
  predicate RowAfter(canvas: Canvas, f: Image, colors: seq<Rgb>, n: nat, y: nat, row: seq<Rgba>)
    requires n <= |f.lines| && y < |canvas|
  {
    if f.top <= y < f.top + f.height && LineAt(f, y) < n
    then InTable(f.lines[LineAt(f, y)], colors)
         && row == DrawLine(canvas[y], f.lines[LineAt(f, y)], f.left, colors, f.transparent)
    else row == canvas[y]
  }

  lemma NothingDrawn(canvas: Canvas, f: Image, colors: seq<Rgb>, n: nat, y: nat, row: seq<Rgba>)
    requires n == 0 && y < |canvas| && RowDrawn(canvas, f, colors, n, y, row)
    ensures RowAfter(canvas, f, colors, n, y, row)
  {
  }

  lemma RowAfterNext(canvas: Canvas, f: Image, colors: seq<Rgb>, k: nat, next: nat, y: nat,
                     before: seq<Rgba>, after: seq<Rgba>)
    requires next == k + 1 <= |f.lines| <= f.height && y < |canvas| && RowAfter(canvas, f, colors, k, y, before)
    requires if RowOf(f, k) == y
             then InTable(f.lines[k], colors) && after == DrawLine(before, f.lines[k], f.left, colors, f.transparent)
             else after == before
    ensures RowAfter(canvas, f, colors, next, y, after)
  {
    if f.top <= y < f.top + f.height {
      LineAtIs(f, y, k);
    } else {
      OutsideRow(f, y, k);
    }
  }

  /** Rows of the frame show their line once it has been drawn; the others are as they were. */
  lemma {:induction false} DrawnRow(canvas: Canvas, f: Image, colors: seq<Rgb>, n: nat, y: nat, row: seq<Rgba>)
    requires n <= |f.lines| <= f.height && y < |canvas| && RowDrawn(canvas, f, colors, n, y, row)
    ensures RowAfter(canvas, f, colors, n, y, row)
  {
    if n == 0 {
      NothingDrawn(canvas, f, colors, n, y, row);
    } else {
      var before := LineDrawn(canvas, f, colors, n - 1, n, y, row);
      DrawnRow(canvas, f, colors, n - 1, y, before);
      RowAfterNext(canvas, f, colors, n - 1, n, y, before, row);
    }
  }

  lemma OutsideRow(f: Image, y: nat, k: nat)
    requires k < f.height && !(f.top <= y < f.top + f.height)
    ensures RowOf(f, k) != y
  {
    if f.interlaced {
      LineInside(k, f.height);
    }
  }

  /** A frame, interlaced or not, fills each of its rows with its own line, and touches no other pixel. */
  lemma FrameFills(canvas: Canvas, f: Image, colors: seq<Rgb>, x: nat, y: nat)
    requires |f.lines| == f.height && Decodes(f) && y < |canvas| && x < |canvas[y]|
    requires DrawLines(canvas, f, colors, f.height).Some?
    ensures var c := DrawLines(canvas, f, colors, f.height).value;
      if f.top <= y < f.top + f.height && f.left <= x < f.left + f.width
      then
        var index := f.lines[LineAt(f, y)][x - f.left];
        index as int < |colors| && c[y][x] == Shade(index, colors, f.transparent)
      else c[y][x] == canvas[y][x]
  {
    var c := DrawLines(canvas, f, colors, f.height).value;
    DrawnRow(canvas, f, colors, f.height, y, c[y]);
    PixelFilled(canvas, f, colors, y, c[y], x, f.height);
  }

  lemma PixelFilled(canvas: Canvas, f: Image, colors: seq<Rgb>, y: nat, row: seq<Rgba>, x: nat, n: nat)
    requires |f.lines| == f.height == n && Decodes(f) && y < |canvas| && x < |canvas[y]| == |row|
    requires RowAfter(canvas, f, colors, n, y, row)
    ensures
      if f.top <= y < f.top + f.height && f.left <= x < f.left + f.width
      then
        LineAt(f, y) < |f.lines| && var index := f.lines[LineAt(f, y)][x - f.left];
        index as int < |colors| && row[x] == Shade(index, colors, f.transparent)
      else row[x] == canvas[y][x]
  {
    if f.top <= y < f.top + f.height {
      LineAtIs(f, y, 0);
      assert |f.lines[LineAt(f, y)]| == f.width;
    }
  }
}
