/** Floyd-Steinberg dithering in place, and a definition of it that owes nothing to the order of writes. */
module GifDither {
  import opened Bytes
  import opened GifPixels
  import opened GifTree
  import opened GifMedianSplit
  import opened GifPalettes

  /** A color times 256, so that errors below one color step can be propagated. */
  datatype Quant = Quant(r: int, g: int, b: int)

  predicate NonNegative(q: Quant) {
    q.r >= 0 && q.g >= 0 && q.b >= 0
  }

  /** Integer division that truncates toward zero. */
  function Trunc(x: int, n: nat): int
    requires n > 0
  {
    if x >= 0 then x / n else -(-x / n)
  }

  function Weighted(err: int, weight: nat): int {
    if weight == 0 then 0 else err + Weighted(err, weight - 1)
  }

  function Sixteenths(err: int, weight: nat): int {
    Trunc(Weighted(err, weight), 16)
  }

  /** Add a part of an error, but never fall below zero. */
  function AddPart(v: int, err: int, weight: nat): int {
    v + if -v > Sixteenths(err, weight) then -v else Sixteenths(err, weight)
  }

  function Spread(v: Quant, err: Quant, weight: nat): (q: Quant)
    ensures NonNegative(v) ==> NonNegative(q)
  {
    Quant(AddPart(v.r, err.r, weight), AddPart(v.g, err.g, weight), AddPart(v.b, err.b, weight))
  }

  /** A frame to be dithered, the colors shown before it, if any, and the palette. */
  datatype Job = Job(next: seq<Rgb>, last: Option<seq<Rgb>>, plan: Plan, depth: nat, width: nat)

  ghost predicate Proper(j: Job) {
    && 2 <= j.depth <= 8 && Pow2(j.depth) <= 256 && j.plan.Sized()
    && (j.last.Some? ==> |j.last.value| == |j.next|)
  }

  function Scaled(c: Rgb): Quant {
    Quant(c.r as int * 256, c.g as int * 256, c.b as int * 256)
  }

  /** The color wanted for a scaled value, rounded to nearest. */
  function Rounded(q: Quant): Wanted {
    Wanted((q.r + 127) / 256, (q.g + 127) / 256, (q.b + 127) / 256)
  }

  /** What becomes of a pixel: its final color and index, and the error it passes on. */
  datatype Outcome = Outcome(color: Rgb, index: nat, err: Quant)

  predicate Unchanged(j: Job, k: nat, w: Wanted)
    requires Proper(j) && k < |j.next|
  {
    j.last.Some? && var c := j.last.value[k]; w == Wanted(c.r as int, c.g as int, c.b as int)
  }

  function Settle(j: Job, k: nat, q: Quant): (o: Outcome)
    requires Proper(j) && k < |j.next|
    ensures o.index < 256
  {
    var w := Rounded(q);
    if Unchanged(j, k, w) then Outcome(j.last.value[k], 0, Quant(0, 0, 0))
    else
      var ind := Closest(j.plan.color, j.plan.elt, j.plan.split, j.depth, w, Best(0, MAX_DIFF), 1).ind;
      var c := j.plan.color[ind];
      Outcome(c, ind, Quant(q.r - c.r as int * 256, q.g - c.g as int * 256, q.b - c.b as int * 256))
  }

  // ----- The definition: the value of a pixel is what it receives from the pixels before it.

  /** What pixel k has when it has received the parts of the errors of the first i pixels. */
  function Received(j: Job, k: nat, i: nat): (q: Quant)
    requires Proper(j) && i <= k < |j.next|
    ensures NonNegative(q)
    decreases i, 0
  {
    if i == 0 then Scaled(j.next[k])
    else Receive(Received(j, k, i - 1), Final(j, i - 1).err, i - 1, k, j.width)
  }

  /** The parts of the error of pixel i that go to pixel k. */
  function Receive(q: Quant, err: Quant, i: nat, k: nat, width: nat): (r: Quant)
    ensures NonNegative(q) ==> NonNegative(r)
  {
    var q7 := if k == i + 1 then Spread(q, err, 7) else q;
    var q3 := if k == i + width - 1 then Spread(q7, err, 3) else q7;
    var q5 := if k == i + width then Spread(q3, err, 5) else q3;
    if k == i + width + 1 then Spread(q5, err, 1) else q5
  }

  function Final(j: Job, k: nat): Outcome
    requires Proper(j) && k < |j.next|
    decreases k, 1
  {
    Settle(j, k, Received(j, k, k))
  }

  // ----- The buffer, updated in place.

  /** A pixel of the buffer: values times 256 until it is processed, then the final color and index. */
  datatype Cell = Cell(q: Quant, a: int)

  function Unscaled(c: Rgb): Quant {
    Quant(c.r as int, c.g as int, c.b as int)
  }

  /** In an image of width 1 the pixel to the left of the one below is the pixel itself, so it gets a share back. */
  function Settled(o: Outcome, width: nat): Cell {
    Cell(if width == 1 then Spread(Unscaled(o.color), o.err, 3) else Unscaled(o.color), o.index)
  }

  method SpreadTo(cells: array<Cell>, k: nat, err: Quant, weight: nat)
    modifies cells
    ensures k < cells.Length ==> cells[k] == old(cells[k]).(q := Spread(old(cells[k]).q, err, weight))
    ensures forall m :: 0 <= m < cells.Length && m != k ==> cells[m] == old(cells[m])
  {
    if k < cells.Length {
      cells[k] := cells[k].(q := Spread(cells[k].q, err, weight));
    }
  }

  /** Four neighbours that come later take their shares of the error; only at width 1 one of them is the pixel itself. */
  method Propagate(cells: array<Cell>, i: nat, width: nat, err: Quant)
    requires width >= 1
    modifies cells
    ensures forall k :: 0 <= k < cells.Length && k < i ==> cells[k] == old(cells[k])
    ensures i < cells.Length && width == 1 ==> cells[i] == old(cells[i]).(q := Spread(old(cells[i]).q, err, 3))
    ensures i < cells.Length && width > 1 ==> cells[i] == old(cells[i])
    ensures forall k :: i < k < cells.Length ==> cells[k].q == Receive(old(cells[k]).q, err, i, k, width)
  {
    SpreadTo(cells, i + 1, err, 7);
    SpreadTo(cells, i + width - 1, err, 3);
    SpreadTo(cells, i + width, err, 5);
    SpreadTo(cells, i + width + 1, err, 1);
  }

  lemma NothingSpread(q: Quant, i: nat, k: nat, width: nat)
    requires NonNegative(q)
    ensures Receive(q, Quant(0, 0, 0), i, k, width) == q
  {
    SpreadNothing(q, 7);
    SpreadNothing(q, 3);
    SpreadNothing(q, 5);
    SpreadNothing(q, 1);
  }

  lemma SpreadNothing(q: Quant, weight: nat)
    requires NonNegative(q)
    ensures Spread(q, Quant(0, 0, 0), weight) == q
  {
    NothingWeighted(weight);
  }

  lemma {:induction false} NothingWeighted(weight: nat)
    ensures Weighted(0, weight) == 0
  {
    if weight > 0 {
      NothingWeighted(weight - 1);
    }
  }

  lemma NothingBack(o: Outcome)
    requires o.err == Quant(0, 0, 0)
    ensures Settled(o, 1) == Settled(o, 2)
  {
    SpreadNothing(Unscaled(o.color), 3);
  }

  /** The first i pixels are final; the others have received the errors of exactly those. */
  ghost predicate Pending(cells: seq<Cell>, j: Job, i: nat)
    requires Proper(j)
  {
    |cells| == |j.next| && Ready(cells, j, i) && Waiting(cells, j, i)
  }

  ghost predicate Ready(cells: seq<Cell>, j: Job, i: nat)
    requires Proper(j) && |cells| == |j.next|
  {
    forall k {:trigger cells[k]} :: 0 <= k < i && k < |cells| ==> cells[k] == Settled(Final(j, k), j.width)
  }

  ghost predicate Waiting(cells: seq<Cell>, j: Job, i: nat)
    requires Proper(j) && |cells| == |j.next|
  {
    forall k {:trigger cells[k]} :: i <= k < |cells| ==> cells[k].q == Received(j, k, i)
  }

  lemma ReceivedNext(j: Job, k: nat, i: nat, next: nat)
    requires Proper(j) && next == i + 1 <= k < |j.next|
    ensures Received(j, k, next) == Receive(Received(j, k, i), Final(j, i).err, i, k, j.width)
  {
  }

  lemma ReadyStep(before: seq<Cell>, after: seq<Cell>, j: Job, i: nat, next: nat)
    requires Proper(j) && i < |before| == |j.next| && next == i + 1 && Ready(before, j, i)
    requires |after| == |before| && forall k :: 0 <= k < i ==> after[k] == before[k]
    requires after[i] == Settled(Final(j, i), j.width)
    ensures Ready(after, j, next)
  {
  }

  lemma WaitingStep(before: seq<Cell>, after: seq<Cell>, j: Job, i: nat, next: nat, err: Quant)
    requires Proper(j) && i < |before| == |j.next| && next == i + 1 && Waiting(before, j, i)
    requires |after| == |before| && err == Final(j, i).err
    requires forall k :: i < k < |after| ==> after[k].q == Receive(before[k].q, err, i, k, j.width)
    ensures Waiting(after, j, next)
  {
    forall k | next <= k < |after|
      ensures after[k].q == Received(j, k, next)
    {
      ReceivedNext(j, k, i, next);
    }
  }

  method DitherPixel(cells: array<Cell>, i: nat, next: nat, lastFrame: array?<Pixel>, width: nat, pal: GifPalette,
                     ghost j: Job)
    requires Proper(j) && width == j.width >= 1 && i < cells.Length && next == i + 1
    requires pal.Valid() && j.plan == pal.Contents() && j.depth == pal.bitDepth && j.last == Shown(lastFrame)
    requires Pending(cells[..], j, i)
    modifies cells
    ensures Pending(cells[..], j, next)
  {
    ghost var before := cells[..];
    var nextPix := cells[i].q;
    assert nextPix == Received(j, i, i);
    var w := Rounded(nextPix);
    if lastFrame != null {
      var lastPix := lastFrame[i];
      if lastPix.r as int == w.r && lastPix.g as int == w.g && lastPix.b as int == w.b {
        // the color of the last frame is the one wanted: a transparent pixel
        cells[i] := Cell(Quant(w.r, w.g, w.b), TRANS_INDEX as int);
        forall k | i < k < |before|
          ensures cells[..][k].q == Receive(before[k].q, Quant(0, 0, 0), i, k, width)
        {
          NothingSpread(before[k].q, i, k, width);
        }
        NothingBack(Final(j, i));
        ReadyStep(before, cells[..], j, i, next);
        WaitingStep(before, cells[..], j, i, next, Quant(0, 0, 0));
        return;
      }
    }
    var bestInd := Closest(pal.color, pal.treeSplitElt, pal.treeSplit, pal.bitDepth, w, Best(0, MAX_DIFF), 1).ind;
    var c := pal.color[bestInd];
    var err := Quant(nextPix.r - c.r as int * 256, nextPix.g - c.g as int * 256, nextPix.b - c.b as int * 256);
    assert Final(j, i) == Outcome(c, bestInd, err);
    cells[i] := Cell(Unscaled(c), bestInd);
    Propagate(cells, i, width, err);
    ReadyStep(before, cells[..], j, i, next);
    WaitingStep(before, cells[..], j, i, next, err);
  }

  method DitherRow(cells: array<Cell>, row: nat, next: nat, lastFrame: array?<Pixel>, width: nat, pal: GifPalette,
                   ghost j: Job)
    requires Proper(j) && width == j.width >= 1 && row <= next <= cells.Length
    requires pal.Valid() && j.plan == pal.Contents() && j.depth == pal.bitDepth && j.last == Shown(lastFrame)
    requires Pending(cells[..], j, row)
    modifies cells
    ensures Pending(cells[..], j, next)
  {
    var i := row;
    while i < next
      invariant row <= i <= next
      invariant Pending(cells[..], j, i)
    {
      var i' := i + 1;
      DitherPixel(cells, i, i', lastFrame, width, pal, j);
      i := i';
    }
  }

  method DitherRows(cells: array<Cell>, lastFrame: array?<Pixel>, width: nat, height: nat, pal: GifPalette,
                    ghost j: Job)
    requires Proper(j) && width == j.width >= 1 && cells.Length == Area(width, height)
    requires pal.Valid() && j.plan == pal.Contents() && j.depth == pal.bitDepth && j.last == Shown(lastFrame)
    requires Pending(cells[..], j, 0)
    modifies cells
    ensures Pending(cells[..], j, cells.Length)
  {
    var yy, row := 0, 0;
    while yy < height
      invariant yy <= height && row == Area(width, yy) <= cells.Length
      invariant Pending(cells[..], j, row)
    {
      yy := yy + 1;
      RowsInside(width, yy, height);
      var next := row + width;
      DitherRow(cells, row, next, lastFrame, width, pal, j);
      row := next;
    }
  }

  /** A cell cut down to bytes. */
  function Narrow(c: Cell): Pixel {
    Pixel((c.q.r % 256) as byte, (c.q.g % 256) as byte, (c.q.b % 256) as byte, (c.a % 256) as byte)
  }

  function Dithered(j: Job, k: nat): Pixel
    requires Proper(j) && k < |j.next|
  {
    Narrow(Settled(Final(j, k), j.width))
  }

  /** The buffer initially holds color times 256 for all pixels. */
  method Scale(nextFrame: array<Pixel>, ghost j: Job) returns (cells: array<Cell>)
    requires Proper(j) && j.next == Colors(nextFrame[..])
    ensures fresh(cells) && Pending(cells[..], j, 0)
  {
    cells := new Cell[nextFrame.Length](i requires 0 <= i < nextFrame.Length reads nextFrame =>
      Cell(Scaled(nextFrame[i].Color()), nextFrame[i].a as int * 256));
  }

  /** Dither a frame; the output buffer may be the one that holds the last frame. */
  method GifDitherImage(lastFrame: array?<Pixel>, nextFrame: array<Pixel>, outFrame: array<Pixel>,
                        width: nat, height: nat, pal: GifPalette)
    requires pal.Valid() && width >= 1
    requires nextFrame.Length == outFrame.Length == Area(width, height) && nextFrame != outFrame
    requires lastFrame != null ==> lastFrame.Length == outFrame.Length
    modifies outFrame
    ensures var j := Job(Colors(nextFrame[..]), old(Shown(lastFrame)), pal.Contents(), pal.bitDepth, width);
      && Proper(j)
      && forall k :: 0 <= k < outFrame.Length ==> outFrame[k] == Dithered(j, k)
  {
    ghost var j := Job(Colors(nextFrame[..]), Shown(lastFrame), pal.Contents(), pal.bitDepth, width);
    DepthFits(pal.bitDepth);
    var quantPixels := Scale(nextFrame, j);
    DitherRows(quantPixels, lastFrame, width, height, pal, j);
    CopyResult(quantPixels, outFrame, Narrowed(quantPixels[..], j));
  }

  lemma DepthFits(depth: nat)
    requires 2 <= depth <= 8
    ensures Pow2(depth) <= 256
  {
    Pow2Table();
    if depth < 8 {
      Pow2Grows(depth, 8);
    }
  }

  lemma NarrowByte(b: byte, index: nat)
    requires index < 256
    ensures (b as int % 256) as byte == b && index % 256 == index
  {
  }

  /** At any other width the cells of processed pixels hold nothing but bytes. */
  lemma NothingLost(j: Job, k: nat)
    requires Proper(j) && k < |j.next| && j.width != 1
    ensures var o := Final(j, k);
      Dithered(j, k) == Pixel(o.color.r, o.color.g, o.color.b, o.index as byte)
  {
    var o := Final(j, k);
    NarrowByte(o.color.r, o.index);
    NarrowByte(o.color.g, o.index);
    NarrowByte(o.color.b, o.index);
  }

  lemma IndexInTable(j: Job, k: nat)
    requires Proper(j) && k < |j.next|
    ensures Dithered(j, k).a as int == Final(j, k).index < Pow2(j.depth)
  {
    SettledIndex(j, k, Received(j, k, k));
  }

  lemma SettledIndex(j: Job, k: nat, q: Quant)
    requires Proper(j) && k < |j.next|
    ensures Settle(j, k, q).index < Pow2(j.depth)
    ensures Narrow(Settled(Settle(j, k, q), j.width)).a as int == Settle(j, k, q).index
  {
    NarrowByte(0, Settle(j, k, q).index);
  }

  // ----- Images of width 1.

  /** A share of the error that comes back does no harm if it is nothing, or vanishes in the cut to bytes. */
  predicate Harmless(c: byte, err: int) {
    if Sixteenths(err, 3) >= -(c as int) then Sixteenths(err, 3) % 256 == 0 else c == 0
  }

  lemma KeptIff(c: byte, err: int)
    ensures AddPart(c as int, err, 3) % 256 == c as int <==> Harmless(c, err)
  {
    if Sixteenths(err, 3) >= -(c as int) {
      SumModulo(c as int, Sixteenths(err, 3));
    }
  }

  lemma SumModulo(c: int, s: int)
    requires 0 <= c < 256
    ensures (c + s) % 256 == c <==> s % 256 == 0
  {
  }

  /** A pixel of such an image keeps its final color exactly if the share that comes back does no harm. */
  lemma ColorKeptIff(j: Job, k: nat)
    requires Proper(j) && k < |j.next| && j.width == 1
    ensures var o := Final(j, k);
      Dithered(j, k).a == o.index as byte
      && (Dithered(j, k).Color() == o.color
          <==> Harmless(o.color.r, o.err.r) && Harmless(o.color.g, o.err.g) && Harmless(o.color.b, o.err.b))
  {
    SettledIff(Final(j, k));
  }

  lemma SettledIff(o: Outcome)
    requires o.index < 256
    ensures Narrow(Settled(o, 1)).a == o.index as byte
    ensures Narrow(Settled(o, 1)).Color() == o.color
      <==> Harmless(o.color.r, o.err.r) && Harmless(o.color.g, o.err.g) && Harmless(o.color.b, o.err.b)
  {
    KeptIff(o.color.r, o.err.r);
    KeptIff(o.color.g, o.err.g);
    KeptIff(o.color.b, o.err.b);
    var q := Settled(o, 1).q;
    assert q.r == AddPart(o.color.r as int, o.err.r, 3);
    assert q.g == AddPart(o.color.g as int, o.err.g, 3);
    assert q.b == AddPart(o.color.b as int, o.err.b, 3);
  }

  ghost function Narrowed(cells: seq<Cell>, j: Job): (out: seq<Pixel>)
    requires Proper(j) && |cells| == |j.next| && Ready(cells, j, |cells|)
    ensures |out| == |cells| && forall k :: 0 <= k < |cells| ==> out[k] == Narrow(cells[k]) == Dithered(j, k)
  {
    seq(|cells|, k requires 0 <= k < |cells| => Narrow(cells[k]))
  }

  /** The finished cells become the pixels of the frame. */
  method CopyResult(quantPixels: array<Cell>, outFrame: array<Pixel>, ghost out: seq<Pixel>)
    requires quantPixels.Length == outFrame.Length == |out|
    requires forall k :: 0 <= k < |out| ==> out[k] == Narrow(quantPixels[k])
    modifies outFrame
    ensures outFrame[..] == out
  {
    for ii := 0 to outFrame.Length
      invariant forall k :: 0 <= k < ii ==> outFrame[k] == out[k]
    {
      outFrame[ii] := Narrow(quantPixels[ii]);
    }
  }
}
