/**
 * A GIF in progress: header, frames that store only what has changed, trailer. What a viewer
 * shows after every frame is what the writer keeps as its previous image.
 */
module GifMovie {
  import opened Bytes
  import opened Files
  import opened GifPixels
  import opened GifLzwSpec
  import opened GifBlocks
  import opened GifBitWriter
  import opened GifViewer
  import opened GifTree
  import opened GifMedianSplit
  import opened GifPalettes
  import opened GifPaletteMaker
  import opened GifThreshold
  import D = GifDither
  import B = GifDitherBound
  import P = GifDitherPeak
  import opened GifFrameWriter

  // ----- What the viewer draws.

  /** A frame as the writer emits them: the whole canvas, left in place, index 0 transparent. */
  predicate WholeCanvas(f: Frame, width: nat, height: nat) {
    && f.left == f.top == 0 && f.width == width && f.height == height
    && f.control.disposal == 1 && f.control.transparent == Some(TRANS_INDEX)
    && |f.indices| == Area(width, height)
  }

  lemma {:induction false} OnCanvas(k: nat, width: nat, height: nat)
    requires width > 0 && k < Area(width, height)
    ensures k / width < height && (k / width) * width + k % width == k
  {
    AreaIsProduct(width, height);
    Cancel(k / width, height, width);
  }

  lemma PaintWhole(f: Frame, width: nat, height: nat, k: nat, under: Rgb)
    requires width > 0 && WholeCanvas(f, width, height) && k < |f.indices|
    ensures Paint(f, k % width, k / width, under)
         == if f.indices[k] == 0 || f.indices[k] as int >= |f.palette| then under else f.palette[f.indices[k]]
  {
    OnCanvas(k, width, height);
    assert (k / width - f.top) * f.width + (k % width - f.left) == k;
  }

  /** An output pixel says what a viewer that showed a color there before shows now. */
  predicate Agrees(before: Rgb, out: Pixel, table: seq<Rgb>) {
    if out.a == 0 then out.Color() == before
    else out.a as int < |table| && out.Color() == table[out.a]
  }

  lemma DrawAgrees(f: Frame, width: nat, height: nat, canvas: Canvas, out: seq<Pixel>)
    requires width > 0 && WholeCanvas(f, width, height) && f.indices == Alphas(out)
    requires |canvas| == |out|
    requires forall k :: 0 <= k < |out| ==> Agrees(canvas[k], out[k], f.palette)
    ensures Draw(width, canvas, f) == Colors(out)
  {
    forall k | 0 <= k < |out|
      ensures Draw(width, canvas, f)[k] == Colors(out)[k]
    {
      PaintWhole(f, width, height, k, canvas[k]);
    }
  }

  lemma {:induction false} LeftInPlace(width: nat, height: nat, frames: seq<Frame>)
    requires width > 0
    requires forall f :: f in frames ==> WholeCanvas(f, width, height)
    ensures Behind(width, height, frames) == Screen(width, height, frames)
    ensures |Screen(width, height, frames)| == Area(width, height)
  {
    if frames != [] {
      LeftInPlace(width, height, frames[..|frames| - 1]);
      assert frames[|frames| - 1] in frames;
    }
  }

  lemma ScreenSnoc(width: nat, height: nat, frames: seq<Frame>, f: Frame)
    requires width > 0
    requires forall g :: g in frames ==> WholeCanvas(g, width, height)
    ensures Screen(width, height, frames + [f]) == Draw(width, Screen(width, height, frames), f)
  {
    LeftInPlace(width, height, frames);
    assert (frames + [f])[..|frames|] == frames;
  }

  // ----- The stream.

  /** A reader that meets the bytes finds the frames, and goes on behind them. */
  ghost predicate Reads(bytes: seq<byte>, frames: seq<Frame>) {
    forall rest, global {:trigger ReadBlocks(bytes + rest, NO_CONTROL, global)} ::
      ReadBlocks(bytes + rest, NO_CONTROL, global) == Then(frames, ReadBlocks(rest, NO_CONTROL, global))
  }

  lemma ThenTwice(xs: seq<Frame>, ys: seq<Frame>, rest: Option<seq<Frame>>)
    ensures Then(xs, Then(ys, rest)) == Then(xs + ys, rest)
    ensures Then([], rest) == rest
  {
    if rest.Some? {
      Assoc(xs, ys, rest.value);
      assert [] + rest.value == rest.value;
    }
  }

  lemma ReadsMore(bytes: seq<byte>, frames: seq<Frame>, chunk: seq<byte>, f: Frame)
    requires Reads(bytes, frames) && Shows(chunk, f)
    ensures Reads(bytes + chunk, frames + [f])
  {
    forall rest, global
      ensures ReadBlocks(bytes + chunk + rest, NO_CONTROL, global)
           == Then(frames + [f], ReadBlocks(rest, NO_CONTROL, global))
    {
      Assoc(bytes, chunk, rest);
      var tail := ReadBlocks(rest, NO_CONTROL, global);
      assert ReadBlocks(chunk + rest, NO_CONTROL, global) == Then([f], tail);
      assert ReadBlocks(bytes + (chunk + rest), NO_CONTROL, global) == Then(frames, Then([f], tail));
      ThenTwice(frames, [f], tail);
    }
  }

  // ----- The header.

  /** Signature, screen descriptor and a dummy global palette of two entries. */
  function Header(width: nat, height: nat): seq<byte> {
    SIGNATURE + [Lo(width), Hi(width), Lo(height), Hi(height), 0xf0, 0, 0, 0, 0, 0, 0, 0, 0]
  }

  const APPLICATION: seq<byte> := [0x4e, 0x45, 0x54, 0x53, 0x43, 0x41, 0x50, 0x45, 0x32, 0x2e, 0x30]
  const LOOP: seq<byte> := [1, 0, 0]

  /** The application extension that makes the animation loop. */
  function LoopExtension(): seq<byte> {
    [0x21, 0xff] + (Block(APPLICATION) + (Block(LOOP) + [0]))
  }

  lemma LoopExtensionSkipped(rest: seq<byte>, global: seq<Rgb>)
    ensures ReadBlocks(LoopExtension() + rest, NO_CONTROL, global) == ReadBlocks(rest, NO_CONTROL, global)
  {
    var end := [0] + rest;
    assert Deblock(end) == Some(([], rest));
    DeblockOne(LOOP, end, [], rest);
    DeblockOne(APPLICATION, Block(LOOP) + end, LOOP + [], rest);
    var data := LoopExtension() + rest;
    Assoc([0x21, 0xff], Block(APPLICATION) + (Block(LOOP) + [0]), rest);
    Assoc(Block(APPLICATION), Block(LOOP) + [0], rest);
    Assoc(Block(LOOP), [0], rest);
    assert data[2..] == Block(APPLICATION) + (Block(LOOP) + end);
  }

  lemma EmptyBody()
    ensures Reads([], []) && Reads(LoopExtension(), [])
  {
    forall rest, global
      ensures ReadBlocks([] + rest, NO_CONTROL, global) == Then([], ReadBlocks(rest, NO_CONTROL, global))
      ensures ReadBlocks(LoopExtension() + rest, NO_CONTROL, global) == Then([], ReadBlocks(rest, NO_CONTROL, global))
    {
      assert [] + rest == rest;
      ThenTwice([], [], ReadBlocks(rest, NO_CONTROL, global));
      LoopExtensionSkipped(rest, global);
    }
  }

  lemma HeaderFields(width: nat, height: nat, rest: seq<byte>)
    requires width < 65536 && height < 65536
    ensures var data := Header(width, height) + rest;
      && data[..6] == SIGNATURE
      && U16(data[6], data[7]) == width && U16(data[8], data[9]) == height
      && Entries(data[10]) == 2
      && data[19..] == rest
  {
    U16LoHi(width);
    U16LoHi(height);
    HeaderTable();
  }

  lemma ViewOfFile(width: nat, height: nat, body: seq<byte>, frames: seq<Frame>)
    requires 0 < width < 65536 && 0 < height < 65536 && Reads(body, frames)
    ensures View(Header(width, height) + (body + [0x3b])) == Some(Screen(width, height, frames))
  {
    var data := Header(width, height) + (body + [0x3b]);
    HeaderFields(width, height, body + [0x3b]);
    var global := ReadTable(data[13..], 2);
    assert ReadBlocks([0x3b], NO_CONTROL, global) == Some([]);
    assert ReadBlocks(body + [0x3b], NO_CONTROL, global) == Then(frames, Some([]));
    assert frames + [] == frames;
    assert ReadGif(data) == Some(Gif(width, height, frames));
  }

  lemma HeaderTable()
    ensures HasTable(0xf0) && Entries(0xf0) == 2
  {
    assert 0xf0 / 128 == 1 && 0xf0 % 8 == 0;
    assert Pow2(0) == 1 && Pow2(1) == 2;
  }

  // ----- The palettized frame.

  /** What palettizing leaves in the buffer of the writer, for a palette with the given contents. */
  ghost predicate Quantized(last: Option<seq<Rgb>>, next: seq<Rgb>, out: seq<Pixel>, p: Plan, depth: nat,
                            dither: bool, width: nat)
    requires 2 <= depth <= 8 && p.Sized() && Pow2(depth) <= 256
    requires last.Some? ==> |last.value| == |next|
  {
    && |out| == |next|
    && if dither then
         var j := D.Job(next, last, p, depth, width);
         forall k :: 0 <= k < |out| ==> out[k] == D.Dithered(j, k)
       else
         forall k :: 0 <= k < |out| ==> out[k] == Palettized(At(last, k), next[k], p, depth)
  }

  lemma QuantizedIndices(last: Option<seq<Rgb>>, next: seq<Rgb>, out: seq<Pixel>, p: Plan, depth: nat,
                         dither: bool, width: nat)
    requires 2 <= depth <= 8 && p.Sized() && Pow2(depth) <= 256
    requires last.Some? ==> |last.value| == |next|
    requires Quantized(last, next, out, p, depth, dither, width)
    ensures Indices(depth, Alphas(out))
  {
    Pow2Table();
    if depth > 2 {
      Pow2Grows(2, depth);
    }
    if dither {
      forall k | 0 <= k < |out| ensures out[k].a as int < Pow2(depth) {
        assert out[k] == D.Dithered(D.Job(next, last, p, depth, width), k);
        D.IndexInTable(D.Job(next, last, p, depth, width), k);
      }
    }
  }

  /** A size at which dithering never fails, whatever the image and the palette. */
  ghost predicate Tame(dither: bool, width: nat, height: nat) {
    dither ==> width >= 2 && P.Calm(width, Area(width, height))
  }

  lemma ModerateIsTame(dither: bool, width: nat, height: nat)
    requires width >= 2 && height <= P.MAX_HEIGHT
    ensures Tame(dither, width, height)
  {
    P.ModerateIsCalm(width, height);
  }

  /** No pixel of a dithered frame gets lost. */
  ghost predicate AllSound(last: Option<seq<Rgb>>, next: seq<Rgb>, p: Plan, depth: nat, width: nat)
    requires 2 <= depth <= 8 && p.Sized() && Pow2(depth) <= 256
    requires last.Some? ==> |last.value| == |next|
  {
    var j := D.Job(next, last, p, depth, width);
    forall k :: 0 <= k < |next| ==> B.Sound(j, k)
  }

  lemma TameSound(last: Option<seq<Rgb>>, next: seq<Rgb>, p: Plan, depth: nat, width: nat, height: nat)
    requires 2 <= depth <= 8 && p.Sized() && Pow2(depth) <= 256 && BottomNode(p.elt, p.split, depth)
    requires last.Some? ==> |last.value| == |next|
    requires |next| == Area(width, height) && P.Calm(width, Area(width, height))
    ensures AllSound(last, next, p, depth, width)
  {
    var j := D.Job(next, last, p, depth, width);
    forall k | 0 <= k < |next|
      ensures B.Sound(j, k)
    {
      P.CalmSound(j, k);
    }
  }

  lemma QuantizedAgrees(last: Option<seq<Rgb>>, next: seq<Rgb>, out: seq<Pixel>, p: Plan, depth: nat,
                        dither: bool, width: nat, height: nat, canvas: Canvas)
    requires 2 <= depth <= 8 && p.Sized() && Pow2(depth) <= 256 && BottomNode(p.elt, p.split, depth)
    requires last.Some? ==> |last.value| == |next| && canvas == last.value
    requires |canvas| == |next| == Area(width, height)
    requires dither ==> width >= 2 && AllSound(last, next, p, depth, width)
    requires Quantized(last, next, out, p, depth, dither, width)
    ensures forall k :: 0 <= k < |out| ==> Agrees(canvas[k], out[k], Table(p.color, Pow2(depth)))
  {
    forall k | 0 <= k < |out|
      ensures Agrees(canvas[k], out[k], Table(p.color, Pow2(depth)))
    {
      if dither {
        var j := D.Job(next, last, p, depth, width);
        assert B.Sound(j, k) && out[k] == D.Dithered(j, k);
        D.NothingLost(j, k);
      } else {
        assert out[k] == Palettized(At(last, k), next[k], p, depth);
        Pow2Small(depth);
      }
    }
  }

  /** A viewer in step before a frame shows the palettized frame after it. */
  lemma FrameShown(width: nat, height: nat, frames: seq<Frame>, g: Frame, last: Option<seq<Rgb>>, next: seq<Rgb>,
                   out: seq<Pixel>, p: Plan, depth: nat, dither: bool)
    requires 0 < width && 2 <= depth <= 8 && p.Sized() && Pow2(depth) <= 256 && BottomNode(p.elt, p.split, depth)
    requires forall h :: h in frames ==> WholeCanvas(h, width, height)
    requires WholeCanvas(g, width, height) && g.palette == Table(p.color, Pow2(depth)) && g.indices == Alphas(out)
    requires last.Some? ==> |last.value| == |next| && Screen(width, height, frames) == last.value
    requires |next| == Area(width, height) && (dither ==> width >= 2 && AllSound(last, next, p, depth, width))
    requires Quantized(last, next, out, p, depth, dither, width)
    ensures Screen(width, height, frames + [g]) == Colors(out)
  {
    var canvas := Screen(width, height, frames);
    ScreenSnoc(width, height, frames, g);
    LeftInPlace(width, height, frames);
    QuantizedAgrees(last, next, out, p, depth, dither, width, height, canvas);
    DrawAgrees(g, width, height, canvas, out);
  }

  /** A pixel that got lost shows, if there was a frame before. */
  lemma LossShown(width: nat, height: nat, frames: seq<Frame>, g: Frame, last: seq<Rgb>, next: seq<Rgb>,
                  out: seq<Pixel>, p: Plan, depth: nat, k: nat)
    requires width >= 2 && 2 <= depth <= 8 && p.Sized() && Pow2(depth) <= 256
    requires forall h :: h in frames ==> WholeCanvas(h, width, height)
    requires WholeCanvas(g, width, height) && g.palette == Table(p.color, Pow2(depth)) && g.indices == Alphas(out)
    requires |next| == |last| == Area(width, height) && Screen(width, height, frames) == last && k < |next|
    requires Quantized(Some(last), next, out, p, depth, true, width)
    requires !B.Sound(D.Job(next, Some(last), p, depth, width), k)
    ensures Screen(width, height, frames + [g]) != Colors(out)
  {
    var j := D.Job(next, Some(last), p, depth, width);
    assert out[k] == D.Dithered(j, k);
    D.NothingLost(j, k);
    B.UnsoundIsLost(j, k);
    ScreenSnoc(width, height, frames, g);
    LeftInPlace(width, height, frames);
    PaintWhole(g, width, height, k, last[k]);
    assert Draw(width, last, g)[k] == last[k] != Colors(out)[k];
  }

  /** In the first frame it does not: the pixel is taken for black, and the viewer begins with black. */
  lemma FirstShown(width: nat, height: nat, g: Frame, next: seq<Rgb>, out: seq<Pixel>, p: Plan, depth: nat)
    requires width >= 2 && 2 <= depth <= 8 && p.Sized() && Pow2(depth) <= 256 && p.color[0] == BACKGROUND
    requires WholeCanvas(g, width, height) && g.palette == Table(p.color, Pow2(depth)) && g.indices == Alphas(out)
    requires |next| == Area(width, height) && Quantized(None, next, out, p, depth, true, width)
    ensures Screen(width, height, [g]) == Colors(out)
  {
    var canvas := Screen(width, height, []);
    ScreenSnoc(width, height, [], g);
    assert [] + [g] == [g];
    forall k | 0 <= k < |out|
      ensures Agrees(canvas[k], out[k], Table(p.color, Pow2(depth)))
    {
      var j := D.Job(next, None, p, depth, width);
      assert out[k] == D.Dithered(j, k);
      D.NothingLost(j, k);
      B.FirstIsEntry(j, k);
      Pow2Small(depth);
    }
    DrawAgrees(g, width, height, canvas, out);
  }

  /** When a viewer that was in step before a frame is in step after it. */
  ghost predicate InStepWhen(inStep: bool, last: Option<seq<Rgb>>, next: seq<Rgb>, p: Plan, depth: nat, dither: bool,
                             width: nat, height: nat)
    requires 2 <= depth <= 8 && p.Sized() && Pow2(depth) <= 256
    requires last.Some? ==> |last.value| == |next|
  {
    && (Tame(dither, width, height) ==> inStep)
    && (dither && width >= 2 ==> (inStep <==> last.None? || AllSound(last, next, p, depth, width)))
  }

  lemma InStepIff(width: nat, height: nat, frames: seq<Frame>, g: Frame, last: Option<seq<Rgb>>, next: seq<Rgb>,
                  out: seq<Pixel>, p: Plan, depth: nat, dither: bool)
    requires 0 < width && 2 <= depth <= 8 && p.Sized() && Pow2(depth) <= 256 && BottomNode(p.elt, p.split, depth)
    requires forall h :: h in frames ==> WholeCanvas(h, width, height)
    requires WholeCanvas(g, width, height) && g.palette == Table(p.color, Pow2(depth)) && g.indices == Alphas(out)
    requires |next| == Area(width, height)
    requires last.Some? ==> |last.value| == |next| && Screen(width, height, frames) == last.value
    requires Quantized(last, next, out, p, depth, dither, width)
    requires p.color[0] == BACKGROUND && (last.None? ==> frames == [])
    ensures InStepWhen(Screen(width, height, frames + [g]) == Colors(out), last, next, p, depth, dither, width, height)
  {
    if Tame(dither, width, height) && dither {
      TameSound(last, next, p, depth, width, height);
    }
    if !dither || (width >= 2 && AllSound(last, next, p, depth, width)) {
      FrameShown(width, height, frames, g, last, next, out, p, depth, dither);
    } else if width >= 2 && last.None? {
      FirstShown(width, height, g, next, out, p, depth);
      assert frames + [g] == [g];
    } else if width >= 2 {
      var k :| 0 <= k < |next| && !B.Sound(D.Job(next, last, p, depth, width), k);
      LossShown(width, height, frames, g, last.value, next, out, p, depth, k);
    }
  }

  /** A palette in memory that nothing has initialized, but for what its tree may hold. */
  method NewPalette() returns (pal: GifPalette)
    ensures fresh(pal) && pal.Contents().Sized()
    ensures forall i :: 0 <= i < 256 ==> pal.treeSplitElt[i] < 3
  {
    var memory: seq<Rgb> :| |memory| == 256 by { assert |seq(256, _ => Rgb(0, 0, 0))| == 256; }
    var elts: seq<nat> :| |elts| == 256 && forall i :: 0 <= i < 256 ==> elts[i] < 3 by {
      var zeros: seq<nat> := seq(256, _ => 0);
      assert |zeros| == 256 && forall i :: 0 <= i < 256 ==> zeros[i] < 3;
    }
    var splits: seq<byte> :| |splits| == 256 by { assert |seq(256, _ => 0 as byte)| == 256; }
    pal := new GifPalette(memory, elts, splits);
  }

  class GifWriter {
    const f: Sink
    const oldImage: array<Pixel>
    const width: nat
    const height: nat
    var firstFrame: bool

    /** The bytes behind the header, and the frames in them. */
    ghost var body: seq<byte>
    ghost var frames: seq<Frame>

    ghost predicate Valid()
      reads this, f
    {
      && 0 < width < 65536 && 0 < height < 65536 && oldImage.Length == Area(width, height)
      && f.data == Header(width, height) + body
      && Reads(body, frames)
      && (forall g :: g in frames ==> WholeCanvas(g, width, height))
      && (firstFrame <==> frames == [])
    }

    /** A viewer shows the image that the writer compares the next frame with. */
    ghost predicate InSync()
      reads this, oldImage
    {
      width > 0 && (!firstFrame ==> Screen(width, height, frames) == Colors(oldImage[..]))
    }

    constructor GifBegin(f: Sink, width: nat, height: nat, delay: nat)
      requires f.data == [] && 0 < width < 65536 && 0 < height < 65536
      modifies f
      ensures this.f == f && this.width == width && this.height == height && fresh(oldImage)
      ensures Valid() && InSync() && frames == []
    {
      this.f := f;
      this.width, this.height := width, height;
      oldImage := new Pixel[Area(width, height)](_ => Pixel(0, 0, 0, 0));
      firstFrame := true;
      body := if delay != 0 then LoopExtension() else [];
      frames := [];
      new;
      EmptyBody();
      assert [] + Header(width, height) == Header(width, height);
      f.Write(Header(width, height));
      if delay != 0 {
        f.Write(LoopExtension());
      } else {
        assert Header(width, height) + [] == Header(width, height);
      }
    }

    /** The palette of a frame, and the frame reduced to it, over the previous image. */
    method Palettize(image: array<Pixel>, bitDepth: nat, dither: bool, pal: GifPalette)
      requires Valid() && 2 <= bitDepth <= 8
      requires image.Length == oldImage.Length && image != oldImage
      requires pal.Contents().Sized() && forall i :: 0 <= i < 256 ==> pal.treeSplitElt[i] < 3
      modifies oldImage, pal
      ensures pal.Valid() && pal.bitDepth == bitDepth && Pow2(bitDepth) <= 256
      ensures BottomNode(pal.treeSplitElt, pal.treeSplit, bitDepth)
      ensures Quantized(old(Last()), Colors(image[..]), oldImage[..], pal.Contents(), bitDepth, dither, width)
      ensures FitFor(pal.Contents(), Fed(if dither then None else old(Last()), Colors(image[..])), bitDepth, dither)
      ensures pal.color[0] == Rgb(0, 0, 0)
    {
      D.DepthFits(bitDepth);
      var last: array?<Pixel> := if firstFrame then null else oldImage;
      GifMakePalette(if dither then null else last, image, bitDepth, dither, pal);
      if dither {
        D.GifDitherImage(last, image, oldImage, width, height, pal);
      } else {
        GifThresholdImage(last, image, oldImage, pal);
      }
    }

    /** The image before the next frame, if there is one. */
    ghost function Last(): Option<seq<Rgb>>
      reads this, oldImage
    {
      if firstFrame then None else Some(Colors(oldImage[..]))
    }

    /** The compressed frame goes to the file. */
    method WriteImage(delay: nat, pal: GifPalette) returns (ghost frame: Frame)
      requires Valid() && pal.Valid() && Indices(pal.bitDepth, Alphas(oldImage[..]))
      modifies this, f
      ensures Valid() && !firstFrame && Pow2(pal.bitDepth) <= 256
      ensures frame == Frame(0, 0, width, height, ControlFor(delay), Table(pal.color, Pow2(pal.bitDepth)),
                             Alphas(oldImage[..]))
      ensures frames == old(frames) + [frame] && WholeCanvas(frame, width, height)
    {
      firstFrame := false;
      AreaIsProduct(width, height);
      ghost var chunk := GifWriteLzwImage(f, oldImage, 0, 0, width, height, delay, pal);
      frame := Frame(0, 0, width, height, ControlFor(delay), Table(pal.color, Pow2(pal.bitDepth)), Alphas(oldImage[..]));
      ReadsMore(body, frames, chunk, frame);
      Assoc(Header(width, height), body, chunk);
      body := body + chunk;
      frames := frames + [frame];
    }

    /**
     * One more frame. The image kept is the palettized frame, and a viewer shows exactly it: always without dithering,
     * and with dithering at sizes that are calm. At any size above width 1 it shows exactly it if and only if this is
     * the first frame or no pixel gets lost.
     */
    method GifWriteFrame(image: array<Pixel>, delay: nat, bitDepth: nat, dither: bool) returns (ghost plan: Plan)
      requires Valid() && 2 <= bitDepth <= 8
      requires image.Length == oldImage.Length && image != oldImage
      modifies this, f, oldImage
      ensures Valid() && !firstFrame && |frames| == |old(frames)| + 1 && frames[..|old(frames)|] == old(frames)
      ensures plan.Sized() && Pow2(bitDepth) <= 256
      ensures Quantized(old(Last()), Colors(image[..]), oldImage[..], plan, bitDepth, dither, width)
      ensures FitFor(plan, Fed(if dither then None else old(Last()), Colors(image[..])), bitDepth, dither)
      ensures plan.color[0] == Rgb(0, 0, 0)
      ensures old(InSync()) ==>
        InStepWhen(InSync(), old(Last()), Colors(image[..]), plan, bitDepth, dither, width, height)
    {
      var pal := NewPalette();
      ghost var (last, before, next, inStep) := (Last(), frames, Colors(image[..]), InSync());
      Palettize(image, bitDepth, dither, pal);
      plan := pal.Contents();
      QuantizedIndices(last, next, oldImage[..], plan, bitDepth, dither, width);
      ghost var g := WriteImage(delay, pal);
      if inStep {
        InStepIff(width, height, before, g, last, next, oldImage[..], plan, bitDepth, dither);
      }
    }

    /** The end of the file. A viewer that plays it ends on the last image. */
    method GifEnd()
      requires Valid()
      modifies f
      ensures View(f.data) == Some(Screen(width, height, frames))
      ensures InSync() && !firstFrame ==> View(f.data) == Some(Colors(oldImage[..]))
    {
      ViewOfFile(width, height, body, frames);
      Assoc(Header(width, height), body, [0x3b]);
      f.Put(0x3b);
    }
  }
}
