/** A movie of two frames after which a viewer does not show what the writer takes for its last image. */
module GifMovieFails {
  import opened Bytes
  import opened Files
  import opened GifPixels
  import opened GifPartition
  import opened GifColors
  import opened GifTree
  import opened GifMedianSplit
  import opened GifPalettes
  import opened GifPaletteMaker
  import opened GifThreshold
  import opened GifViewer
  import D = GifDither
  import B = GifDitherBound
  import opened GifDitherFails
  import opened GifMovie

  lemma OnlyBlue(c: Rgb, s: seq<Pixel>)
    requires Within(c, s) && forall k :: 0 <= k < |s| ==> s[k].Color() == BLUE
    ensures c == BLUE
  {
    assert AtMost(s, 0, 0) && AtMost(s, 1, 0) && AtLeast(s, 2, 255);
  }

  /** A blue image stays blue. */
  lemma BlueStays(next: seq<Rgb>, out: seq<Pixel>, p: Plan, width: nat)
    requires p.Sized() && Pow2(2) <= 256 && |next| >= 3 && forall k :: 0 <= k < |next| ==> next[k] == BLUE
    requires FitFor(p, next, 2, false) && Quantized(None, next, out, p, 2, false, width)
    ensures forall k :: 0 <= k < |out| ==> out[k].Color() == BLUE
  {
    Pow2Table();
    forall k | 0 <= k < |out|
      ensures out[k].Color() == BLUE
    {
      NearestColor(None, next[k], p, 2);
      OnlyBlue(p.color[out[k].a], Painted(next));
    }
  }

  method BlueFrame(w: GifWriter)
    requires w.Valid() && w.InSync() && w.firstFrame && w.oldImage.Length == 34000
    modifies w, w.f, w.oldImage
    ensures w.Valid() && w.InSync() && !w.firstFrame && |w.frames| == |old(w.frames)| + 1
    ensures forall k :: 0 <= k < w.oldImage.Length ==> w.oldImage[k].Color() == BLUE
  {
    var image := new Pixel[34000](_ => Pixel(0, 0, 255, 0));
    ghost var plan := w.GifWriteFrame(image, 0, 2, false);
    BlueStays(Colors(image[..]), w.oldImage[..], plan, w.width);
  }

  method StripesOf(n: nat) returns (image: array<Pixel>)
    requires n == 34000
    ensures fresh(image) && image.Length == n && Colors(image[..]) == Stripes()
  {
    image := new Pixel[n](k =>
      if k < 5666 then Pixel(255, 0, 0, 0) else if k < 11333 then Pixel(0, 0, 0, 0) else Pixel(0, 255, 0, 0));
  }

  /** After a blue image the dithered stripes put the viewer out of step, although it was in step before. */
  method StripedFrame(w: GifWriter)
    requires w.Valid() && w.InSync() && !w.firstFrame && w.width == 2 && w.oldImage.Length == 34000
    requires forall k :: 0 <= k < w.oldImage.Length ==> w.oldImage[k].Color() == BLUE
    modifies w, w.f, w.oldImage
    ensures w.Valid() && !w.InSync() && !w.firstFrame && |w.frames| == |old(w.frames)| + 1
  {
    var image := StripesOf(34000);
    ghost var last := w.Last();
    ghost var plan := w.GifWriteFrame(image, 0, 2, true);
    StripesLost(plan, last, 5660);
    OutOfStep(w.InSync(), last, Stripes(), plan, 2, 2, w.height);
  }

  lemma OutOfStep(inStep: bool, last: Option<seq<Rgb>>, next: seq<Rgb>, p: Plan, depth: nat, width: nat, height: nat)
    requires 2 <= depth <= 8 && p.Sized() && Pow2(depth) <= 256 && width >= 2
    requires last.Some? && |last.value| == |next| && !AllSound(last, next, p, depth, width)
    requires InStepWhen(inStep, last, next, p, depth, true, width, height)
    ensures !inStep
  {
  }

  lemma StripesLost(p: Plan, last: Option<seq<Rgb>>, k: nat)
    requires p.Sized() && Pow2(2) <= 256 && p.color[0] == BACKGROUND && FitFor(p, Stripes(), 2, true) && k == 5660
    requires last.Some? && |last.value| == 34000 && forall i :: 0 <= i < 34000 ==> last.value[i] == BLUE
    ensures !AllSound(last, Stripes(), p, 2, 2)
  {
    TallFails(p, last, k);
    assert !B.Sound(D.Job(Stripes(), last, p, 2, 2), k);
  }

  /** So a movie of these two frames does not show what the writer takes for its last image. */
  method TallMovie(f: Sink, height: nat) returns (w: GifWriter)
    requires f.data == [] && height == 17000
    modifies f
    ensures w.Valid() && w.f == f && w.width == 2 && w.height == height && |w.frames| == 2
    ensures fresh(w) && fresh(w.oldImage) && Screen(2, height, w.frames) != Colors(w.oldImage[..])
  {
    AreaIsProduct(2, height);
    w := new GifWriter.GifBegin(f, 2, height, 0);
    BlueFrame(w);
    StripedFrame(w);
  }
}
