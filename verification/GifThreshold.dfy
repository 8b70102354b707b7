/** Palettizing a frame by thresholding, in place over the previous frame. */
module GifThreshold {
  import opened Bytes
  import opened GifPixels
  import opened GifTree
  import opened GifMedianSplit
  import opened GifPalettes
  import opened GifPaletteMaker

  function WantedColor(c: Rgb): Wanted {
    Wanted(c.r as int, c.g as int, c.b as int)
  }

  function Search(p: Plan, depth: nat, c: Rgb): (best: Best)
    requires p.Sized() && Pow2(depth) <= 256
    ensures Replaces(p.color, depth, WantedColor(c), Best(1, MAX_DIFF), best)
  {
    Closest(p.color, p.elt, p.split, depth, WantedColor(c), Best(1, MAX_DIFF), 1)
  }

  /** A pixel that shows its color already becomes transparent; any other gets a palette color. */
  function Palettized(last: Option<Rgb>, next: Rgb, p: Plan, depth: nat): Pixel
    requires p.Sized() && Pow2(depth) <= 256
  {
    if last == Some(next) then Pixel(next.r, next.g, next.b, TRANS_INDEX)
    else
      var ind := Search(p, depth, next).ind;
      var c := p.color[ind];
      Pixel(c.r, c.g, c.b, ind as byte)
  }

  function At(frame: Option<seq<Rgb>>, k: nat): Option<Rgb>
    requires frame.Some? ==> k < |frame.value|
  {
    if frame.Some? then Some(frame.value[k]) else None
  }

  /** The output buffer may be the one that holds the last frame. */
  method GifThresholdImage(lastFrame: array?<Pixel>, nextFrame: array<Pixel>, outFrame: array<Pixel>, pal: GifPalette)
    requires pal.Valid() && Pow2(pal.bitDepth) <= 256
    requires nextFrame.Length == outFrame.Length && nextFrame != outFrame
    requires lastFrame != null ==> lastFrame == outFrame
    modifies outFrame
    ensures forall k :: 0 <= k < outFrame.Length ==>
      outFrame[k] == Palettized(At(old(Shown(lastFrame)), k), nextFrame[k].Color(), pal.Contents(), pal.bitDepth)
  {
    for ii := 0 to outFrame.Length
      invariant forall k :: 0 <= k < ii ==>
        outFrame[k] == Palettized(At(old(Shown(lastFrame)), k), nextFrame[k].Color(), pal.Contents(), pal.bitDepth)
      invariant forall k :: ii <= k < outFrame.Length ==> outFrame[k] == old(outFrame[k])
    {
      var next := nextFrame[ii];
      if lastFrame != null && lastFrame[ii].r == next.r && lastFrame[ii].g == next.g && lastFrame[ii].b == next.b {
        outFrame[ii] := Pixel(lastFrame[ii].r, lastFrame[ii].g, lastFrame[ii].b, TRANS_INDEX);
      } else {
        var best := Closest(pal.color, pal.treeSplitElt, pal.treeSplit, pal.bitDepth, WantedColor(next.Color()),
                            Best(1, MAX_DIFF), 1);
        var c := pal.color[best.ind];
        outFrame[ii] := Pixel(c.r, c.g, c.b, best.ind as byte);
      }
    }
  }

  /**
   * With a palette made from enough pixels, a pixel that is not transparent gets the closest of
   * all the colors in the palette: no entry but the reserved one is nearer.
   */
  lemma NearestColor(last: Option<Rgb>, next: Rgb, p: Plan, depth: nat)
    requires 2 <= depth <= 8 && Complete(p, depth)
    requires last != Some(next)
    ensures var out := Palettized(last, next, p, depth);
      && 0 < out.a as int < Pow2(depth)
      && out.Color() == p.color[out.a]
      && forall e :: 0 < e < Pow2(depth) ==>
        Distance(WantedColor(next), out.Color()) <= Distance(WantedColor(next), p.color[e])
  {
    RootRange(depth);
    ClosestExact(p.color, p.elt, p.split, depth, WantedColor(next), 1, depth, 0);
    assert Distance(WantedColor(next), p.color[1]) <= 765;
  }
}
