/** Making a palette for a frame, and what a search of it finds. */
module GifPaletteMaker {
  import opened Bytes
  import opened GifPixels
  import opened GifPartition
  import opened GifTree
  import opened GifMedianSplit
  import opened GifPalettes

  /** The colors of the pixels that have changed, in order. */
  function Changed(last: seq<Rgb>, next: seq<Rgb>): seq<Rgb>
    requires |last| == |next|
  {
    if next == [] then [] else
      var n := |next| - 1;
      Changed(last[..n], next[..n]) + if last[n] != next[n] then [next[n]] else []
  }

  lemma ChangedStep(last: seq<Rgb>, next: seq<Rgb>, n: nat, n': nat)
    requires |last| == |next| && n < |next| && n' == n + 1
    ensures Changed(last[..n'], next[..n'])
         == Changed(last[..n], next[..n]) + if last[n] != next[n] then [next[n]] else []
  {
    assert last[..n'][..n] == last[..n] && next[..n'][..n] == next[..n];
  }

  /** Pixels that have changed come first; how many there are is the result. */
  method GifPickChangedPixels(lastFrame: array<Pixel>, frame: array<Pixel>) returns (numChanged: nat)
    requires lastFrame != frame && lastFrame.Length == frame.Length
    modifies frame
    ensures numChanged <= frame.Length
    ensures Colors(frame[..numChanged]) == Changed(Colors(lastFrame[..]), old(Colors(frame[..])))
  {
    numChanged := 0;
    ghost var (last, next) := (Colors(lastFrame[..]), Colors(frame[..]));
    var ii := 0;
    while ii < frame.Length
      invariant numChanged <= ii <= frame.Length
      invariant last == Colors(lastFrame[..])
      invariant forall k :: ii <= k < frame.Length ==> frame[k] == old(frame[k])
      invariant Colors(frame[..numChanged]) == Changed(last[..ii], next[..ii])
    {
      var ii' := ii + 1;
      ChangedStep(last, next, ii, ii');
      var (p, q) := (lastFrame[ii], frame[ii]);
      if p.r != q.r || p.g != q.g || p.b != q.b {
        ghost var before := Colors(frame[..numChanged]);
        frame[numChanged] := Pixel(q.r, q.g, q.b, frame[numChanged].a);
        var next' := numChanged + 1;
        assert Colors(frame[..next']) == before + [q.Color()];
        numChanged := next';
      }
      ii := ii';
    }
    assert last[..ii] == last && next[..ii] == next;
  }

  // ----- The node above the reserved entry.

  lemma {:induction false} LeafUnder(node: nat, level: nat)
    requires node > 0
    ensures Under(Leaf(node, level), node)
    decreases level
  {
    if level > 0 {
      LeafUnder(Left(node), level - 1);
      UnderChild(Leaf(node, level), node, Left(node));
    }
  }

  /** The tree promises nothing about the node above entry 1, so it may be overwritten. */
  lemma {:induction false} BottomIsFree(color: seq<Rgb>, elt: seq<nat>, split: seq<byte>, node: nat, level: nat, bottom: nat)
    requires node > 0 && level > 0 && KdTree(color, elt, split, node, level, 0)
    requires bottom == Leaf(node, level - 1) && bottom < |elt| == |split|
    ensures KdTree(color, elt[bottom := 0], split[bottom := 0], node, level, 0)
    decreases level
  {
    if level > 1 {
      var below := level - 1;
      LeafBelow(node, below);
      BottomIsFree(color, elt, split, Left(node), below, bottom);
      LeafUnder(Left(node), below - 1);
      UnderOneChild(bottom, node);
      KdTreeFrame(color, elt, split, color, elt[bottom := 0], split[bottom := 0], Right(node), below, Pow2(below));
    }
  }

  /** Nor does it matter for what the splits have made of the pixels. */
  lemma {:induction false} BottomNotMade(q: Plan, r: Plan, s: seq<Pixel>, node: nat, level: nat, depth: nat, dither: bool,
                                         bottom: nat)
    requires node > 0 && level > 0 && Made(q, s, node, level, 0, depth, dither)
    requires bottom == Leaf(node, level - 1) && bottom < |q.elt| == |q.split|
    requires r == Plan(q.color, q.elt[bottom := 0], q.split[bottom := 0])
    ensures Made(r, s, node, level, 0, depth, dither)
    decreases level
  {
    if level > 1 && s != [] {
      var below: nat := level - 1;
      var c := Center(|s|, below, 0);
      var t := MadeParts(q, s, node, level, below, 0, depth, dither, c);
      LeafBelow(node, below);
      BottomNotMade(q, r, t[..c], Left(node), below, depth, dither, bottom);
      BottomElsewhere(q, r, node, below, bottom);
      MadeFrame(q, r, t[c..], Right(node), below, Pow2(below), depth, dither);
      assert SplitAt(r, s, t, node, c);
      assert Halves(r, s, t, node, below, 0, depth, dither, c);
      MadeNode(r, s, t, node, level, below, 0, depth, dither, c);
    }
  }

  lemma BottomElsewhere(q: Plan, r: Plan, node: nat, below: nat, bottom: nat)
    requires node > 0 && below > 0 && bottom == Leaf(node, below) && bottom < |q.elt| == |q.split|
    requires r == Plan(q.color, q.elt[bottom := 0], q.split[bottom := 0])
    ensures SameBelow(q, r, Right(node), below, Pow2(below))
  {
    LeafUnder(Left(node), below - 1);
    UnderOneChild(bottom, node);
  }

  lemma {:induction false} LeafOfPower(node: nat, level: nat)
    ensures Leaf(node, level) == node * Pow2(level)
    decreases level
  {
    if level > 0 {
      LeafOfPower(Left(node), level - 1);
      assert node * (2 * Pow2(level - 1)) == 2 * node * Pow2(level - 1);
    }
  }

  lemma RootRange(depth: nat)
    requires 2 <= depth <= 8
    ensures EntryRange(depth, 1, depth, 0, 1, Pow2(depth))
    ensures SplitEntry(depth, 0, Pow2(depth - 1), Pow2(depth - 2))
    ensures Leaf(1, depth - 1) == Pow2(depth - 1) < 256
  {
    LeafOfPower(1, depth);
    LeafOfPower(1, depth - 1);
    Pow2Table();
    Pow2Grows(depth - 1, 8);
  }

  // ----- The palette.

  /** The pixels that a palette is made for: all of them, or those that differ from the last frame. */
  function Fed(lastFrame: Option<seq<Rgb>>, nextFrame: seq<Rgb>): seq<Rgb>
    requires lastFrame.Some? ==> |lastFrame.value| == |nextFrame|
  {
    match lastFrame
    case None => nextFrame
    case Some(last) => Changed(last, nextFrame)
  }

  /** Pixels of these colors. */
  function Painted(colors: seq<Rgb>): (s: seq<Pixel>)
    ensures |s| == |colors| && Colors(s) == colors
    ensures forall k :: 0 <= k < |s| ==> s[k].Color() == colors[k]
  {
    seq(|colors|, k requires 0 <= k < |colors| => Pixel(colors[k].r, colors[k].g, colors[k].b, 0))
  }

  /** The palette is a k-d tree over its entries, in which any search starts at node 1. */
  ghost predicate Complete(p: Plan, depth: nat) {
    && p.Sized() && 0 < depth && Pow2(depth) <= 256
    && p.Tree(1, depth, 0)
    && BottomNode(p.elt, p.split, depth)
  }

  /** The split is destructive, so it works on a copy of the pixels that feed the palette. */
  method CopyFedPixels(lastFrame: array?<Pixel>, nextFrame: array<Pixel>)
    returns (destroyableImage: array<Pixel>, numPixels: nat)
    requires lastFrame != null ==> lastFrame.Length == nextFrame.Length
    ensures fresh(destroyableImage) && numPixels <= destroyableImage.Length
    ensures Colors(destroyableImage[..numPixels]) == Fed(Shown(lastFrame), Colors(nextFrame[..]))
  {
    destroyableImage := new Pixel[nextFrame.Length](i requires 0 <= i < nextFrame.Length reads nextFrame => nextFrame[i]);
    assert destroyableImage[..] == nextFrame[..];
    numPixels := nextFrame.Length;
    if lastFrame != null {
      numPixels := GifPickChangedPixels(lastFrame, destroyableImage);
    } else {
      assert destroyableImage[..numPixels] == nextFrame[..];
    }
  }

  /** The palette with its reserved entry, and the node above it that sends every search to the right. */
  function WithBottom(p: Plan, bottom: nat): Plan
    requires 0 < |p.color| && bottom < |p.elt| == |p.split|
  {
    Plan(p.color[0 := Rgb(0, 0, 0)], p.elt[bottom := 0], p.split[bottom := 0])
  }

  lemma MadeWithBottom(p: Plan, s: seq<Pixel>, depth: nat, dither: bool, bottom: nat)
    requires p.Sized() && 2 <= depth <= 8 && bottom == Pow2(depth - 1) < 256 && Made(p, s, 1, depth, 0, depth, dither)
    ensures Made(WithBottom(p, bottom), s, 1, depth, 0, depth, dither)
  {
    RootRange(depth);
    var q := Plan(p.color, p.elt[bottom := 0], p.split[bottom := 0]);
    BottomNotMade(p, q, s, 1, depth, depth, dither, bottom);
    MadeFrame(q, WithBottom(p, bottom), s, 1, depth, 0, depth, dither);
  }

  /** Reserve the entry of transparent pixels. */
  method AddBottomNode(pal: GifPalette)
    requires pal.Valid()
    modifies pal
    ensures pal.Valid() && pal.bitDepth == old(pal.bitDepth)
    ensures Pow2(pal.bitDepth - 1) < 256 && pal.Contents() == WithBottom(old(pal.Contents()), Pow2(pal.bitDepth - 1))
    ensures BottomNode(pal.treeSplitElt, pal.treeSplit, pal.bitDepth)
  {
    RootRange(pal.bitDepth);
    ghost var p := pal.Contents();
    var bottom := Pow2(pal.bitDepth - 1);
    pal.treeSplit := pal.treeSplit[bottom := 0];
    pal.treeSplitElt := pal.treeSplitElt[bottom := 0];
    pal.color := pal.color[0 := Rgb(0, 0, 0)];
    BottomAdded(p, pal.bitDepth, bottom);
  }

  /** The tree stays what it is, because no color below the bottom node is ever a result. */
  lemma BottomAdded(p: Plan, depth: nat, bottom: nat)
    requires p.Sized() && 2 <= depth <= 8 && bottom == Pow2(depth - 1)
    ensures bottom < 256
    ensures BottomNode(p.elt[bottom := 0], p.split[bottom := 0], depth)
    ensures p.Tree(1, depth, 0) ==> Complete(WithBottom(p, bottom), depth)
  {
    RootRange(depth);
    Pow2Table();
    Pow2Grows(depth - 1, 8);
    if p.Tree(1, depth, 0) {
      BottomIsFree(p.color, p.elt, p.split, 1, depth, bottom);
      KdTreeFrame(p.color, p.elt[bottom := 0], p.split[bottom := 0],
                  p.color[0 := Rgb(0, 0, 0)], p.elt[bottom := 0], p.split[bottom := 0], 1, depth, 0);
    }
  }

  /** The palette suits these colors: it is what the splits make of them, and complete if there are enough of them. */
  ghost predicate FitFor(p: Plan, colors: seq<Rgb>, depth: nat, dither: bool) {
    && Made(p, Painted(colors), 1, depth, 0, depth, dither)
    && (|colors| >= Pow2(depth) - 1 ==>
          Complete(p, depth) && EntriesWithin(p.color, 1, Pow2(depth), Painted(colors)))
  }

  lemma PaletteFits(p: Plan, pixels: seq<Pixel>, depth: nat, dither: bool, q: Plan)
    requires p.Sized() && 2 <= depth <= 8 && Pow2(depth - 1) < 256 && q == WithBottom(p, Pow2(depth - 1))
    requires Built(p, pixels, 1, depth, 0, 1, Pow2(depth)) && Made(p, pixels, 1, depth, 0, depth, dither)
    ensures FitFor(q, Colors(pixels), depth, dither)
  {
    var fed := Painted(Colors(pixels));
    MadeWithBottom(p, pixels, depth, dither, Pow2(depth - 1));
    MadeSame(q, pixels, fed, 1, depth, depth - 1, 0, depth, dither);
    BottomAdded(p, depth, Pow2(depth - 1));
    if |fed| >= Pow2(depth) - 1 {
      EntriesWithinSame(p.color, 1, Pow2(depth), pixels, fed);
    }
  }

  /** Divide the pixels that feed the palette among its entries. */
  method SplitFedPixels(lastFrame: array?<Pixel>, nextFrame: array<Pixel>, bitDepth: nat, buildForDither: bool,
                        pal: GifPalette)
    returns (ghost pixels: seq<Pixel>)
    requires 2 <= bitDepth <= 8 && pal.Valid() && pal.bitDepth == bitDepth
    requires lastFrame != null ==> lastFrame.Length == nextFrame.Length
    modifies pal
    ensures pal.Valid() && pal.bitDepth == bitDepth
    ensures Colors(pixels) == Fed(Shown(lastFrame), Colors(nextFrame[..]))
    ensures Built(pal.Contents(), pixels, 1, bitDepth, 0, 1, Pow2(bitDepth))
    ensures Made(pal.Contents(), pixels, 1, bitDepth, 0, bitDepth, buildForDither)
  {
    var destroyableImage, numPixels := CopyFedPixels(lastFrame, nextFrame);
    pixels := destroyableImage[..numPixels];
    assert destroyableImage[0..numPixels] == pixels;
    RootRange(bitDepth);
    var lastElt := Pow2(bitDepth);
    var splitElt := lastElt / 2;
    var splitDist := splitElt / 2;
    GifSplitPalette(destroyableImage, 0, numPixels, 1, lastElt, splitElt, splitDist, 1, buildForDither, pal, bitDepth, 0);
  }

  /**
   * Whatever was in memory: the entries and nodes are what median splits make of the pixels fed, as far as there are
   * any; with enough pixels for all entries the palette is complete, and every entry keeps within them.
   */
  method GifMakePalette(lastFrame: array?<Pixel>, nextFrame: array<Pixel>, bitDepth: nat, buildForDither: bool,
                        pal: GifPalette)
    requires 2 <= bitDepth <= 8
    requires pal.Contents().Sized() && forall i :: 0 <= i < 256 ==> pal.treeSplitElt[i] < 3
    requires lastFrame != null ==> lastFrame.Length == nextFrame.Length
    modifies pal
    ensures pal.Valid() && pal.bitDepth == bitDepth
    ensures BottomNode(pal.treeSplitElt, pal.treeSplit, pal.bitDepth) && pal.color[0] == Rgb(0, 0, 0)
    ensures FitFor(pal.Contents(), Fed(Shown(lastFrame), Colors(nextFrame[..])), bitDepth, buildForDither)
  {
    pal.bitDepth := bitDepth;
    ghost var pixels := SplitFedPixels(lastFrame, nextFrame, bitDepth, buildForDither, pal);
    ghost var p := pal.Contents();
    AddBottomNode(pal);
    PaletteFits(p, pixels, bitDepth, buildForDither, pal.Contents());
  }
}
