/** The palette builder: a balanced k-d tree over the pixels, organized in heap fashion. */
module GifPalettes {
  import opened Bytes
  import opened GifPixels
  import opened GifPartition
  import opened GifColors
  import opened GifTree
  import opened GifMedianSplit

  class GifPalette {
    var bitDepth: nat
    /** The r, g and b arrays, entry by entry. */
    var color: seq<Rgb>
    /** The split component and position of a node; node i has children 2i and 2i + 1. */
    var treeSplitElt: seq<nat>
    var treeSplit: seq<byte>

    ghost predicate Valid()
      reads this
    {
      && 2 <= bitDepth <= 8
      && |color| == |treeSplitElt| == |treeSplit| == 256
      && forall i :: 0 <= i < 256 ==> treeSplitElt[i] < 3
    }

    function Contents(): Plan
      reads this
    {
      Plan(color, treeSplitElt, treeSplit)
    }

    /** An uninitialized palette: all that is known of the memory is that split components are in range. */
    constructor (memory: seq<Rgb>, elts: seq<nat>, splits: seq<byte>)
      requires |memory| == |elts| == |splits| == 256
      requires forall i :: 0 <= i < 256 ==> elts[i] < 3
      ensures color == memory && treeSplitElt == elts && treeSplit == splits
    {
      bitDepth := 0;
      color, treeSplitElt, treeSplit := memory, elts, splits;
    }
  }

  method LargestRange(image: array<Pixel>, start: nat, end: nat) returns (splitCom: nat)
    requires start <= end <= image.Length
    ensures splitCom == SplitComponent(image[start..end])
  {
    var lo, hi := Rgb(255, 255, 255), Rgb(0, 0, 0);
    var ii := start;
    while ii < end
      invariant start <= ii <= end
      invariant lo == Darkest(image[start..ii]) && hi == Brightest(image[start..ii])
    {
      var p := image[ii];
      var next := ii + 1;
      assert image[start..next][..|image[start..next]| - 1] == image[start..ii];
      hi := Rgb(Greater(hi.r, p.r), Greater(hi.g, p.g), Greater(hi.b, p.b));
      lo := Rgb(Lesser(lo.r, p.r), Lesser(lo.g, p.g), Lesser(lo.b, p.b));
      ii := next;
    }
    var rRange, gRange, bRange := hi.r as int - lo.r as int, hi.g as int - lo.g as int, hi.b as int - lo.b as int;
    splitCom := 1;
    if bRange > gRange {
      splitCom := 2;
    }
    if rRange > bRange && rRange > gRange {
      splitCom := 0;
    }
  }

  // ----- Leaves.

  method DarkestColor(image: array<Pixel>, start: nat, end: nat) returns (c: Rgb)
    requires start <= end <= image.Length
    ensures c == Darkest(image[start..end])
  {
    c := Rgb(255, 255, 255);
    var ii := start;
    while ii < end
      invariant start <= ii <= end
      invariant c == Darkest(image[start..ii])
    {
      var next := ii + 1;
      assert image[start..next][..|image[start..next]| - 1] == image[start..ii];
      c := Rgb(Lesser(c.r, image[ii].r), Lesser(c.g, image[ii].g), Lesser(c.b, image[ii].b));
      ii := next;
    }
  }

  method BrightestColor(image: array<Pixel>, start: nat, end: nat) returns (c: Rgb)
    requires start <= end <= image.Length
    ensures c == Brightest(image[start..end])
  {
    c := Rgb(0, 0, 0);
    var ii := start;
    while ii < end
      invariant start <= ii <= end
      invariant c == Brightest(image[start..ii])
    {
      var next := ii + 1;
      assert image[start..next][..|image[start..next]| - 1] == image[start..ii];
      c := Rgb(Greater(c.r, image[ii].r), Greater(c.g, image[ii].g), Greater(c.b, image[ii].b));
      ii := next;
    }
  }

  method AverageColor(image: array<Pixel>, start: nat, end: nat) returns (c: Rgb)
    requires start < end <= image.Length
    ensures c == MeanColor(image[start..end])
  {
    var r, g, b := 0, 0, 0;
    var ii := start;
    while ii < end
      invariant start <= ii <= end
      invariant r == Sum(image[start..ii], 0) && g == Sum(image[start..ii], 1) && b == Sum(image[start..ii], 2)
    {
      var next := ii + 1;
      assert image[start..next][..|image[start..next]| - 1] == image[start..ii];
      r := r + image[ii].r as int;
      g := g + image[ii].g as int;
      b := b + image[ii].b as int;
      ii := next;
    }
    var numPixels := end - start;
    MeanFits(image[start..end]);
    r := r + numPixels / 2;  // round to nearest
    g := g + numPixels / 2;
    b := b + numPixels / 2;
    c := Rgb((r / numPixels) as byte, (g / numPixels) as byte, (b / numPixels) as byte);
  }

  /** The color of the last element of a subcube: an average, unless dithering asks for an extreme. */
  method LeafColor(image: array<Pixel>, start: nat, end: nat, firstElt: nat, buildForDither: bool, bitDepth: nat)
    returns (c: Rgb)
    requires start < end <= image.Length
    ensures c == LeafChoice(image[start..end], firstElt, buildForDither, bitDepth)
  {
    if buildForDither {
      if firstElt == 1 {
        c := DarkestColor(image, start, end);
        return;
      }
      if firstElt == Pow2(bitDepth) - 1 {
        c := BrightestColor(image, start, end);
        return;
      }
    }
    c := AverageColor(image, start, end);
  }

  // ----- The split.

  /** The entries lo..hi keep within the colors of the pixels they stand for. */
  ghost predicate EntriesWithin(color: seq<Rgb>, lo: nat, hi: nat, s: seq<Pixel>) {
    hi <= |color| && forall e :: lo <= e < hi ==> Within(color[e], s)
  }

  lemma EntriesWithinSame(color: seq<Rgb>, lo: nat, hi: nat, s: seq<Pixel>, t: seq<Pixel>)
    requires EntriesWithin(color, lo, hi, s) && SameColors(s, t)
    ensures EntriesWithin(color, lo, hi, t)
  {
    forall e | lo <= e < hi ensures Within(color[e], t) {
      WithinSame(color[e], s, t);
    }
  }

  lemma EntriesWithinPart(color: seq<Rgb>, lo: nat, hi: nat, s: seq<Pixel>, l: nat, r: nat)
    requires l <= r <= |s| && EntriesWithin(color, lo, hi, s[l..r])
    ensures EntriesWithin(color, lo, hi, s)
  {
    forall e | lo <= e < hi ensures Within(color[e], s) {
      WithinPart(color[e], s, l, r);
    }
  }

  /** The entries of the two halves are on their sides of the center's key. */
  lemma HalvesSplit(color: seq<Rgb>, s: seq<Pixel>, center: nat, elt: nat, lo: nat, mid: nat, hi: nat)
    requires center < |s| && Splits(s, 0, center, |s|, elt)
    requires lo <= mid <= hi
    requires EntriesWithin(color, lo, mid, s[..center]) && EntriesWithin(color, mid, hi, s[center..])
    ensures forall e :: lo <= e < mid ==> Comp(color[e], elt) <= Key(s[center], elt)
    ensures forall e :: mid <= e < hi ==> Key(s[center], elt) <= Comp(color[e], elt)
  {
    var key := Key(s[center], elt);
    assert s[0..center] == s[..center];
    assert s[center..] == [s[center]] + s[center + 1..|s|];
    assert AtMost(s[..center], elt, key) && AtLeast(s[center..], elt, key);
  }

  /** Only the entries lo..hi and the nodes under a node have changed. */
  ghost predicate Touched(p: Plan, q: Plan, lo: nat, hi: nat, node: nat) {
    && p.Sized() && q.Sized()
    && (forall e :: 0 <= e < 256 && !(lo <= e < hi) ==> p.color[e] == q.color[e])
    && (forall t :: 0 <= t < 256 && !Under(t, node) ==> p.elt[t] == q.elt[t] && p.split[t] == q.split[t])
  }

  lemma TouchedBoth(p: Plan, q: Plan, r: Plan, lo: nat, mid: nat, hi: nat, node: nat)
    requires node > 0 && lo <= mid <= hi
    requires Touched(p, q, lo, mid, Left(node)) && Touched(q, r, mid, hi, Right(node))
    ensures Touched(p, r, lo, hi, node)
    ensures node < 256 ==> r.elt[node] == p.elt[node] && r.split[node] == p.split[node]
  {
    forall t | 0 <= t < 256 && (!Under(t, node) || t == node)
      ensures !Under(t, Left(node)) && !Under(t, Right(node))
    {
      if Under(t, Left(node)) { UnderChild(t, node, Left(node)); }
      if Under(t, Right(node)) { UnderChild(t, node, Right(node)); }
    }
  }

  /** Work on the right subtree leaves the left one as it was. */
  lemma LeftTreeKept(q: Plan, r: Plan, node: nat, level: nat, base: nat, mid: nat, hi: nat)
    requires node > 0 && mid == base + Pow2(level)
    requires q.Tree(Left(node), level, base) && Touched(q, r, mid, hi, Right(node))
    ensures r.Tree(Left(node), level, base)
  {
    forall t | 0 <= t < 256 && Under(t, Left(node)) ensures !Under(t, Right(node)) {
      UnderOneChild(t, node);
    }
    KdTreeFrame(q.color, q.elt, q.split, r.color, r.elt, r.split, Left(node), level, base);
  }

  /** One split and two subtrees make a tree. */
  lemma TreeFromSubtrees(p: Plan, q: Plan, r: Plan, s: seq<Pixel>, center: nat,
                         node: nat, level: nat, below: nat, base: nat, lo: nat, mid: nat, hi: nat)
    requires 0 < node < 256 && level == below + 1 && 0 < below + base
    requires lo == First(base) && mid == base + Pow2(below) && hi == base + Pow2(level) && lo < mid < hi
    requires Touched(p, q, lo, mid, Left(node)) && Touched(q, r, mid, hi, Right(node))
    requires q.Tree(Left(node), below, base) && r.Tree(Right(node), below, mid)
    requires center < |s|
    requires EntriesWithin(q.color, lo, mid, s[..center]) && EntriesWithin(r.color, mid, hi, s[center..])
    requires p.elt[node] < 3 && Splits(s, 0, center, |s|, p.elt[node])
    requires p.split[node] as int == Key(s[center], p.elt[node])
    ensures r.Tree(node, level, base) && EntriesWithin(r.color, lo, hi, s)
  {
    TouchedBoth(p, q, r, lo, mid, hi, node);
    LeftTreeKept(q, r, node, below, base, mid, hi);
    assert EntriesWithin(r.color, lo, mid, s[..center]);
    HalvesSplit(r.color, s, center, p.elt[node], lo, mid, hi);
    BothWithin(r.color, lo, mid, hi, s, center);
    KdTreeNode(r.color, r.elt, r.split, node, level, below, base, mid, hi);
  }

  lemma BothWithin(color: seq<Rgb>, lo: nat, mid: nat, hi: nat, s: seq<Pixel>, center: nat)
    requires center <= |s| && lo <= mid <= hi
    requires EntriesWithin(color, lo, mid, s[..center]) && EntriesWithin(color, mid, hi, s[center..])
    ensures EntriesWithin(color, lo, hi, s)
  {
    assert s[0..center] == s[..center] && s[center..|s|] == s[center..];
    EntriesWithinPart(color, lo, mid, s, 0, center);
    EntriesWithinPart(color, mid, hi, s, center, |s|);
  }

  /** The range of entries below a node: entry 0 is reserved, so the leftmost range starts at 1. */
  predicate EntryRange(depth: nat, node: nat, level: nat, base: nat, firstElt: nat, lastElt: nat) {
    && 0 < node && Placed(depth, node, level, base)
    && firstElt == First(base)
    && lastElt == base + Pow2(level)
  }

  /** The entry that a node splits its range at, and its distance from those of its children. */
  predicate SplitEntry(level: nat, base: nat, splitElt: nat, splitDist: nat) {
    && (level > 0 ==> splitElt == base + Pow2(level - 1))
    && splitDist == if level > 1 then Pow2(level - 2) else 0
  }

  lemma ChildRanges(depth: nat, node: nat, level: nat, base: nat, firstElt: nat, lastElt: nat,
                    splitElt: nat, splitDist: nat)
    requires EntryRange(depth, node, level, base, firstElt, lastElt) && SplitEntry(level, base, splitElt, splitDist)
    requires firstElt + 1 < lastElt
    ensures level > 0 && !Bottom(level, base) && node < Pow2(depth)
    ensures firstElt < splitElt < lastElt && splitDist <= splitElt
    ensures EntryRange(depth, Left(node), level - 1, base, firstElt, splitElt)
    ensures EntryRange(depth, Right(node), level - 1, splitElt, splitElt, lastElt)
    ensures SplitEntry(level - 1, base, splitElt - splitDist, splitDist / 2)
    ensures SplitEntry(level - 1, splitElt, splitElt + splitDist, splitDist / 2)
  {
    ChildrenPlaced(depth, node, level, base);
  }

  /** What building a subtree achieves when there are at least as many pixels as entries. */
  ghost predicate Built(q: Plan, s: seq<Pixel>, node: nat, level: nat, base: nat, lo: nat, hi: nat) {
    |s| >= hi - lo ==> q.Tree(node, level, base) && EntriesWithin(q.color, lo, hi, s)
  }

  /** The buffer from start to end is split among the entries from firstElt up to lastElt. */
  method GifSplitPalette(image: array<Pixel>, start: nat, end: nat, firstElt: nat, lastElt: nat,
                         splitElt: nat, splitDist: nat, treeNode: nat, buildForDither: bool, pal: GifPalette,
                         ghost level: nat, ghost base: nat)
    requires pal.Valid() && start <= end <= image.Length
    requires EntryRange(pal.bitDepth, treeNode, level, base, firstElt, lastElt)
    requires SplitEntry(level, base, splitElt, splitDist)
    modifies image, pal
    ensures pal.Valid() && pal.bitDepth == old(pal.bitDepth)
    ensures Rearranged(old(image[..]), image[..], start, end)
    ensures Touched(old(pal.Contents()), pal.Contents(), firstElt, lastElt, treeNode)
    ensures Built(pal.Contents(), old(image[start..end]), treeNode, level, base, firstElt, lastElt)
    ensures Made(pal.Contents(), old(image[start..end]), treeNode, level, base, pal.bitDepth, buildForDither)
    decreases level, 1
  {
    RangeLevel(pal.bitDepth, treeNode, level, base, firstElt, lastElt);
    if lastElt <= firstElt || start == end {
      return;
    }
    EntriesFit(pal.bitDepth, treeNode, level, base, firstElt, lastElt);
    if lastElt == firstElt + 1 {
      var c := LeafColor(image, start, end, firstElt, buildForDither, pal.bitDepth);
      pal.color := pal.color[firstElt := c];
    } else {
      SplitNode(image, start, end, firstElt, lastElt, splitElt, splitDist, treeNode, buildForDither, pal, level, base);
    }
  }

  /** Divide the pixels by the component that varies most, and note where in the node. */
  method Divide(image: array<Pixel>, start: nat, end: nat, firstElt: nat, lastElt: nat, splitElt: nat, treeNode: nat,
                pal: GifPalette)
    returns (center: nat)
    requires pal.Valid() && start < end <= image.Length && firstElt < splitElt < lastElt && 0 < treeNode < 256
    modifies image, pal
    ensures pal.Valid() && pal.bitDepth == old(pal.bitDepth)
    ensures start <= center < end && center - start == Share(end - start, splitElt - firstElt, lastElt - firstElt)
    ensures end - start >= lastElt - firstElt ==> center - start >= splitElt - firstElt && end - center >= lastElt - splitElt
    ensures Rearranged(old(image[..]), image[..], start, end)
    ensures Splits(image[..], start, center, end, pal.treeSplitElt[treeNode])
    ensures pal.treeSplitElt[treeNode] == SplitComponent(old(image[start..end]))
    ensures pal.treeSplit[treeNode] as int == Key(image[center], pal.treeSplitElt[treeNode])
    ensures forall lo :: Touched(old(pal.Contents()), pal.Contents(), lo, lo, treeNode)
  {
    var splitCom := LargestRange(image, start, end);
    center := SplitPixels(start, end, firstElt, splitElt, lastElt);
    GifPartitionByMedian(image, start, end, splitCom, center);
    pal.treeSplitElt := pal.treeSplitElt[treeNode := splitCom];
    pal.treeSplit := pal.treeSplit[treeNode := Key(image[center], splitCom) as byte];
  }

  lemma CenterIs(n: nat, level: nat, below: nat, base: nat, lo: nat, mid: nat, hi: nat)
    requires level == below + 1 && 0 < below + base
    requires lo == First(base) && mid == base + Pow2(below) && hi == base + Pow2(level)
    ensures lo < mid < hi && Share(n, mid - lo, hi - lo) == Center(n, below, base)
  {
    HalfBelow(below, base);
  }

  /** A node that is no leaf: divide its pixels, and build both subtrees. */
  method SplitNode(image: array<Pixel>, start: nat, end: nat, firstElt: nat, lastElt: nat,
                   splitElt: nat, splitDist: nat, treeNode: nat, buildForDither: bool, pal: GifPalette,
                   ghost level: nat, ghost base: nat)
    requires pal.Valid() && start < end <= image.Length
    requires EntryRange(pal.bitDepth, treeNode, level, base, firstElt, lastElt) && firstElt + 1 < lastElt
    requires SplitEntry(level, base, splitElt, splitDist) && Pow2(pal.bitDepth) <= 256
    modifies image, pal
    ensures pal.Valid() && pal.bitDepth == old(pal.bitDepth)
    ensures Rearranged(old(image[..]), image[..], start, end)
    ensures Touched(old(pal.Contents()), pal.Contents(), firstElt, lastElt, treeNode)
    ensures Built(pal.Contents(), old(image[start..end]), treeNode, level, base, firstElt, lastElt)
    ensures Made(pal.Contents(), old(image[start..end]), treeNode, level, base, pal.bitDepth, buildForDither)
    decreases level, 0
  {
    ghost var (s0, p0) := (image[..], pal.Contents());
    ChildRanges(pal.bitDepth, treeNode, level, base, firstElt, lastElt, splitElt, splitDist);
    ghost var below: nat := level - 1;
    var center := Divide(image, start, end, firstElt, lastElt, splitElt, treeNode, pal);
    ghost var (s1, p1) := (image[..], pal.Contents());
    GifSplitPalette(image, start, center, firstElt, splitElt, splitElt - splitDist, splitDist / 2,
                    Left(treeNode), buildForDither, pal, below, base);
    ghost var (s2, p2) := (image[..], pal.Contents());
    GifSplitPalette(image, center, end, splitElt, lastElt, splitElt + splitDist, splitDist / 2,
                    Right(treeNode), buildForDither, pal, below, splitElt);
    RearrangedHalves(s0, s1, s2, image[..], start, center, end);
    SplitFinished(p0, p1, p2, pal.Contents(), s0, s1, s2, start, center, end,
                  treeNode, level, below, base, firstElt, splitElt, lastElt, pal.bitDepth, buildForDither);
  }

  /** One split and two subtrees make the subtree of the node. */
  lemma SplitFinished(p0: Plan, p1: Plan, p2: Plan, p3: Plan, s0: seq<Pixel>, s1: seq<Pixel>, s2: seq<Pixel>,
                      start: nat, center: nat, end: nat, node: nat, level: nat, below: nat, base: nat,
                      lo: nat, mid: nat, hi: nat, depth: nat, dither: bool)
    requires 0 < node < 256 && level == below + 1 && 0 < below + base
    requires lo == First(base) && mid == base + Pow2(below) && hi == base + Pow2(level)
    requires start <= center < end <= |s0| && lo < mid < hi && center - start == Share(end - start, mid - lo, hi - lo)
    requires end - start >= hi - lo ==> center - start >= mid - lo && end - center >= hi - mid
    requires Touched(p0, p1, lo, lo, node)
    requires Touched(p1, p2, lo, mid, Left(node)) && Touched(p2, p3, mid, hi, Right(node))
    requires Rearranged(s0, s1, start, end) && Rearranged(s1, s2, start, center)
    requires p1.elt[node] == SplitComponent(s0[start..end]) && Splits(s1, start, center, end, p1.elt[node])
    requires p1.split[node] as int == Key(s1[center], p1.elt[node])
    requires Built(p2, s1[start..center], Left(node), below, base, lo, mid)
    requires Built(p3, s2[center..end], Right(node), below, mid, mid, hi)
    requires Made(p2, s1[start..center], Left(node), below, base, depth, dither)
    requires Made(p3, s2[center..end], Right(node), below, mid, depth, dither)
    ensures Touched(p0, p3, lo, hi, node)
    ensures Built(p3, s0[start..end], node, level, base, lo, hi)
    ensures Made(p3, s0[start..end], node, level, base, depth, dither)
  {
    var (s, t, c) := (s0[start..end], s1[start..end], center - start);
    CenterIs(end - start, level, below, base, lo, mid, hi);
    SegmentsAre(s0, s1, s2, start, center, end, s, t, c, p1.elt[node]);
    assert Built(p2, t[..c], Left(node), below, base, lo, mid) && Built(p3, t[c..], Right(node), below, mid, mid, hi);
    NodeBuilt(p0, p1, p2, p3, s, t, c, node, level, below, base, lo, mid, hi);
    NodeMade(p1, p2, p3, s, t, c, node, level, below, base, mid, hi, depth, dither);
  }

  /** Where the pixels are divided: the left half gets its share of them. */
  method SplitPixels(start: nat, end: nat, firstElt: nat, splitElt: nat, lastElt: nat) returns (center: nat)
    requires start < end && firstElt < splitElt < lastElt
    ensures start <= center < end
    ensures end - start >= lastElt - firstElt ==> center - start >= splitElt - firstElt && end - center >= lastElt - splitElt
    ensures center - start == Share(end - start, splitElt - firstElt, lastElt - firstElt)
  {
    ShareIs(end - start, splitElt - firstElt, lastElt - firstElt);
    Shares(end - start, splitElt - firstElt, lastElt - firstElt);
    var subPixelsA := (end - start) * (splitElt - firstElt) / (lastElt - firstElt);
    center := start + subPixelsA;
  }

  /** The size of a range tells the level of its node. */
  lemma RangeLevel(depth: nat, node: nat, level: nat, base: nat, firstElt: nat, lastElt: nat)
    requires EntryRange(depth, node, level, base, firstElt, lastElt)
    ensures lastElt <= firstElt <==> level == 0 && base == 0
    ensures lastElt == firstElt + 1 <==> (level == 0 && base > 0) || Bottom(level, base)
  {
    if level > 0 {
      assert Pow2(level) == 2 * Pow2(level - 1);
      if level > 1 {
        assert Pow2(level - 1) == 2 * Pow2(level - 2);
      }
    }
  }

  /** Work on the right half leaves what has been made of the left one. */
  lemma LeftKept(p: Plan, q: Plan, node: nat, below: nat, base: nat, mid: nat, hi: nat)
    requires node > 0 && mid == base + Pow2(below) && Touched(p, q, mid, hi, Right(node))
    ensures SameBelow(p, q, Left(node), below, base)
  {
    forall t | 0 <= t < 256 && Under(t, Left(node)) ensures !Under(t, Right(node)) {
      UnderOneChild(t, node);
    }
  }

  lemma RearrangedHalves(s0: seq<Pixel>, s1: seq<Pixel>, s2: seq<Pixel>, s3: seq<Pixel>, start: nat, center: nat, end: nat)
    requires start <= center <= end <= |s0|
    requires Rearranged(s0, s1, start, end) && Rearranged(s1, s2, start, center) && Rearranged(s2, s3, center, end)
    ensures Rearranged(s0, s3, start, end)
  {
    RearrangedWithin(s0, s1, s2, start, start, center, end);
    RearrangedWithin(s0, s2, s3, start, center, end, end);
  }

  /** The pixels of a node before and after they are divided, and those of its halves. */
  lemma SegmentsAre(s0: seq<Pixel>, s1: seq<Pixel>, s2: seq<Pixel>, start: nat, center: nat, end: nat,
                    s: seq<Pixel>, t: seq<Pixel>, c: nat, elt: nat)
    requires start <= center < end <= |s0| && Rearranged(s0, s1, start, end) && Rearranged(s1, s2, start, center)
    requires s == s0[start..end] && t == s1[start..end] && c == center - start && Splits(s1, start, center, end, elt)
    ensures |s| == |t| == end - start && SameColors(s, t) && Splits(t, 0, c, |t|, elt) && t[c] == s1[center]
    ensures t[..c] == s1[start..center] && t[c..] == s2[center..end]
  {
    Segments(s1, start, center, end);
    assert s2[center..end] == s2[center..][..end - center] && s1[center..end] == s1[center..][..end - center];
  }

  lemma NodeMade(p1: Plan, p2: Plan, p3: Plan, s: seq<Pixel>, t: seq<Pixel>, c: nat, node: nat, level: nat, below: nat,
                 base: nat, mid: nat, hi: nat, depth: nat, dither: bool)
    requires 0 < node < 256 && level == below + 1 && 0 < below + base && mid == base + Pow2(below)
    requires SameColors(s, t) && c < |t| && c == Center(|s|, below, base) && First(base) <= mid <= hi
    requires Touched(p1, p2, First(base), mid, Left(node)) && Touched(p2, p3, mid, hi, Right(node))
    requires p1.elt[node] == SplitComponent(s) && Splits(t, 0, c, |t|, p1.elt[node])
    requires p1.split[node] as int == Key(t[c], p1.elt[node])
    requires Made(p2, t[..c], Left(node), below, base, depth, dither)
    requires Made(p3, t[c..], Right(node), below, mid, depth, dither)
    ensures Made(p3, s, node, level, base, depth, dither)
  {
    TouchedBoth(p1, p2, p3, First(base), mid, hi, node);
    LeftKept(p2, p3, node, below, base, mid, hi);
    MadeFrame(p2, p3, t[..c], Left(node), below, base, depth, dither);
    assert SplitAt(p3, s, t, node, c);
    assert Halves(p3, s, t, node, below, base, depth, dither, c);
    MadeNode(p3, s, t, node, level, below, base, depth, dither, c);
  }

  lemma NodeBuilt(p0: Plan, p1: Plan, p2: Plan, p3: Plan, s: seq<Pixel>, t: seq<Pixel>, c: nat,
                  node: nat, level: nat, below: nat, base: nat, lo: nat, mid: nat, hi: nat)
    requires 0 < node < 256 && level == below + 1 && 0 < below + base && SameColors(s, t) && |s| == |t| && c < |t|
    requires lo == First(base) && mid == base + Pow2(below) && hi == base + Pow2(level) && lo < mid < hi
    requires Touched(p0, p1, lo, lo, node) && p1.elt[node] < 3
    requires Touched(p1, p2, lo, mid, Left(node)) && Touched(p2, p3, mid, hi, Right(node))
    requires Splits(t, 0, c, |t|, p1.elt[node]) && p1.split[node] as int == Key(t[c], p1.elt[node])
    requires |t| >= hi - lo ==> c >= mid - lo && |t| - c >= hi - mid
    requires Built(p2, t[..c], Left(node), below, base, lo, mid)
    requires Built(p3, t[c..], Right(node), below, mid, mid, hi)
    ensures Touched(p0, p3, lo, hi, node) && Built(p3, s, node, level, base, lo, hi)
  {
    TouchedBoth(p1, p2, p3, lo, mid, hi, node);
    if |t| >= hi - lo {
      TreeFromSubtrees(p1, p2, p3, t, c, node, level, below, base, lo, mid, hi);
      EntriesWithinSame(p3.color, lo, hi, t, s);
    }
  }

  lemma Segments<T>(s: seq<T>, start: nat, center: nat, end: nat)
    requires start <= center < end <= |s|
    ensures var (t, a) := (s[start..end], center - start);
      && t[..a] == t[0..a] == s[start..center]
      && t[a..] == s[center..end]
      && t[a] == s[center]
      && t[a + 1..|t|] == s[center + 1..end]
  {
  }

  lemma EntriesFit(depth: nat, node: nat, level: nat, base: nat, firstElt: nat, lastElt: nat)
    requires 2 <= depth <= 8 && EntryRange(depth, node, level, base, firstElt, lastElt)
    ensures lastElt <= 256 && Pow2(depth) <= 256
  {
    Pow2Table();
    if depth < 8 {
      Pow2Grows(depth, 8);
    }
  }
}
