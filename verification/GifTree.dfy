/**
 * The k-d tree of a palette: what the nodes promise about the colors below them, and why the
 * pruned search finds a closest color.
 */
module GifTree {
  import opened Bytes
  import opened GifPixels
  import opened GifPartition

  function Left(node: nat): nat {
    2 * node
  }

  function Right(node: nat): nat {
    2 * node + 1
  }

  // ----- The heap layout: a node that has 2^level leaves below it, the first of them at base.

  /** The first leaf below a node. */
  function Leaf(node: nat, level: nat): nat
    decreases level
  {
    if level == 0 then node else Leaf(Left(node), level - 1)
  }

  lemma {:induction false} LeafOfRight(node: nat, level: nat)
    ensures Leaf(node + 1, level) == Leaf(node, level) + Pow2(level)
    decreases level
  {
    if level > 0 {
      LeafOfRight(2 * node, level - 1);
      LeafOfRight(2 * node + 1, level - 1);
    }
  }

  lemma {:induction false} LeafBelow(node: nat, level: nat)
    ensures Leaf(node, level) >= node
    ensures level > 0 ==> Leaf(node, level) >= 2 * node
    decreases level
  {
    if level > 0 {
      LeafBelow(2 * node, level - 1);
    }
  }

  /** The leaves of a tree of the given depth are the heap entries from 2^depth on. */
  predicate Placed(depth: nat, node: nat, level: nat, base: nat) {
    && Leaf(node, level) == Pow2(depth) + base
    && base + Pow2(level) <= Pow2(depth)
  }

  lemma ChildrenPlaced(depth: nat, node: nat, level: nat, base: nat)
    requires level > 0 && Placed(depth, node, level, base)
    ensures node < Pow2(depth)
    ensures Placed(depth, Left(node), level - 1, base)
    ensures Placed(depth, Right(node), level - 1, base + Pow2(level - 1))
  {
    LeafBelow(node, level);
    LeafOfRight(2 * node, level - 1);
  }

  /** Node t is node or a descendant of it. */
  predicate Under(t: nat, node: nat) {
    t == node || (t > node && Under(t / 2, node))
  }

  lemma {:induction false} UnderChild(t: nat, node: nat, child: nat)
    requires node > 0 && (child == Left(node) || child == Right(node)) && Under(t, child)
    ensures Under(t, node) && t > node
  {
    if t == child {
      assert t / 2 == node;
    } else {
      UnderChild(t / 2, node, child);
    }
  }

  lemma {:induction false} UnderOneChild(t: nat, node: nat)
    requires node > 0
    ensures !(Under(t, Left(node)) && Under(t, Right(node)))
  {
    if t > Right(node) {
      UnderOneChild(t / 2, node);
    }
  }

  // ----- What the tree promises. Entry 0 of a palette is reserved, so it is below no split.

  /** The tree has no split above entry 1, whose node also covers the reserved entry. */
  predicate Bottom(level: nat, base: nat) {
    level == 1 && base == 0
  }

  ghost predicate KdTree(color: seq<Rgb>, elt: seq<nat>, split: seq<byte>, node: nat, level: nat, base: nat)
    decreases level
  {
    level == 0 || Bottom(level, base) ||
    var half := Pow2(level - 1);
    && node < |elt| && node < |split| && elt[node] < 3
    && SplitsColors(color, elt[node], split[node], base, base + half, base + Pow2(level))
    && KdTree(color, elt, split, Left(node), level - 1, base)
    && KdTree(color, elt, split, Right(node), level - 1, base + half)
  }

  ghost predicate SplitsColors(color: seq<Rgb>, elt: nat, split: byte, lo: nat, mid: nat, hi: nat) {
    && lo <= mid <= hi <= |color|
    && (forall e :: lo <= e < mid && e > 0 ==> Comp(color[e], elt) <= split as int)
    && (forall e :: mid <= e < hi ==> split as int <= Comp(color[e], elt))
  }

  /** Two palettes agree on the entries lo..hi. */
  ghost predicate SameEntries(color: seq<Rgb>, color': seq<Rgb>, lo: nat, hi: nat) {
    |color| == |color'| && forall e :: lo <= e < hi && 0 < e < |color| ==> color[e] == color'[e]
  }

  /** Two trees agree on a node and everything under it. */
  ghost predicate SameNodes<T>(s: seq<T>, s': seq<T>, node: nat) {
    |s| == |s'| && forall t :: 0 <= t < |s| && Under(t, node) ==> s[t] == s'[t]
  }

  lemma SameNodesBelow<T>(s: seq<T>, s': seq<T>, node: nat)
    requires node > 0 && SameNodes(s, s', node)
    ensures SameNodes(s, s', Left(node)) && SameNodes(s, s', Right(node))
  {
    forall t | 0 <= t < |s| && (Under(t, Left(node)) || Under(t, Right(node)))
      ensures s[t] == s'[t]
    {
      UnderChild(t, node, if Under(t, Left(node)) then Left(node) else Right(node));
    }
  }

  lemma SplitsFrame(color: seq<Rgb>, color': seq<Rgb>, elt: nat, split: byte, lo: nat, mid: nat, hi: nat)
    requires SplitsColors(color, elt, split, lo, mid, hi) && SameEntries(color, color', lo, hi)
    requires mid > 0
    ensures SplitsColors(color', elt, split, lo, mid, hi)
  {
  }

  lemma KdTreeNode(color: seq<Rgb>, elt: seq<nat>, split: seq<byte>, node: nat, level: nat, below: nat, base: nat,
                   mid: nat, end: nat)
    requires level == below + 1 && !Bottom(level, base) && mid == base + Pow2(below) && end == base + Pow2(level)
    ensures KdTree(color, elt, split, node, level, base) <==>
      && node < |elt| && node < |split| && elt[node] < 3
      && SplitsColors(color, elt[node], split[node], base, mid, end)
      && KdTree(color, elt, split, Left(node), below, base) && KdTree(color, elt, split, Right(node), below, mid)
  {
  }

  /** The promises depend on the colors below the node and on the nodes under it, on no others. */
  lemma {:induction false} KdTreeFrame(color: seq<Rgb>, elt: seq<nat>, split: seq<byte>,
                                       color': seq<Rgb>, elt': seq<nat>, split': seq<byte>,
                                       node: nat, level: nat, base: nat)
    requires node > 0 && KdTree(color, elt, split, node, level, base)
    requires SameEntries(color, color', base, base + Pow2(level))
    requires SameNodes(elt, elt', node) && SameNodes(split, split', node)
    ensures KdTree(color', elt', split', node, level, base)
    decreases level
  {
    if level > 0 && !Bottom(level, base) {
      var (below, mid, end) := (level - 1, base + Pow2(level - 1), base + Pow2(level));
      KdTreeNode(color, elt, split, node, level, below, base, mid, end);
      SameNodesBelow(elt, elt', node);
      SameNodesBelow(split, split', node);
      SplitsFrame(color, color', elt[node], split[node], base, mid, end);
      HalvesEnd(below, level, base);
      KdTreeFrame(color, elt, split, color', elt', split', Left(node), below, base);
      KdTreeFrame(color, elt, split, color', elt', split', Right(node), below, mid);
      KdTreeNode(color', elt', split', node, level, below, base, mid, end);
    }
  }

  lemma HalvesEnd(below: nat, level: nat, base: nat)
    requires level == below + 1
    ensures base + Pow2(below) + Pow2(below) == base + Pow2(level)
  {
  }

  // ----- The search.

  function Abs(i: int): nat {
    if i < 0 then -i else i
  }

  /** A wanted color: like Rgb, but not confined to bytes. */
  datatype Wanted = Wanted(r: int, g: int, b: int) {
    function Comp(elt: nat): int {
      if elt == 0 then r else if elt == 1 then g else b
    }
  }

  function Distance(w: Wanted, c: Rgb): nat {
    Abs(w.r - c.r as int) + Abs(w.g - c.g as int) + Abs(w.b - c.b as int)
  }

  lemma DistanceByComponent(w: Wanted, c: Rgb, elt: nat)
    ensures Abs(w.Comp(elt) - Comp(c, elt)) <= Distance(w, c)
  {
  }

  /** Larger than any difference of two colors. */
  const MAX_DIFF := 1000000

  /** The best entry so far and its difference. */
  datatype Best = Best(ind: nat, diff: int)

  /** What a search of the entries lo..hi, the reserved one left out, has to deliver. */
  ghost predicate Improves(color: seq<Rgb>, w: Wanted, lo: nat, hi: nat, before: Best, after: Best)
    requires hi <= |color|
  {
    && after.diff <= before.diff
    && (forall e :: lo <= e < hi && e > 0 ==> after.diff <= Distance(w, color[e]))
    && (after == before ||
        (after.diff < before.diff && 0 < after.ind && lo <= after.ind < hi
         && after.diff == Distance(w, color[after.ind])))
  }

  lemma ImprovesTwice(color: seq<Rgb>, w: Wanted, lo: nat, mid: nat, hi: nat, b0: Best, b1: Best, b2: Best)
    requires lo <= mid <= hi <= |color|
    requires || (Improves(color, w, lo, mid, b0, b1) && Improves(color, w, mid, hi, b1, b2))
             || (Improves(color, w, mid, hi, b0, b1) && Improves(color, w, lo, mid, b1, b2))
    ensures Improves(color, w, lo, hi, b0, b2)
  {
  }

  /** A subtree on the far side of the split holds nothing better, so it may be skipped. */
  lemma FarSide(color: seq<Rgb>, elt: nat, split: byte, w: Wanted, lo: nat, mid: nat, hi: nat, best: Best)
    requires lo <= mid <= hi && SplitsColors(color, elt, split, lo, mid, hi)
    ensures split as int > w.Comp(elt) && best.diff <= split as int - w.Comp(elt)
      ==> Improves(color, w, mid, hi, best, best)
    ensures split as int <= w.Comp(elt) && best.diff <= w.Comp(elt) - split as int
      ==> Improves(color, w, lo, mid, best, best)
  {
    forall e | lo <= e < hi && e > 0
      ensures split as int > w.Comp(elt) && e >= mid ==> split as int - w.Comp(elt) <= Distance(w, color[e])
      ensures split as int <= w.Comp(elt) && e < mid ==> w.Comp(elt) - split as int <= Distance(w, color[e])
    {
      DistanceByComponent(w, color[e], elt);
    }
  }

  /** The best entry is kept, or replaced by one that is strictly better and not the reserved one. */
  predicate Replaces(color: seq<Rgb>, depth: nat, w: Wanted, before: Best, after: Best)
    requires Pow2(depth) <= |color|
  {
    after == before ||
    (0 < after.ind < Pow2(depth) && after.diff == Distance(w, color[after.ind]) && after.diff < before.diff)
  }

  /** The pruned search of the subtree of a node. */
  function Closest(color: seq<Rgb>, elt: seq<nat>, split: seq<byte>, depth: nat, w: Wanted, best: Best,
                   treeRoot: nat): (r: Best)
    requires 0 < treeRoot < 2 * Pow2(depth) && Pow2(depth) <= |color| && |elt| == |split| == |color|
    ensures Replaces(color, depth, w, best, r)
    decreases 2 * Pow2(depth) - treeRoot, 0
  {
    if treeRoot >= Pow2(depth) then
      var ind := treeRoot - Pow2(depth);
      if ind == 0 then best
      else
        var diff := Distance(w, color[ind]);
        if diff < best.diff then Best(ind, diff) else best
    else
      var gap := split[treeRoot] as int - w.Comp(elt[treeRoot]);
      if gap > 0 then
        var near := Closest(color, elt, split, depth, w, best, Left(treeRoot));
        Visit(color, elt, split, depth, w, near, Right(treeRoot), gap)
      else
        var near := Closest(color, elt, split, depth, w, best, Right(treeRoot));
        Visit(color, elt, split, depth, w, near, Left(treeRoot), -gap)
  }

  /** The far subtree is searched unless the best difference proves that there is no better value. */
  function Visit(color: seq<Rgb>, elt: seq<nat>, split: seq<byte>, depth: nat, w: Wanted, best: Best,
                 far: nat, gap: int): (r: Best)
    requires 0 < far < 2 * Pow2(depth) && Pow2(depth) <= |color| && |elt| == |split| == |color|
    ensures Replaces(color, depth, w, best, r)
    decreases 2 * Pow2(depth) - far, 1
  {
    if best.diff > gap then Closest(color, elt, split, depth, w, best, far) else best
  }

  /** The node above the reserved entry sends every search to the right first. */
  predicate BottomNode(elt: seq<nat>, split: seq<byte>, depth: nat) {
    depth > 0 && Pow2(depth) <= |elt| == |split|
    && elt[Pow2(depth - 1)] == 0 && split[Pow2(depth - 1)] == 0
  }

  /** The search of a subtree delivers what a scan of the entries lo..hi would, whatever was found before. */
  ghost predicate Exact(color: seq<Rgb>, elt: seq<nat>, split: seq<byte>, depth: nat, w: Wanted, node: nat,
                        lo: nat, hi: nat)
    requires 0 < node < 2 * Pow2(depth) && Pow2(depth) <= |color| && |elt| == |split| == |color|
  {
    hi <= |color| &&
    forall best: Best :: Improves(color, w, lo, hi, best, Closest(color, elt, split, depth, w, best, node))
  }

  /** Pruning loses nothing. */
  lemma {:induction false} ClosestExact(color: seq<Rgb>, elt: seq<nat>, split: seq<byte>, depth: nat, w: Wanted,
                                        node: nat, level: nat, base: nat)
    requires 0 < node < 2 * Pow2(depth) && Pow2(depth) <= |color| && |elt| == |split| == |color|
    requires Placed(depth, node, level, base) && KdTree(color, elt, split, node, level, base)
    requires BottomNode(elt, split, depth) && w.r >= 0
    ensures Exact(color, elt, split, depth, w, node, base, base + Pow2(level))
    decreases level
  {
    if level == 0 {
      LeafExact(color, elt, split, depth, w, node, level, base);
    } else {
      ChildrenPlaced(depth, node, level, base);
      if Bottom(level, base) {
        BottomExact(color, elt, split, depth, w, node);
      } else {
        var (below, mid, end) := (level - 1, base + Pow2(level - 1), base + Pow2(level));
        KdTreeNode(color, elt, split, node, level, below, base, mid, end);
        ClosestExact(color, elt, split, depth, w, Left(node), below, base);
        ClosestExact(color, elt, split, depth, w, Right(node), below, mid);
        SplitExact(color, elt, split, depth, w, node, base, mid, end);
      }
    }
  }

  lemma LeafExact(color: seq<Rgb>, elt: seq<nat>, split: seq<byte>, depth: nat, w: Wanted,
                  node: nat, level: nat, base: nat)
    requires 0 < node < 2 * Pow2(depth) && Pow2(depth) <= |color| && |elt| == |split| == |color|
    requires Placed(depth, node, level, base) && level == 0
    ensures Exact(color, elt, split, depth, w, node, base, base + Pow2(level))
  {
  }

  /** After the near subtree, visiting the far one only when the split demands it is enough. */
  lemma SplitExact(color: seq<Rgb>, elt: seq<nat>, split: seq<byte>, depth: nat, w: Wanted,
                   node: nat, lo: nat, mid: nat, hi: nat)
    requires 0 < node < Pow2(depth) <= |color| && |elt| == |split| == |color|
    requires SplitsColors(color, elt[node], split[node], lo, mid, hi)
    requires Exact(color, elt, split, depth, w, Left(node), lo, mid)
    requires Exact(color, elt, split, depth, w, Right(node), mid, hi)
    ensures Exact(color, elt, split, depth, w, node, lo, hi)
  {
    forall best: Best
      ensures Improves(color, w, lo, hi, best, Closest(color, elt, split, depth, w, best, node))
    {
      var gap := split[node] as int - w.Comp(elt[node]);
      if gap > 0 {
        var near := Closest(color, elt, split, depth, w, best, Left(node));
        FarSide(color, elt[node], split[node], w, lo, mid, hi, near);
        var far := Visit(color, elt, split, depth, w, near, Right(node), gap);
        assert far == Closest(color, elt, split, depth, w, best, node);
        assert Improves(color, w, mid, hi, near, Closest(color, elt, split, depth, w, near, Right(node)));
        ImprovesTwice(color, w, lo, mid, hi, best, near, far);
      } else {
        var near := Closest(color, elt, split, depth, w, best, Right(node));
        FarSide(color, elt[node], split[node], w, lo, mid, hi, near);
        var far := Visit(color, elt, split, depth, w, near, Left(node), -gap);
        assert far == Closest(color, elt, split, depth, w, best, node);
        assert Improves(color, w, lo, mid, near, Closest(color, elt, split, depth, w, near, Left(node)));
        ImprovesTwice(color, w, lo, mid, hi, best, near, far);
      }
    }
  }

  lemma BottomExact(color: seq<Rgb>, elt: seq<nat>, split: seq<byte>, depth: nat, w: Wanted, node: nat)
    requires 0 < node < 2 * Pow2(depth) && Pow2(depth) <= |color| && |elt| == |split| == |color|
    requires Placed(depth, node, 1, 0) && BottomNode(elt, split, depth) && w.r >= 0
    ensures Exact(color, elt, split, depth, w, node, 0, 2)
  {
    assert Leaf(node, 1) == Leaf(Left(node), 0) == Left(node);
    assert node == Pow2(depth - 1);
    forall best: Best
      ensures Improves(color, w, 0, 2, best, Closest(color, elt, split, depth, w, best, node))
    {
      var near := Closest(color, elt, split, depth, w, best, Right(node));
      assert near == if Distance(w, color[1]) < best.diff then Best(1, Distance(w, color[1])) else best;
      assert Closest(color, elt, split, depth, w, near, Left(node)) == near;
    }
  }
}
