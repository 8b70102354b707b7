/** How far the propagated errors can grow from row to row, and why a palette search within reach succeeds. */
module GifDitherBound {
  import opened Bytes
  import opened GifPixels
  import opened GifTree
  import opened GifPaletteMaker
  import opened GifDither

  // ----- A search that starts with a large enough difference finds an entry.

  /** With every entry closer than the best difference so far, the search replaces it. */
  lemma {:induction false} ClosestFinds(color: seq<Rgb>, elt: seq<nat>, split: seq<byte>, depth: nat, w: Wanted,
                                        best: Best, node: nat, level: nat, base: nat)
    requires 0 < node < 2 * Pow2(depth) && Pow2(depth) <= |color| && |elt| == |split| == |color|
    requires Placed(depth, node, level, base) && BottomNode(elt, split, depth) && w.r >= 0
    requires base > 0 || level > 0
    requires forall e :: 0 < e < Pow2(depth) ==> Distance(w, color[e]) < best.diff
    ensures Closest(color, elt, split, depth, w, best, node) != best
    decreases level
  {
    if level > 0 {
      ChildrenPlaced(depth, node, level, base);
      if Bottom(level, base) {
        assert Leaf(node, 1) == Leaf(Left(node), 0) == Left(node);
        assert node == Pow2(depth - 1);
      } else {
        var below := level - 1;
        if split[node] as int - w.Comp(elt[node]) > 0 {
          ClosestFinds(color, elt, split, depth, w, best, Left(node), below, base);
        } else {
          ClosestFinds(color, elt, split, depth, w, best, Right(node), below, base + Pow2(below));
        }
      }
    }
  }

  // ----- Rows.

  function Row(k: nat, width: nat): nat
    requires width > 0
  {
    if k < width then 0 else 1 + Row(k - width, width)
  }

  lemma {:induction false} RowMonotone(i: nat, k: nat, width: nat)
    requires width > 0 && i <= k
    ensures Row(i, width) <= Row(k, width)
    ensures i + width <= k ==> Row(i, width) + 1 <= Row(k, width)
  {
    if i >= width {
      RowMonotone(i - width, k - width, width);
    } else if k >= width {
      RowMonotone(0, k - width, width);
    }
  }

  lemma {:induction false} RowBelowHeight(k: nat, width: nat, height: nat)
    requires width > 0 && k < Area(width, height)
    ensures Row(k, width) < height
  {
    if k >= width {
      RowBelowHeight(k - width, width, height - 1);
    }
  }

  // ----- Growth.

  /** The growth of the largest value per row: 255 * 256 * 16 / 6. */
  const GROWTH := 174080

  function Cap(k: nat, width: nat): nat
    requires width > 0
  {
    GROWTH * (Row(k, width) + 1)
  }

  predicate Below(q: Quant, v: int) {
    q.r <= v && q.g <= v && q.b <= v
  }

  lemma PartGrows(v: int, err: int, weight: nat, b: nat)
    requires v >= 0 && err <= b && (weight == 7 || weight == 3 || weight == 5 || weight == 1)
    ensures 16 * AddPart(v, err, weight) <= 16 * v + weight * b
  {
    WeightedGrows(err, weight, b);
  }

  lemma {:induction false} WeightedGrows(err: int, weight: nat, b: nat)
    requires err <= b
    ensures Weighted(err, weight) <= weight * b
  {
    if weight > 0 {
      WeightedGrows(err, weight - 1, b);
      assert weight * b == b + (weight - 1) * b;
    }
  }

  /** What an error below b adds to a pixel, times 16. */
  function Gain(i: nat, k: nat, width: nat, b: nat): nat {
    (if k == i + 1 then 7 * b else 0) + (if k == i + width - 1 then 3 * b else 0)
      + (if k == i + width then 5 * b else 0) + (if k == i + width + 1 then b else 0)
  }

  lemma SpreadGrows(q: Quant, err: Quant, weight: nat, b: nat, v: int)
    requires NonNegative(q) && Below(err, b) && (weight == 7 || weight == 3 || weight == 5 || weight == 1)
    requires 16 * q.r <= v && 16 * q.g <= v && 16 * q.b <= v
    ensures var s := Spread(q, err, weight);
      16 * s.r <= v + weight * b && 16 * s.g <= v + weight * b && 16 * s.b <= v + weight * b
  {
    PartGrows(q.r, err.r, weight, b);
    PartGrows(q.g, err.g, weight, b);
    PartGrows(q.b, err.b, weight, b);
  }

  predicate Below16(q: Quant, v: int) {
    16 * q.r <= v && 16 * q.g <= v && 16 * q.b <= v
  }

  lemma ReceiveGrows(q: Quant, err: Quant, i: nat, k: nat, width: nat, b: nat, v: int)
    requires NonNegative(q) && Below(err, b) && Below16(q, v)
    ensures Below16(Receive(q, err, i, k, width), v + Gain(i, k, width, b))
  {
    var q7 := if k == i + 1 then Spread(q, err, 7) else q;
    var v7 := v + if k == i + 1 then 7 * b else 0;
    SpreadGrows(q, err, 7, b, v);
    var q3 := if k == i + width - 1 then Spread(q7, err, 3) else q7;
    var v3 := v7 + if k == i + width - 1 then 3 * b else 0;
    SpreadGrows(q7, err, 3, b, v7);
    var q5 := if k == i + width then Spread(q3, err, 5) else q3;
    var v5 := v3 + if k == i + width then 5 * b else 0;
    SpreadGrows(q3, err, 5, b, v3);
    SpreadGrows(q5, err, 1, b, v5);
  }

  /** The most that pixel k can have received from the first i pixels, times 16. */
  function Load(k: nat, i: nat, width: nat): nat
    requires width > 0
  {
    if i == 0 then 0 else Load(k, i - 1, width) + Gain(i - 1, k, width, Cap(i - 1, width))
  }

  /** At most ten sixteenths come from the same row, the others from the row before. */
  function LoadLimit(k: nat, i: nat, width: nat): nat
    requires width > 0
  {
    var (here, above) := (Cap(k, width), Cap(k, width) - GROWTH);
    (if k - width - 1 < i && width + 1 <= k then above else 0)
      + (if k - width < i && width <= k then 5 * above else 0)
      + (if k - width + 1 < i && width <= k + 1 then 3 * here else 0)
      + (if k - 1 < i && 1 <= k then 7 * here else 0)
  }

  lemma {:induction false} LoadLimited(k: nat, i: nat, width: nat)
    requires width >= 2 && i <= k
    ensures Load(k, i, width) <= LoadLimit(k, i, width)
  {
    if i > 0 {
      var p := i - 1;
      LoadLimited(k, p, width);
      RowMonotone(p, k, width);
    }
  }

  lemma LoadNext(k: nat, p: nat, next: nat, width: nat)
    requires width > 0 && next == p + 1
    ensures Load(k, next, width) == Load(k, p, width) + Gain(p, k, width, Cap(p, width))
  {
  }

  /** No value exceeds the cap of its row, whatever the palette. */
  lemma {:induction false} ReceivedBelow(j: Job, k: nat, i: nat)
    requires Proper(j) && j.width >= 2 && i <= k < |j.next|
    ensures Below16(Received(j, k, i), 16 * 65280 + Load(k, i, j.width))
    decreases i, 0
  {
    if i > 0 {
      var p := i - 1;
      ReceivedBelow(j, k, p);
      FinalBelow(j, p);
      ReceivedNext(j, k, p, i);
      LoadNext(k, p, i, j.width);
      ReceiveBelow(Received(j, k, p), Final(j, p).err, p, k, j.width, Received(j, k, i),
                   Load(k, p, j.width), Load(k, i, j.width));
    }
  }

  /** Receiving one more error keeps a value below what it may have received. */
  lemma ReceiveBelow(q: Quant, err: Quant, p: nat, k: nat, width: nat, next: Quant, load: nat, more: nat)
    requires width > 0 && NonNegative(q) && Below(err, Cap(p, width)) && Below16(q, 16 * 65280 + load)
    requires next == Receive(q, err, p, k, width) && more == load + Gain(p, k, width, Cap(p, width))
    ensures Below16(next, 16 * 65280 + more)
  {
    ReceiveGrows(q, err, p, k, width, Cap(p, width), 16 * 65280 + load);
  }

  lemma {:induction false} FinalBelow(j: Job, k: nat)
    requires Proper(j) && j.width >= 2 && k < |j.next|
    ensures Below(Received(j, k, k), Cap(k, j.width)) && Below(Final(j, k).err, Cap(k, j.width))
    decreases k, 1
  {
    ReceivedBelow(j, k, k);
    LoadLimited(k, k, j.width);
  }

  // ----- Searches that succeed.

  /** A pixel is transparent and keeps the color shown before, or it gets the color of its own entry. */
  ghost predicate Sound(j: Job, k: nat)
    requires Proper(j) && k < |j.next|
  {
    var o := Final(j, k);
    if o.index == 0 then j.last.Some? && o.color == j.last.value[k]
    else o.index < Pow2(j.depth) && o.color == j.plan.color[o.index]
  }

  /** Otherwise it is taken for transparent, with a color that was not there before. */
  lemma UnsoundIsLost(j: Job, k: nat)
    requires Proper(j) && k < |j.next| && j.last.Some? && !Sound(j, k)
    ensures Final(j, k).index == 0 && Final(j, k).color != j.last.value[k]
  {
  }

  /** Without a frame before, every pixel has the color of its entry, the reserved one included. */
  lemma FirstIsEntry(j: Job, k: nat)
    requires Proper(j) && k < |j.next| && j.last.None?
    ensures Final(j, k).index < Pow2(j.depth) && Final(j, k).color == j.plan.color[Final(j, k).index]
  {
  }

  /** A search within reach finds an entry. */
  lemma FoundMeansSound(j: Job, k: nat)
    requires Proper(j) && BottomNode(j.plan.elt, j.plan.split, j.depth) && k < |j.next|
    requires forall e :: 0 < e < Pow2(j.depth) ==> Distance(Rounded(Received(j, k, k)), j.plan.color[e]) < MAX_DIFF
    ensures Sound(j, k)
  {
    var w := Rounded(Received(j, k, k));
    if !Unchanged(j, k, w) {
      RootRange(j.depth);
      ClosestFinds(j.plan.color, j.plan.elt, j.plan.split, j.depth, w, Best(0, MAX_DIFF), 1, j.depth, 0);
    }
  }
}
