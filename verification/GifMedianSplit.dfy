/** The palette that median splits of some pixels make, as a relation that owes nothing to the order of the pixels. */
module GifMedianSplit {
  import opened Bytes
  import opened GifPixels
  import opened GifPartition
  import opened GifColors
  import opened GifTree

  const TRANS_INDEX: byte := 0

  /** The contents of a palette. */
  datatype Plan = Plan(color: seq<Rgb>, elt: seq<nat>, split: seq<byte>) {
    ghost predicate Tree(node: nat, level: nat, base: nat) {
      KdTree(color, elt, split, node, level, base)
    }

    ghost predicate Sized() {
      |color| == |elt| == |split| == 256
    }
  }

  // ----- Choosing the component to split by.

  function Range(s: seq<Pixel>, elt: nat): int {
    Comp(Brightest(s), elt) - Comp(Darkest(s), elt)
  }

  /** The component that varies most; green before blue before red if they vary alike. */
  function SplitComponent(s: seq<Pixel>): (elt: nat)
    ensures elt < 3 && forall e :: 0 <= e < 3 ==> Range(s, e) <= Range(s, elt)
  {
    var (r, g, b) := (Range(s, 0), Range(s, 1), Range(s, 2));
    if r > b && r > g then 0 else if b > g then 2 else 1
  }

  // ----- The leaves.

  /** The color of an entry: an average, unless dithering asks for an extreme. */
  function LeafChoice(s: seq<Pixel>, firstElt: nat, buildForDither: bool, bitDepth: nat): (c: Rgb)
    requires s != []
    ensures Within(c, s)
  {
    ExtremesWithin(s);
    if buildForDither && firstElt == 1 then Darkest(s)
    else if buildForDither && firstElt == Pow2(bitDepth) - 1 then Brightest(s)
    else MeanColor(s)
  }

  // ----- The shares of the two halves.

  function Quotient(x: nat, d: nat): nat
    requires d > 0
  {
    if x < d then 0 else 1 + Quotient(x - d, d)
  }

  lemma {:induction false} QuotientBounds(x: nat, d: nat)
    requires d > 0
    ensures Quotient(x, d) * d <= x < Quotient(x, d) * d + d
  {
    if x >= d {
      QuotientBounds(x - d, d);
      assert Quotient(x, d) * d == Quotient(x - d, d) * d + d;
    }
  }

  lemma QuotientIs(x: nat, d: nat)
    requires d > 0
    ensures Quotient(x, d) == x / d
  {
    QuotientBounds(x, d);
    var (p, q) := (Quotient(x, d), x / d);
    assert q * d <= x < q * d + d;
    Cancel(p, q + 1, d);
    Cancel(q, p + 1, d);
  }

  /** A share of the pixels in proportion to the entries: n * part / whole. */
  function Share(n: nat, part: nat, whole: nat): nat
    requires whole > 0
  {
    Quotient(Area(part, n), whole)
  }

  lemma ShareIs(n: nat, part: nat, whole: nat)
    requires whole > 0
    ensures Share(n, part, whole) == n * part / whole
  {
    AreaIsProduct(part, n);
    QuotientIs(n * part, whole);
  }

  /** It leaves enough of them on both sides. */
  lemma Shares(n: nat, part: nat, whole: nat)
    requires 0 < part < whole
    ensures var q := Share(n, part, whole);
      q <= n && (n > 0 ==> q < n) && (n >= whole ==> q >= part && n - q >= whole - part)
  {
    var q := Share(n, part, whole);
    AreaIsProduct(part, n);
    QuotientBounds(n * part, whole);
    ShareBelow(n, part, whole, q);
    ShareLeft(n, part, whole, q);
    ShareRight(n, part, whole, q);
  }

  lemma ShareBelow(n: nat, part: nat, whole: nat, q: int)
    requires part < whole && q * whole <= n * part
    ensures q <= n && (n > 0 ==> q < n)
  {
    if n > 0 {
      Scale(part + 1, whole, n);
      Cancel(q, n, whole);
    } else if q > 0 {
      Scale(1, q, whole);
    }
  }

  lemma ShareLeft(n: nat, part: nat, whole: nat, q: int)
    requires 0 < whole && n * part < q * whole + whole
    ensures n >= whole ==> q >= part
  {
    if n >= whole {
      Scale(whole, n, part);
      Cancel(part, q + 1, whole);
    }
  }

  lemma ShareRight(n: nat, part: nat, whole: nat, q: int)
    requires part < whole && q * whole <= n * part
    ensures n >= whole ==> n - q >= whole - part
  {
    if n >= whole {
      Scale(whole, n, whole - part);
      Cancel(whole - part, n - q + 1, whole);
    }
  }

  lemma Scale(a: int, b: int, c: int)
    requires a <= b && c >= 0
    ensures a * c <= b * c
  {
  }

  lemma Cancel(a: int, b: int, c: int)
    requires c > 0 && a * c < b * c
    ensures a < b
  {
    if a >= b {
      Scale(b, a, c);
    }
  }

  // ----- The order of the pixels does not matter.

  lemma SameLength(s: seq<Pixel>, t: seq<Pixel>)
    requires SameColors(s, t)
    ensures |s| == |t|
  {
    assert |multiset(Colors(s))| == |Colors(s)| && |multiset(Colors(t))| == |Colors(t)|;
  }

  lemma DarkestLeast(s: seq<Pixel>, t: seq<Pixel>, elt: nat)
    requires SameColors(s, t) && s != [] && t != []
    ensures Comp(Darkest(s), elt) <= Comp(Darkest(t), elt) && Comp(Brightest(t), elt) <= Comp(Brightest(s), elt)
  {
    ExtremesAttained(s, elt);
    ExtremesAttained(t, elt);
    SameBounds(s, t, elt, Comp(Darkest(s), elt));
    SameBounds(s, t, elt, Comp(Brightest(s), elt));
  }

  lemma SameComponent(s: seq<Pixel>, t: seq<Pixel>)
    requires SameColors(s, t)
    ensures SplitComponent(s) == SplitComponent(t)
  {
    SameLength(s, t);
    if s != [] {
      forall elt | 0 <= elt < 3
        ensures Range(s, elt) == Range(t, elt)
      {
        DarkestLeast(s, t, elt);
        DarkestLeast(t, s, elt);
      }
    }
  }

  // ----- The palette.

  /** The first entry of a range; entry 0 is reserved. */
  function First(base: nat): nat {
    if base == 0 then 1 else base
  }

  /** The pixels t are those of s, divided at c by the component of the node. */
  ghost predicate SplitAt(q: Plan, s: seq<Pixel>, t: seq<Pixel>, node: nat, c: nat) {
    && SameColors(s, t) && c < |t| && node < |q.elt| && node < |q.split|
    && q.elt[node] == SplitComponent(s)
    && Splits(t, 0, c, |t|, q.elt[node])
    && q.split[node] as int == Key(t[c], q.elt[node])
  }

  /** Where the pixels of a node are divided: entries First(base)..mid get their share, mid..hi the rest. */
  function Center(n: nat, below: nat, base: nat): nat
    requires 0 < below + base
  {
    HalfBelow(below, base);
    Share(n, base + Pow2(below) - First(base), base + 2 * Pow2(below) - First(base))
  }

  lemma HalfBelow(below: nat, base: nat)
    requires 0 < below + base
    ensures First(base) < base + Pow2(below) < base + 2 * Pow2(below)
  {
  }

  /** The entries and nodes below a node are what median splits of the pixels make of them. */
  ghost predicate Made(q: Plan, s: seq<Pixel>, node: nat, level: nat, base: nat, depth: nat, dither: bool)
    decreases level, 0
  {
    s == [] || (level == 0 && base == 0)
    || if level == 0 || Bottom(level, base) then
         First(base) < |q.color| && q.color[First(base)] == LeafChoice(s, First(base), dither, depth)
       else
         Divided(q, s, node, level - 1, base, depth, dither, Center(|s|, level - 1, base))
  }

  ghost predicate Divided(q: Plan, s: seq<Pixel>, node: nat, below: nat, base: nat, depth: nat, dither: bool, c: nat)
    decreases below, 2
  {
    exists t :: Halves(q, s, t, node, below, base, depth, dither, c)
  }

  /** One split, and what has been made of both halves. */
  ghost predicate Halves(q: Plan, s: seq<Pixel>, t: seq<Pixel>, node: nat, below: nat, base: nat, depth: nat,
                         dither: bool, c: nat)
    decreases below, 1
  {
    && SplitAt(q, s, t, node, c)
    && Made(q, t[..c], Left(node), below, base, depth, dither)
    && Made(q, t[c..], Right(node), below, base + Pow2(below), depth, dither)
  }

  lemma MadeNode(q: Plan, s: seq<Pixel>, t: seq<Pixel>, node: nat, level: nat, below: nat, base: nat, depth: nat,
                 dither: bool, c: nat)
    requires level == below + 1 && 0 < below + base && c == Center(|s|, below, base)
    requires Halves(q, s, t, node, below, base, depth, dither, c)
    ensures Made(q, s, node, level, base, depth, dither)
  {
    assert Divided(q, s, node, below, base, depth, dither, c);
  }

  lemma MadeParts(q: Plan, s: seq<Pixel>, node: nat, level: nat, below: nat, base: nat, depth: nat, dither: bool, c: nat)
    returns (t: seq<Pixel>)
    requires s != [] && level == below + 1 && 0 < below + base && Made(q, s, node, level, base, depth, dither)
    requires c == Center(|s|, below, base)
    ensures Halves(q, s, t, node, below, base, depth, dither, c)
  {
    assert Divided(q, s, node, below, base, depth, dither, c);
    t :| Halves(q, s, t, node, below, base, depth, dither, c);
  }

  lemma HalvesSame(q: Plan, s: seq<Pixel>, s': seq<Pixel>, t: seq<Pixel>, node: nat, below: nat, base: nat, depth: nat,
                   dither: bool, c: nat)
    requires SameColors(s, s') && Halves(q, s, t, node, below, base, depth, dither, c)
    ensures Halves(q, s', t, node, below, base, depth, dither, c)
  {
    SameComponent(s, s');
  }

  /** The same pixels in another order make the same palette. */
  lemma MadeSame(q: Plan, s: seq<Pixel>, s': seq<Pixel>, node: nat, level: nat, below: nat, base: nat, depth: nat,
                 dither: bool)
    requires level == below + 1 && 0 < below + base
    requires SameColors(s, s') && Made(q, s, node, level, base, depth, dither)
    ensures Made(q, s', node, level, base, depth, dither)
  {
    SameLength(s, s');
    if s != [] {
      var c := Center(|s|, below, base);
      var t := MadeParts(q, s, node, level, below, base, depth, dither, c);
      HalvesSame(q, s, s', t, node, below, base, depth, dither, c);
      MadeNode(q, s', t, node, level, below, base, depth, dither, c);
    }
  }

  /** Two plans agree on all that is below a node. */
  ghost predicate SameBelow(q: Plan, r: Plan, node: nat, level: nat, base: nat) {
    && SameEntries(q.color, r.color, base, base + Pow2(level))
    && SameNodes(q.elt, r.elt, node) && SameNodes(q.split, r.split, node)
  }

  lemma SameHalves(q: Plan, r: Plan, node: nat, level: nat, below: nat, base: nat)
    requires node > 0 && level == below + 1 && SameBelow(q, r, node, level, base)
    ensures SameBelow(q, r, Left(node), below, base) && SameBelow(q, r, Right(node), below, base + Pow2(below))
  {
    SameNodesBelow(q.elt, r.elt, node);
    SameNodesBelow(q.split, r.split, node);
  }

  /** What has been made depends on the entries below the node and on the nodes under it, on no others. */
  lemma {:induction false} MadeFrame(q: Plan, r: Plan, s: seq<Pixel>, node: nat, level: nat, base: nat, depth: nat,
                                     dither: bool)
    requires node > 0 && Made(q, s, node, level, base, depth, dither) && SameBelow(q, r, node, level, base)
    ensures Made(r, s, node, level, base, depth, dither)
    decreases level, 0
  {
    if level == 0 || Bottom(level, base) {
      LeafFrame(q, r, s, node, level, base, depth, dither);
    } else if s != [] {
      var below: nat := level - 1;
      var c := Center(|s|, below, base);
      var t := MadeParts(q, s, node, level, below, base, depth, dither, c);
      SameHalves(q, r, node, level, below, base);
      SplitFrame(q, r, s, t, node, c);
      HalvesFrame(q, r, s, t, node, below, base, depth, dither, c);
      MadeNode(r, s, t, node, level, below, base, depth, dither, c);
    }
  }

  lemma {:induction false} HalvesFrame(q: Plan, r: Plan, s: seq<Pixel>, t: seq<Pixel>, node: nat, below: nat, base: nat,
                                       depth: nat, dither: bool, c: nat)
    requires node > 0 && Halves(q, s, t, node, below, base, depth, dither, c) && SplitAt(r, s, t, node, c)
    requires SameBelow(q, r, Left(node), below, base) && SameBelow(q, r, Right(node), below, base + Pow2(below))
    ensures Halves(r, s, t, node, below, base, depth, dither, c)
    decreases below, 1
  {
    MadeFrame(q, r, t[..c], Left(node), below, base, depth, dither);
    MadeFrame(q, r, t[c..], Right(node), below, base + Pow2(below), depth, dither);
  }

  lemma LeafFrame(q: Plan, r: Plan, s: seq<Pixel>, node: nat, level: nat, base: nat, depth: nat, dither: bool)
    requires (level == 0 || Bottom(level, base)) && Made(q, s, node, level, base, depth, dither)
    requires SameBelow(q, r, node, level, base)
    ensures Made(r, s, node, level, base, depth, dither)
  {
  }

  lemma SplitFrame(q: Plan, r: Plan, s: seq<Pixel>, t: seq<Pixel>, node: nat, c: nat)
    requires SplitAt(q, s, t, node, c) && SameNodes(q.elt, r.elt, node) && SameNodes(q.split, r.split, node)
    ensures SplitAt(r, s, t, node, c)
  {
    assert Under(node, node);
  }
}
