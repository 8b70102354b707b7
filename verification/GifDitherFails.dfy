/** An image for which the writer makes a palette that dithering cannot cope with. */
module GifDitherFails {
  import opened Bytes
  import opened GifPixels
  import opened GifPartition
  import opened GifColors
  import opened GifTree
  import opened GifMedianSplit
  import opened GifPalettes
  import opened GifPaletteMaker
  import opened GifDither
  import opened GifDitherBound
  import opened GifDitherPeak

  const RED := Rgb(255, 0, 0)
  const GREEN := Rgb(0, 255, 0)
  const BLUE := Rgb(0, 0, 255)

  /** Some red pixels, then black ones, then green ones. */
  function Striped(reds: nat, blacks: nat, greens: nat): (colors: seq<Rgb>)
    ensures |colors| == reds + blacks + greens
    ensures forall k :: 0 <= k < |colors| ==>
      colors[k] == if k < reds then RED else if k < reds + blacks then BLACK else GREEN
  {
    seq(reds, _ => RED) + seq(blacks, _ => BLACK) + seq(greens, _ => GREEN)
  }

  // ----- Counting colors.

  lemma {:induction false} CountBounds(s: seq<Rgb>, c: Rgb)
    ensures multiset(s)[c] <= |s|
    ensures (forall k :: 0 <= k < |s| ==> s[k] == c) ==> multiset(s)[c] == |s|
    ensures (forall k :: 0 <= k < |s| ==> s[k] != c) ==> multiset(s)[c] == 0
  {
    if s != [] {
      var n := |s| - 1;
      CountBounds(s[..n], c);
      assert s == s[..n] + [s[n]];
    }
  }

  lemma Absent(s: seq<Rgb>, c: Rgb, k: nat)
    requires multiset(s)[c] == 0 && k < |s|
    ensures s[k] != c
  {
    assert s[k] in multiset(s);
  }

  lemma StripedCount(reds: nat, blacks: nat, greens: nat)
    ensures multiset(Striped(reds, blacks, greens))[GREEN] == greens
    ensures multiset(Striped(reds, blacks, greens))[BLACK] == blacks
  {
    var (r, b, g) := (seq(reds, _ => RED), seq(blacks, _ => BLACK), seq(greens, _ => GREEN));
    assert Striped(reds, blacks, greens) == r + b + g;
    CountBounds(r, GREEN);
    CountBounds(b, GREEN);
    CountBounds(g, GREEN);
    CountBounds(r, BLACK);
    CountBounds(b, BLACK);
    CountBounds(g, BLACK);
  }

  /** Pixels of these colors in some order. */
  ghost predicate Mixed(t: seq<Pixel>, reds: nat, blacks: nat, greens: nat) {
    SameColors(Painted(Striped(reds, blacks, greens)), t)
  }

  lemma MixedColor(t: seq<Pixel>, reds: nat, blacks: nat, greens: nat, k: nat)
    requires Mixed(t, reds, blacks, greens) && k < |t|
    ensures t[k].Color() == RED || t[k].Color() == BLACK || t[k].Color() == GREEN
  {
    var j := ColorOccurs(t, Painted(Striped(reds, blacks, greens)), k);
  }

  lemma MixedCount(t: seq<Pixel>, reds: nat, blacks: nat, greens: nat, c: nat)
    requires Mixed(t, reds, blacks, greens) && c <= |t|
    ensures |t| == reds + blacks + greens
    ensures multiset(Colors(t[..c]))[GREEN] + multiset(Colors(t[c..]))[GREEN] == greens
    ensures multiset(Colors(t[..c]))[BLACK] + multiset(Colors(t[c..]))[BLACK] == blacks
  {
    SameLength(Painted(Striped(reds, blacks, greens)), t);
    StripedCount(reds, blacks, greens);
    assert Colors(t) == Colors(t[..c]) + Colors(t[c..]);
  }

  // ----- The palette.

  lemma SplitsByGreen(reds: nat, blacks: nat, greens: nat)
    requires blacks > 0 && greens > 0
    ensures SplitComponent(Painted(Striped(reds, blacks, greens))) == 1
  {
    var s := Painted(Striped(reds, blacks, greens));
    ExtremesAttained(s, 1);
    assert Key(s[reds], 1) == 0 && Key(s[reds + blacks], 1) == 255;
  }

  /** If the greens are divided from the others, no green is on the left and nothing else on the right. */
  lemma GreensRight(t: seq<Pixel>, reds: nat, blacks: nat, greens: nat, c: nat)
    requires Mixed(t, reds, blacks, greens) && greens > 0 && c == reds + blacks && c < |t|
    requires Splits(t, 0, c, |t|, 1)
    ensures forall k :: c <= k < |t| ==> t[k].Color() == GREEN
    ensures forall k :: 0 <= k < c ==> t[k].Color() != GREEN
  {
    MixedColor(t, reds, blacks, greens, c);
    CenterIsGreen(t, reds, blacks, greens, c);
    forall k | c <= k < |t|
      ensures t[k].Color() == GREEN
    {
      MixedColor(t, reds, blacks, greens, k);
      if k > c {
        assert t[c + 1..|t|][k - c - 1] == t[k];
      }
    }
    MixedCount(t, reds, blacks, greens, c);
    CountBounds(Colors(t[c..]), GREEN);
    forall k | 0 <= k < c
      ensures t[k].Color() != GREEN
    {
      Absent(Colors(t[..c]), GREEN, k);
    }
  }

  lemma CenterIsGreen(t: seq<Pixel>, reds: nat, blacks: nat, greens: nat, c: nat)
    requires Mixed(t, reds, blacks, greens) && greens > 0 && c == reds + blacks && c < |t|
    requires Splits(t, 0, c, |t|, 1)
    ensures t[c].Color() == GREEN
  {
    MixedColor(t, reds, blacks, greens, c);
    if t[c].Color() != GREEN {
      var d := c + 1;
      forall k | 0 <= k < d
        ensures Colors(t[..d])[k] != GREEN
      {
        if k < c {
          assert t[0..c][k] == t[k];
        }
      }
      MixedCount(t, reds, blacks, greens, d);
      CountBounds(Colors(t[..d]), GREEN);
      CountBounds(Colors(t[d..]), GREEN);
    }
  }

  lemma DarkestIsBlack(s: seq<Pixel>, k: nat)
    requires k < |s| && s[k].Color() == BLACK
    ensures Darkest(s) == BLACK
  {
    ExtremesAttained(s, 0);
    ExtremesAttained(s, 1);
    ExtremesAttained(s, 2);
    assert Key(s[k], 0) == Key(s[k], 1) == Key(s[k], 2) == 0;
  }

  lemma OnlyGreen(c: Rgb, s: seq<Pixel>)
    requires Within(c, s) && forall k :: 0 <= k < |s| ==> s[k].Color() == GREEN
    ensures c == GREEN
  {
    assert AtMost(s, 0, 0) && AtMost(s, 2, 0) && AtLeast(s, 1, 255);
  }

  lemma AllGreen(s: seq<Pixel>, t: seq<Pixel>)
    requires SameColors(s, t) && forall k :: 0 <= k < |s| ==> s[k].Color() == GREEN
    ensures forall k :: 0 <= k < |t| ==> t[k].Color() == GREEN
  {
    forall k | 0 <= k < |t|
      ensures t[k].Color() == GREEN
    {
      var j := ColorOccurs(t, s, k);
    }
  }

  /** The entries for green pixels are green. */
  lemma RightIsGreen(p: Plan, s: seq<Pixel>)
    requires |s| >= 2 && (forall k :: 0 <= k < |s| ==> s[k].Color() == GREEN) && Made(p, s, 3, 1, 2, 2, true)
    ensures 3 < |p.color| && p.color[2] == p.color[3] == GREEN
  {
    var c := Center(|s|, 0, 2);
    Shares(|s|, 1, 2);
    var t := MadeParts(p, s, 3, 1, 0, 2, 2, true, c);
    SameLength(s, t);
    AllGreen(s, t);
    OnlyGreen(LeafChoice(t[..c], 2, true, 2), t[..c]);
    OnlyGreen(LeafChoice(t[c..], 3, true, 2), t[c..]);
    assert Made(p, t[..c], 6, 0, 2, 2, true) && Made(p, t[c..], 7, 0, 3, 2, true);
  }

  lemma LeftIsBlack(p: Plan, s: seq<Pixel>, k: nat)
    requires k < |s| && s[k].Color() == BLACK && Made(p, s, 2, 1, 0, 2, true)
    ensures 1 < |p.color| && p.color[1] == BLACK
  {
    DarkestIsBlack(s, k);
  }

  lemma BlackLeft(t: seq<Pixel>, reds: nat, blacks: nat, greens: nat, c: nat) returns (k: nat)
    requires Mixed(t, reds, blacks, greens) && blacks > 0 && c < |t| && forall k :: c <= k < |t| ==> t[k].Color() == GREEN
    ensures k < c && t[..c][k].Color() == BLACK
  {
    MixedCount(t, reds, blacks, greens, c);
    CountBounds(Colors(t[c..]), BLACK);
    assert BLACK in multiset(Colors(t[..c]));
    k :| 0 <= k < |t[..c]| && Colors(t[..c])[k] == BLACK;
  }

  lemma DividedByGreen(p: Plan, s: seq<Pixel>, t: seq<Pixel>, reds: nat, blacks: nat, greens: nat, c: nat)
    returns (k: nat)
    requires s == Painted(Striped(reds, blacks, greens)) && blacks > 0 && greens >= 2 && c == reds + blacks
    requires SplitAt(p, s, t, 1, c)
    ensures |t[c..]| >= 2 && forall i :: 0 <= i < |t[c..]| ==> t[c..][i].Color() == GREEN
    ensures k < |t[..c]| && t[..c][k].Color() == BLACK
  {
    SplitsByGreen(reds, blacks, greens);
    GreensRight(t, reds, blacks, greens, c);
    MixedCount(t, reds, blacks, greens, c);
    k := BlackLeft(t, reds, blacks, greens, c);
  }

  /** If the red and the black pixels are the third that the first entry gets, the palette has no red. */
  lemma NoRed(p: Plan, reds: nat, blacks: nat, greens: nat, depth: nat)
    requires blacks > 0 && greens >= 2 && reds + blacks == Share(reds + blacks + greens, 1, 3) && depth == 2
    requires FitFor(p, Striped(reds, blacks, greens), depth, true)
    ensures 3 < |p.color| && p.color[1] == BLACK && p.color[2] == p.color[3] == GREEN
  {
    var (c, s) := (reds + blacks, Painted(Striped(reds, blacks, greens)));
    var t := StripesDivided(p, Striped(reds, blacks, greens), s, c, depth, depth - 1);
    StripedHalves(p, s, t, reds, blacks, greens, c, depth, depth - 1);
  }

  lemma StripedHalves(p: Plan, s: seq<Pixel>, t: seq<Pixel>, reds: nat, blacks: nat, greens: nat, c: nat,
                      depth: nat, below: nat)
    requires s == Painted(Striped(reds, blacks, greens)) && blacks > 0 && greens >= 2 && c == reds + blacks
    requires Halves(p, s, t, 1, below, 0, depth, true, c) && depth == 2 && below == 1
    ensures 3 < |p.color| && p.color[1] == BLACK && p.color[2] == p.color[3] == GREEN
  {
    var k := DividedByGreen(p, s, t, reds, blacks, greens, c);
    LeftIsBlack(p, t[..c], k);
    RightIsGreen(p, t[c..]);
  }

  lemma StripesDivided(p: Plan, colors: seq<Rgb>, s: seq<Pixel>, c: nat, depth: nat, below: nat)
    returns (t: seq<Pixel>)
    requires s == Painted(colors) && s != [] && c == Share(|s|, 1, 3) && depth == 2 && below == 1
    requires FitFor(p, colors, depth, true)
    ensures Halves(p, s, t, 1, below, 0, depth, true, c)
  {
    t := MadeParts(p, s, 1, depth, below, 0, depth, true, c);
  }

  // ----- The red pixels.

  /** A dithered image of this kind, two pixels wide, after a blue one or none. */
  ghost predicate Doomed(j: Job, reds: nat, blacks: nat, greens: nat) {
    && Proper(j) && j.width == 2 && j.depth == 2 && j.next == Striped(reds, blacks, greens)
    && j.plan.color[0] == j.plan.color[1] == BLACK && j.plan.color[2] == j.plan.color[3] == GREEN
    && Complete(j.plan, 2)
    && (j.last.Some? ==> forall k :: 0 <= k < |j.last.value| ==> j.last.value[k] == BLUE)
  }

  function Reddish(v: int): Quant {
    Quant(v, 0, 0)
  }

  /** Black is nearer to any red than green is. */
  lemma BlackIsNearer(j: Job, reds: nat, blacks: nat, greens: nat, w: Wanted)
    requires Doomed(j, reds, blacks, greens) && w.r >= 0 && w.g == w.b == 0
    ensures var ind := Closest(j.plan.color, j.plan.elt, j.plan.split, 2, w, Best(0, MAX_DIFF), 1).ind;
      ind < 4 && j.plan.color[ind] == BLACK
  {
    var p := j.plan;
    Pow2Table();
    assert Leaf(1, 2) == Leaf(2, 1) == Leaf(4, 0) == 4;
    ClosestExact(p.color, p.elt, p.split, 2, w, 1, 2, 0);
    var best := Closest(p.color, p.elt, p.split, 2, w, Best(0, MAX_DIFF), 1);
    assert Improves(p.color, w, 0, 4, Best(0, MAX_DIFF), best);
    assert Distance(w, BLACK) < Distance(w, GREEN);
  }

  lemma AllRedPassedOn(j: Job, reds: nat, blacks: nat, greens: nat, k: nat, v: nat)
    requires Doomed(j, reds, blacks, greens) && k < |j.next|
    ensures Settle(j, k, Reddish(v)).err == Reddish(v)
  {
    BlackIsNearer(j, reds, blacks, greens, Rounded(Reddish(v)));
  }

  lemma NothingTaken(i: nat, k: nat, width: nat)
    ensures Take(0, 0, i, k, width) == 0
  {
    NothingWeighted(7);
    NothingWeighted(3);
    NothingWeighted(5);
    NothingWeighted(1);
  }

  /** Among the red pixels the errors are the largest possible, but in one component only. */
  lemma {:induction false} ReceivedIsRed(j: Job, reds: nat, blacks: nat, greens: nat, k: nat, i: nat)
    requires Doomed(j, reds, blacks, greens) && i <= k < reds
    ensures Received(j, k, i) == Reddish(Worst(2, k, i))
    decreases i, 0
  {
    if i > 0 {
      var p: nat := i - 1;
      ReceivedIsRed(j, reds, blacks, greens, k, p);
      FinalIsRed(j, reds, blacks, greens, p);
      ReceivedNext(j, k, p, i);
      WorstNext(2, k, p, i);
      ReceiveIs(Reddish(Worst(2, k, p)), Reddish(Peak(2, p)), p, k, 2);
      NothingTaken(p, k, 2);
    }
  }

  lemma {:induction false} FinalIsRed(j: Job, reds: nat, blacks: nat, greens: nat, k: nat)
    requires Doomed(j, reds, blacks, greens) && k < reds
    ensures Received(j, k, k) == Final(j, k).err == Reddish(Peak(2, k))
    decreases k, 1
  {
    ReceivedIsRed(j, reds, blacks, greens, k, k);
    AllRedPassedOn(j, reds, blacks, greens, k, Peak(2, k));
    FinalIs(j, k, Reddish(Peak(2, k)));
  }

  lemma NothingForRed(j: Job, reds: nat, blacks: nat, greens: nat, k: nat, v: nat)
    requires Doomed(j, reds, blacks, greens) && k < |j.next| && v >= 256 * MAX_DIFF
    ensures Settle(j, k, Reddish(v)).index == 0 && Settle(j, k, Reddish(v)).color == BLACK
  {
    var w := Rounded(Reddish(v));
    Pow2Table();
    assert w.r >= MAX_DIFF && w.g == w.b == 0;
    assert Distance(w, BLACK) >= MAX_DIFF && Distance(w, GREEN) >= MAX_DIFF;
  }

  /** After enough red pixels the search fails: a pixel becomes transparent and shows something else. */
  lemma RedFails(j: Job, reds: nat, blacks: nat, greens: nat, k: nat)
    requires Doomed(j, reds, blacks, greens) && k < reds && RATE * k >= 256 * MAX_DIFF
    ensures Final(j, k).index == 0 && Final(j, k).color == BLACK && !Sound(j, k)
  {
    FinalIsRed(j, reds, blacks, greens, k);
    PeakAbove(k);
    NothingForRed(j, reds, blacks, greens, k, Peak(2, k));
    FinalIs(j, k, Reddish(Peak(2, k)));
  }

  // ----- The image.

  /** 2 by 17000 pixels. */
  function Stripes(): (colors: seq<Rgb>)
    ensures |colors| == 34000
  {
    Striped(5666, 5667, 22667)
  }

  lemma StripesShare(n: nat)
    requires n == 34000
    ensures Share(n, 1, 3) == 11333
  {
    ShareIs(n, 1, 3);
  }

  /**
   * Whatever the memory of the palette was: with the palette that is made for it, this image has a red pixel that
   * becomes transparent but is taken for black, after a blue image or none.
   */
  lemma TallFails(p: Plan, last: Option<seq<Rgb>>, k: nat)
    requires p.Sized() && p.color[0] == BLACK && FitFor(p, Stripes(), 2, true) && 5652 <= k < 5666
    requires last.Some? ==> |last.value| == 34000 && forall i :: 0 <= i < 34000 ==> last.value[i] == BLUE
    ensures var j := Job(Stripes(), last, p, 2, 2);
      Proper(j) && k < |j.next| && Final(j, k).index == 0 && Final(j, k).color == BLACK && !Sound(j, k)
  {
    StripesNoRed(p, |Stripes()|, 5666, 5667, 22667);
    StripesDoomed(Job(Stripes(), last, p, 2, 2), k);
  }

  lemma StripesNoRed(p: Plan, n: nat, reds: nat, blacks: nat, greens: nat)
    requires n == reds + blacks + greens == 34000 && reds + blacks == 11333 && blacks > 0
    requires FitFor(p, Striped(reds, blacks, greens), 2, true)
    ensures 3 < |p.color| && p.color[1] == BLACK && p.color[2] == p.color[3] == GREEN
  {
    StripesShare(n);
    NoRed(p, reds, blacks, greens, 2);
  }

  lemma StripesDoomed(j: Job, k: nat)
    requires Doomed(j, 5666, 5667, 22667) && 5652 <= k < 5666
    ensures k < |j.next| && Final(j, k).index == 0 && Final(j, k).color == BLACK && !Sound(j, k)
  {
    RedFails(j, 5666, 5667, 22667, k);
  }
}
