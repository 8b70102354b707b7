/**
 * The largest value that dithering can reach at each pixel, over all images and palettes, and so exactly for which
 * sizes the palette search never fails.
 */
module GifDitherPeak {
  import opened Bytes
  import opened GifPixels
  import opened GifTree
  import opened GifMedianSplit
  import opened GifPalettes
  import opened GifPaletteMaker
  import opened GifDither
  import opened GifDitherBound

  // ----- One component.

  /** The parts of the error of pixel i that go to pixel k. */
  function Take(v: int, err: int, i: nat, k: nat, width: nat): (r: int)
    ensures v >= 0 ==> r >= 0
    ensures v >= 0 && err >= 0 ==> r >= v
  {
    var v7 := if k == i + 1 then AddPart(v, err, 7) else v;
    GainedIs(v, err, 7);
    var v3 := if k == i + width - 1 then AddPart(v7, err, 3) else v7;
    GainedIs(v7, err, 3);
    var v5 := if k == i + width then AddPart(v3, err, 5) else v3;
    GainedIs(v3, err, 5);
    GainedIs(v5, err, 1);
    if k == i + width + 1 then AddPart(v5, err, 1) else v5
  }

  lemma GainedIs(v: int, err: int, weight: nat)
    ensures v >= 0 ==> AddPart(v, err, weight) >= 0
    ensures v >= 0 && err >= 0 ==> AddPart(v, err, weight) >= v
  {
    WeightedSign(err, weight);
  }

  lemma {:induction false} WeightedSign(err: int, weight: nat)
    ensures err >= 0 ==> Weighted(err, weight) >= 0
  {
    if weight > 0 {
      WeightedSign(err, weight - 1);
    }
  }

  lemma ReceiveIs(q: Quant, err: Quant, i: nat, k: nat, width: nat)
    ensures Receive(q, err, i, k, width)
         == Quant(Take(q.r, err.r, i, k, width), Take(q.g, err.g, i, k, width), Take(q.b, err.b, i, k, width))
  {
  }

  // ----- More of everything gives more.

  lemma {:induction false} WeightedMonotone(err: int, more: int, weight: nat)
    requires err <= more
    ensures Weighted(err, weight) <= Weighted(more, weight)
  {
    if weight > 0 {
      WeightedMonotone(err, more, weight - 1);
    }
  }

  lemma TruncMonotone(x: int, y: int)
    requires x <= y
    ensures Trunc(x, 16) <= Trunc(y, 16)
  {
  }

  lemma AddMonotone(v: int, v': int, err: int, err': int, weight: nat)
    requires v <= v' && err <= err'
    ensures AddPart(v, err, weight) <= AddPart(v', err', weight)
  {
    WeightedMonotone(err, err', weight);
    TruncMonotone(Weighted(err, weight), Weighted(err', weight));
  }

  lemma TakeMonotone(v: int, v': int, err: int, err': int, i: nat, k: nat, width: nat)
    requires v <= v' && err <= err'
    ensures Take(v, err, i, k, width) <= Take(v', err', i, k, width)
  {
    var (a, b) := (if k == i + 1 then AddPart(v, err, 7) else v, if k == i + 1 then AddPart(v', err', 7) else v');
    AddMonotone(v, v', err, err', 7);
    var (c, d) := (if k == i + width - 1 then AddPart(a, err, 3) else a,
                   if k == i + width - 1 then AddPart(b, err', 3) else b);
    AddMonotone(a, b, err, err', 3);
    var (e, f) := (if k == i + width then AddPart(c, err, 5) else c, if k == i + width then AddPart(d, err', 5) else d);
    AddMonotone(c, d, err, err', 5);
    AddMonotone(e, f, err, err', 1);
  }

  // ----- The worst case.

  const FULL := 65280

  /** What pixel k has at most when it has received the errors of the first i pixels. */
  function Worst(width: nat, k: nat, i: nat): (v: nat)
    ensures v >= FULL
    decreases i, 0
  {
    if i == 0 then FULL else Take(Worst(width, k, i - 1), Peak(width, i - 1), i - 1, k, width)
  }

  /** The largest value of pixel k, and the largest error that it can pass on. */
  function Peak(width: nat, k: nat): (v: nat)
    ensures v >= FULL
    decreases k, 1
  {
    Worst(width, k, k)
  }

  lemma WorstNext(width: nat, k: nat, i: nat, next: nat)
    requires next == i + 1
    ensures Worst(width, k, next) == Take(Worst(width, k, i), Peak(width, i), i, k, width)
  {
  }

  lemma ReceiveBelowWorst(q: Quant, err: Quant, i: nat, k: nat, width: nat, worst: nat, peak: nat)
    requires Below(q, worst) && Below(err, peak)
    ensures Below(Receive(q, err, i, k, width), Take(worst, peak, i, k, width))
  {
    ReceiveIs(q, err, i, k, width);
    TakeMonotone(q.r, worst, err.r, peak, i, k, width);
    TakeMonotone(q.g, worst, err.g, peak, i, k, width);
    TakeMonotone(q.b, worst, err.b, peak, i, k, width);
  }

  lemma {:induction false} ReceivedBelowWorst(j: Job, k: nat, i: nat)
    requires Proper(j) && i <= k < |j.next|
    ensures Below(Received(j, k, i), Worst(j.width, k, i))
    decreases i, 0
  {
    if i > 0 {
      var p: nat := i - 1;
      ReceivedBelowWorst(j, k, p);
      FinalBelowPeak(j, p);
      ReceivedNext(j, k, p, i);
      WorstNext(j.width, k, p, i);
      ReceiveBelowWorst(Received(j, k, p), Final(j, p).err, p, k, j.width, Worst(j.width, k, p), Peak(j.width, p));
    }
  }

  lemma {:induction false} FinalBelowPeak(j: Job, k: nat)
    requires Proper(j) && k < |j.next|
    ensures Below(Received(j, k, k), Peak(j.width, k)) && Below(Final(j, k).err, Peak(j.width, k))
    decreases k, 1
  {
    ReceivedBelowWorst(j, k, k);
    ErrorBelow(j, k, Received(j, k, k), Peak(j.width, k));
  }

  /** No pixel passes on more than it has. */
  lemma ErrorBelow(j: Job, k: nat, q: Quant, v: nat)
    requires Proper(j) && k < |j.next| && Below(q, v)
    ensures Below(Settle(j, k, q).err, v)
  {
  }

  // ----- The worst case occurs: a white image and a black palette.

  const BLACK := Rgb(0, 0, 0)
  const WHITE := Rgb(255, 255, 255)

  /** A complete palette, all of it black. */
  function Dark(): (p: Plan)
    ensures p.Sized() && forall e :: 0 <= e < 256 ==> p.color[e] == BLACK
  {
    Plan(seq(256, _ => BLACK), seq(256, _ => 0), seq(256, _ => 0 as byte))
  }

  lemma DarkComplete()
    ensures Complete(Dark(), 2)
  {
    Pow2Table();
  }

  function Contrast(width: nat, n: nat): (j: Job)
    ensures |j.next| == n && forall k :: 0 <= k < n ==> j.next[k] == WHITE
  {
    Job(seq(n, _ => WHITE), None, Dark(), 2, width)
  }

  lemma ContrastProper(width: nat, n: nat)
    ensures Proper(Contrast(width, n))
  {
    Pow2Table();
  }

  function Gray(v: int): Quant {
    Quant(v, v, v)
  }

  lemma {:induction false} ReceivedIsWorst(j: Job, n: nat, k: nat, i: nat)
    requires j == Contrast(j.width, n) && Proper(j) && i <= k < n
    ensures Received(j, k, i) == Gray(Worst(j.width, k, i))
    decreases i, 0
  {
    if i > 0 {
      var p: nat := i - 1;
      ReceivedIsWorst(j, n, k, p);
      FinalIsPeak(j, n, p);
      ReceivedNext(j, k, p, i);
      WorstNext(j.width, k, p, i);
      ReceiveIs(Gray(Worst(j.width, k, p)), Gray(Peak(j.width, p)), p, k, j.width);
    }
  }

  /** Every pixel becomes black, so all it has is passed on. */
  lemma {:induction false} FinalIsPeak(j: Job, n: nat, k: nat)
    requires j == Contrast(j.width, n) && Proper(j) && k < n
    ensures Received(j, k, k) == Final(j, k).err == Gray(Peak(j.width, k))
    decreases k, 1
  {
    ReceivedIsWorst(j, n, k, k);
    AllPassedOn(j, n, k, Received(j, k, k));
  }

  lemma AllPassedOn(j: Job, n: nat, k: nat, q: Quant)
    requires j == Contrast(j.width, n) && Proper(j) && k < n
    ensures Settle(j, k, q).err == q
  {
  }

  // ----- Exactly when the search never fails.

  /** The distance from black of the color wanted for a value in all components. */
  function Reach(v: nat): nat {
    3 * ((v + 127) / 256)
  }

  /** The distance of the largest wanted color from black. */
  function Farthest(width: nat, k: nat): nat {
    Reach(Peak(width, k))
  }

  /** Everything that a pixel of such an image can want is within the reach of the search. */
  ghost predicate Calm(width: nat, n: nat) {
    forall k {:trigger Farthest(width, k)} :: 0 <= k < n ==> Farthest(width, k) < MAX_DIFF
  }

  lemma NearEnough(q: Quant, c: Rgb, v: nat)
    requires NonNegative(q) && Below(q, v) && v >= FULL
    ensures Distance(Rounded(q), c) <= Reach(v)
  {
    var (w, m) := (Rounded(q), (v + 127) / 256);
    RoundedBelow(q.r, v);
    RoundedBelow(q.g, v);
    RoundedBelow(q.b, v);
    RoundedBelow(FULL, v);
    assert 0 <= w.r <= m && 0 <= w.g <= m && 0 <= w.b <= m && 255 <= m;
  }

  lemma RoundedBelow(x: nat, v: nat)
    requires x <= v
    ensures 0 <= (x + 127) / 256 <= (v + 127) / 256
  {
  }

  lemma CalmSound(j: Job, k: nat)
    requires Proper(j) && BottomNode(j.plan.elt, j.plan.split, j.depth) && k < |j.next| && Calm(j.width, |j.next|)
    ensures Sound(j, k)
  {
    FinalBelowPeak(j, k);
    var q := Received(j, k, k);
    assert Farthest(j.width, k) < MAX_DIFF;
    forall e | 0 < e < Pow2(j.depth)
      ensures Distance(Rounded(q), j.plan.color[e]) < MAX_DIFF
    {
      NearEnough(q, j.plan.color[e], Peak(j.width, k));
    }
    FoundMeansSound(j, k);
  }

  /** Where the worst case is out of reach, the white image has a pixel that becomes transparent. */
  lemma OutOfReach(j: Job, n: nat, k: nat)
    requires j == Contrast(j.width, n) && Proper(j) && k < n && Farthest(j.width, k) >= MAX_DIFF
    ensures !Sound(j, k)
  {
    FinalIsPeak(j, n, k);
    NothingFound(j, n, k, Peak(j.width, k));
    FinalIs(j, k, Gray(Peak(j.width, k)));
    assert j.last.None?;
  }

  lemma FinalIs(j: Job, k: nat, q: Quant)
    requires Proper(j) && k < |j.next| && q == Received(j, k, k)
    ensures Final(j, k) == Settle(j, k, q)
  {
  }

  lemma NothingFound(j: Job, n: nat, k: nat, v: nat)
    requires j == Contrast(j.width, n) && Proper(j) && k < n && Reach(v) >= MAX_DIFF
    ensures Settle(j, k, Gray(v)).index == 0
  {
    FarFromBlack(v);
  }

  lemma FarFromBlack(v: nat)
    ensures Distance(Rounded(Gray(v)), BLACK) == Reach(v)
  {
  }

  /** No image of this size and no complete palette makes the search fail. */
  ghost predicate AlwaysSound(width: nat, n: nat) {
    forall j: Job, k: nat {:trigger Sound(j, k)} ::
      Proper(j) && Complete(j.plan, j.depth) && j.width == width && |j.next| == n && k < n ==> Sound(j, k)
  }

  lemma SoundIff(width: nat, n: nat)
    ensures AlwaysSound(width, n) <==> Calm(width, n)
  {
    if Calm(width, n) {
      forall j: Job, k: nat
        | Proper(j) && Complete(j.plan, j.depth) && j.width == width && |j.next| == n && k < n
        ensures Sound(j, k)
      {
        CalmSound(j, k);
      }
    } else {
      var k :| 0 <= k < n && Farthest(width, k) >= MAX_DIFF;
      var j := Contrast(width, n);
      ContrastProper(width, n);
      DarkComplete();
      OutOfReach(j, n, k);
      assert !Sound(j, k);
    }
  }

  // ----- Sizes that are calm, and sizes that are not.

  const MAX_HEIGHT := 490

  /** Images of moderate height are calm, whatever their width. */
  lemma ModerateIsCalm(width: nat, height: nat)
    requires width >= 2 && height <= MAX_HEIGHT
    ensures Calm(width, Area(width, height))
  {
    var n := Area(width, height);
    var j := Contrast(width, n);
    ContrastProper(width, n);
    forall k | 0 <= k < n
      ensures Farthest(width, k) < MAX_DIFF
    {
      FinalIsPeak(j, n, k);
      FinalBelow(j, k);
      RowBelowHeight(k, width, height);
      FarthestModerate(width, k, height);
    }
  }

  lemma FarthestModerate(width: nat, k: nat, rows: nat)
    requires Peak(width, k) <= GROWTH * rows && 0 < rows <= MAX_HEIGHT
    ensures Farthest(width, k) < MAX_DIFF
  {
  }

  /** Up to 490 rows, and for any palette, no palette search of the ditherer comes back empty-handed. */
  lemma DitherSound(j: Job, k: nat, height: nat)
    requires Proper(j) && j.width >= 2 && BottomNode(j.plan.elt, j.plan.split, j.depth)
    requires k < |j.next| == Area(j.width, height) && height <= MAX_HEIGHT
    ensures Sound(j, k)
  {
    ModerateIsCalm(j.width, height);
    CalmSound(j, k);
  }

  /** By how much the worst case grows at least from pixel to pixel in an image two pixels wide. */
  const RATE := 45300

  lemma PartAdds(v: int, err: int, weight: nat, b: nat)
    requires v >= 0 && err >= b && (weight == 7 || weight == 3 || weight == 5 || weight == 1)
    ensures 16 * AddPart(v, err, weight) >= 16 * v + weight * b - 15
  {
    WeightedAdds(err, weight, b);
  }

  lemma {:induction false} WeightedAdds(err: int, weight: nat, b: nat)
    requires err >= b
    ensures Weighted(err, weight) >= weight * b
  {
    if weight > 0 {
      WeightedAdds(err, weight - 1, b);
      assert weight * b == b + (weight - 1) * b;
    }
  }

  /** What pixel i gives to pixel k at least, times 16; the next pixel gets two shares. */
  function Gift(i: nat, k: nat): int {
    if k == i + 1 then 10 * RATE * i - 30
    else if k == i + 2 then 5 * RATE * i - 15
    else if k == i + 3 then RATE * i - 15
    else 0
  }

  lemma TakeAdds(v: int, err: int, i: nat, k: nat)
    requires v >= 0 && err >= RATE * i
    ensures 16 * Take(v, err, i, k, 2) >= 16 * v + Gift(i, k)
  {
    var b := RATE * i;
    if k == i + 1 {
      PartAdds(v, err, 7, b);
      GainedIs(v, err, 7);
      PartAdds(AddPart(v, err, 7), err, 3, b);
    } else if k == i + 2 {
      PartAdds(v, err, 5, b);
    } else if k == i + 3 {
      PartAdds(v, err, 1, b);
    }
  }

  /** What pixel k has been given by the first i pixels at least, times 16. */
  function Gifts(k: nat, i: nat): int {
    if i == 0 then 0 else Gifts(k, i - 1) + Gift(i - 1, k)
  }

  lemma {:induction false} NothingYet(k: nat, i: nat)
    requires i + 3 <= k
    ensures Gifts(k, i) == 0
  {
    if i > 0 {
      NothingYet(k, i - 1);
    }
  }

  lemma GiftsNext(k: nat, i: nat, next: nat)
    requires next == i + 1
    ensures Gifts(k, next) == Gifts(k, i) + Gift(i, k)
  {
  }

  lemma GiftsEnough(k: nat)
    ensures 16 * FULL + Gifts(k, k) >= 16 * RATE * k
  {
    if k >= 3 {
      NothingYet(k, k - 3);
      GiftsNext(k, k - 3, k - 2);
    }
    if k >= 2 {
      GiftsNext(k, k - 2, k - 1);
    }
    if k >= 1 {
      GiftsNext(k, k - 1, k);
    }
  }

  lemma {:induction false} WorstAbove(k: nat, i: nat)
    requires i <= k
    ensures 16 * Worst(2, k, i) >= 16 * FULL + Gifts(k, i)
    decreases i, 0
  {
    if i > 0 {
      var p: nat := i - 1;
      WorstAbove(k, p);
      PeakAbove(p);
      WorstNext(2, k, p, i);
      GiftsNext(k, p, i);
      TakeAdds(Worst(2, k, p), Peak(2, p), p, k);
    }
  }

  lemma {:induction false} PeakAbove(k: nat)
    ensures Peak(2, k) >= RATE * k
    decreases k, 1
  {
    WorstAbove(k, k);
    GiftsEnough(k);
  }

  /** No image that is two pixels wide and has more than 1884 pixels is calm. */
  lemma TallNotCalm(n: nat)
    requires n > 1884
    ensures !Calm(2, n)
  {
    var k: nat := n - 1;
    PeakAbove(k);
    FarReach(Peak(2, k));
    assert Farthest(2, k) >= MAX_DIFF;
  }

  lemma FarReach(v: nat)
    requires v >= RATE * 1884
    ensures Reach(v) >= MAX_DIFF
  {
  }
}
