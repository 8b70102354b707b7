/** Colors that stand for a group of pixels: rounded average, darkest and brightest. */
module GifColors {
  import opened Bytes
  import opened GifPixels
  import opened GifPartition

  /** The color obeys every bound, on any component, that all the pixels obey. */
  ghost predicate Within(c: Rgb, s: seq<Pixel>) {
    forall elt: nat, v ::
      (AtMost(s, elt, v) ==> Comp(c, elt) <= v) && (AtLeast(s, elt, v) ==> v <= Comp(c, elt))
  }

  lemma WithinSame(c: Rgb, s: seq<Pixel>, t: seq<Pixel>)
    requires Within(c, s) && SameColors(s, t)
    ensures Within(c, t)
  {
    forall elt: nat, v
      ensures (AtMost(t, elt, v) ==> Comp(c, elt) <= v) && (AtLeast(t, elt, v) ==> v <= Comp(c, elt))
    {
      SameBounds(t, s, elt, v);
    }
  }

  lemma WithinPart(c: Rgb, s: seq<Pixel>, l: nat, r: nat)
    requires l <= r <= |s| && Within(c, s[l..r])
    ensures Within(c, s)
  {
    forall elt: nat, v
      ensures (AtMost(s, elt, v) ==> Comp(c, elt) <= v) && (AtLeast(s, elt, v) ==> v <= Comp(c, elt))
    {
      assert AtMost(s, elt, v) ==> AtMost(s[l..r], elt, v);
      assert AtLeast(s, elt, v) ==> AtLeast(s[l..r], elt, v);
    }
  }

  // ----- Averages.

  function Sum(s: seq<Pixel>, elt: nat): int {
    if s == [] then 0 else Sum(s[..|s| - 1], elt) + Key(s[|s| - 1], elt)
  }

  lemma {:induction false} SumAtMost(s: seq<Pixel>, elt: nat, v: int)
    requires AtMost(s, elt, v)
    ensures Sum(s, elt) <= |s| * v
  {
    if s != [] {
      var n := |s| - 1;
      SumAtMost(s[..n], elt, v);
      OnceMore(n, |s|, v);
    }
  }

  lemma {:induction false} SumAtLeast(s: seq<Pixel>, elt: nat, v: int)
    requires AtLeast(s, elt, v)
    ensures |s| * v <= Sum(s, elt)
  {
    if s != [] {
      var n := |s| - 1;
      SumAtLeast(s[..n], elt, v);
      OnceMore(n, |s|, v);
    }
  }

  lemma OnceMore(n: nat, next: nat, v: int)
    requires next == n + 1
    ensures next * v == n * v + v
  {
  }

  function RoundedMean(sum: int, n: nat): int
    requires n > 0
  {
    (sum + n / 2) / n
  }

  lemma MeanInBounds(s: seq<Pixel>, elt: nat, v: int)
    requires s != []
    ensures AtMost(s, elt, v) ==> RoundedMean(Sum(s, elt), |s|) <= v
    ensures AtLeast(s, elt, v) ==> v <= RoundedMean(Sum(s, elt), |s|)
  {
    if AtMost(s, elt, v) {
      SumAtMost(s, elt, v);
    }
    if AtLeast(s, elt, v) {
      SumAtLeast(s, elt, v);
    }
    MeanBelow(Sum(s, elt), |s|, v);
  }

  lemma MeanBelow(sum: int, n: nat, v: int)
    requires n > 0
    ensures sum <= n * v ==> RoundedMean(sum, n) <= v
    ensures n * v <= sum ==> v <= RoundedMean(sum, n)
  {
    var q := RoundedMean(sum, n);
    var r := (sum + n / 2) % n;
    assert sum + n / 2 == n * q + r && r < n;
    MulMonotone(n, q, v);
  }

  /** Comparing multiples: the quotient q against a bound v. */
  lemma MulMonotone(n: nat, q: int, v: int)
    ensures q >= v + 1 ==> n * q >= n * v + n
    ensures q <= v - 1 ==> n * q <= n * v - n
  {
    if q >= v + 1 {
      assert n * q >= n * (v + 1);
    } else if q <= v - 1 {
      assert n * q <= n * (v - 1);
    }
  }

  lemma KeysAreBytes(s: seq<Pixel>, elt: nat)
    ensures AtMost(s, elt, 255) && AtLeast(s, elt, 0)
  {
  }

  /** Averages of bytes fit in a byte. */
  lemma MeanFits(s: seq<Pixel>)
    requires s != []
    ensures forall elt :: 0 <= elt < 3 ==> 0 <= RoundedMean(Sum(s, elt), |s|) <= 255
  {
    forall elt | 0 <= elt < 3 ensures 0 <= RoundedMean(Sum(s, elt), |s|) <= 255 {
      KeysAreBytes(s, elt);
      MeanInBounds(s, elt, 255);
      MeanInBounds(s, elt, 0);
    }
  }

  function MeanColor(s: seq<Pixel>): (c: Rgb)
    requires s != []
    ensures Within(c, s)
  {
    MeanFits(s);
    var c := Rgb(RoundedMean(Sum(s, 0), |s|) as byte, RoundedMean(Sum(s, 1), |s|) as byte,
                 RoundedMean(Sum(s, 2), |s|) as byte);
    MeanWithin(c, s);
    c
  }

  lemma MeanWithin(c: Rgb, s: seq<Pixel>)
    requires s != []
    requires c.r as int == RoundedMean(Sum(s, 0), |s|)
    requires c.g as int == RoundedMean(Sum(s, 1), |s|)
    requires c.b as int == RoundedMean(Sum(s, 2), |s|)
    ensures Within(c, s)
  {
    forall elt: nat, v
      ensures (AtMost(s, elt, v) ==> Comp(c, elt) <= v) && (AtLeast(s, elt, v) ==> v <= Comp(c, elt))
    {
      var e := if elt < 2 then elt else 2;
      assert AtMost(s, elt, v) ==> AtMost(s, e, v);
      assert AtLeast(s, elt, v) ==> AtLeast(s, e, v);
      MeanInBounds(s, e, v);
    }
  }

  // ----- Extremes.

  function Lesser(a: byte, b: byte): byte {
    if a < b then a else b
  }

  function Greater(a: byte, b: byte): byte {
    if a > b then a else b
  }

  function Darkest(s: seq<Pixel>): Rgb {
    if s == [] then Rgb(255, 255, 255) else
      var (c, p) := (Darkest(s[..|s| - 1]), s[|s| - 1]);
      Rgb(Lesser(c.r, p.r), Lesser(c.g, p.g), Lesser(c.b, p.b))
  }

  function Brightest(s: seq<Pixel>): Rgb {
    if s == [] then Rgb(0, 0, 0) else
      var (c, p) := (Brightest(s[..|s| - 1]), s[|s| - 1]);
      Rgb(Greater(c.r, p.r), Greater(c.g, p.g), Greater(c.b, p.b))
  }

  /** A pixel has this value. */
  ghost predicate Attained(s: seq<Pixel>, elt: nat, v: int) {
    exists i {:trigger s[i]} :: 0 <= i < |s| && Key(s[i], elt) == v
  }

  lemma AttainedNext(s: seq<Pixel>, n: nat, elt: nat, v: int)
    requires |s| == n + 1 && (Attained(s[..n], elt, v) || Key(s[n], elt) == v)
    ensures Attained(s, elt, v)
  {
    if Attained(s[..n], elt, v) {
      var i :| 0 <= i < n && Key(s[..n][i], elt) == v;
      assert s[i] == s[..n][i];
    }
  }

  lemma BoundsNext(s: seq<Pixel>, n: nat, elt: nat, lo: int, hi: int)
    requires |s| == n + 1 && lo <= Key(s[n], elt) <= hi
    ensures AtLeast(s[..n], elt, lo) ==> AtLeast(s, elt, lo)
    ensures AtMost(s[..n], elt, hi) ==> AtMost(s, elt, hi)
  {
    forall k | 0 <= k < n
      ensures s[k] == s[..n][k]
    {
    }
  }

  lemma Weaken(s: seq<Pixel>, elt: nat, v: int, w: int)
    ensures w <= v && AtLeast(s, elt, v) ==> AtLeast(s, elt, w)
    ensures v <= w && AtMost(s, elt, v) ==> AtMost(s, elt, w)
  {
  }

  lemma ExtremesNext(s: seq<Pixel>, n: nat, elt: nat)
    requires |s| == n + 1
    ensures Comp(Darkest(s), elt) == Smaller(Comp(Darkest(s[..n]), elt), Key(s[n], elt))
    ensures Comp(Brightest(s), elt) == Larger(Comp(Brightest(s[..n]), elt), Key(s[n], elt))
  {
  }

  function Smaller(a: int, b: int): int {
    if a < b then a else b
  }

  function Larger(a: int, b: int): int {
    if a > b then a else b
  }

  lemma ExtremesOfOne(s: seq<Pixel>, elt: nat)
    requires |s| == 1
    ensures Comp(Darkest(s), elt) == Comp(Brightest(s), elt) == Key(s[0], elt)
  {
    assert s[..0] == [];
    ExtremesNext(s, 0, elt);
  }

  lemma {:induction false} DarkestAttained(s: seq<Pixel>, elt: nat)
    requires s != []
    ensures AtLeast(s, elt, Comp(Darkest(s), elt)) && Attained(s, elt, Comp(Darkest(s), elt))
  {
    var (n, v) := (|s| - 1, Comp(Darkest(s), elt));
    if n == 0 {
      ExtremesOfOne(s, elt);
    } else {
      DarkestAttained(s[..n], elt);
      ExtremesNext(s, n, elt);
      Weaken(s[..n], elt, Comp(Darkest(s[..n]), elt), v);
    }
    BoundsNext(s, n, elt, v, Key(s[n], elt));
    AttainedNext(s, n, elt, v);
  }

  lemma {:induction false} BrightestAttained(s: seq<Pixel>, elt: nat)
    requires s != []
    ensures AtMost(s, elt, Comp(Brightest(s), elt)) && Attained(s, elt, Comp(Brightest(s), elt))
  {
    var (n, v) := (|s| - 1, Comp(Brightest(s), elt));
    if n == 0 {
      ExtremesOfOne(s, elt);
    } else {
      BrightestAttained(s[..n], elt);
      ExtremesNext(s, n, elt);
      Weaken(s[..n], elt, Comp(Brightest(s[..n]), elt), v);
    }
    BoundsNext(s, n, elt, Key(s[n], elt), v);
    AttainedNext(s, n, elt, v);
  }

  /** The extremes bound every pixel and are attained, component by component. */
  lemma ExtremesAttained(s: seq<Pixel>, elt: nat)
    requires s != []
    ensures AtLeast(s, elt, Comp(Darkest(s), elt)) && Attained(s, elt, Comp(Darkest(s), elt))
    ensures AtMost(s, elt, Comp(Brightest(s), elt)) && Attained(s, elt, Comp(Brightest(s), elt))
  {
    DarkestAttained(s, elt);
    BrightestAttained(s, elt);
  }

  lemma ExtremesWithin(s: seq<Pixel>)
    requires s != []
    ensures Within(Darkest(s), s) && Within(Brightest(s), s)
  {
    forall elt: nat, v
      ensures AtMost(s, elt, v) ==> Comp(Darkest(s), elt) <= v && Comp(Brightest(s), elt) <= v
      ensures AtLeast(s, elt, v) ==> v <= Comp(Darkest(s), elt) && v <= Comp(Brightest(s), elt)
    {
      ExtremesAttained(s, elt);
    }
  }
}
