/** Quickselect over the pixels of a buffer, in place. */
module GifPartition {
  import opened GifPixels

  /** The component of a color that a node of the k-d tree splits on. */
  function Comp(c: Rgb, elt: nat): int {
    if elt == 0 then c.r as int else if elt == 1 then c.g as int else c.b as int
  }

  function Key(p: Pixel, elt: nat): int {
    Comp(p.Color(), elt)
  }

  /** No key above v; no key below v. */
  ghost predicate AtMost(s: seq<Pixel>, elt: nat, v: int) {
    forall i :: 0 <= i < |s| ==> Key(s[i], elt) <= v
  }

  ghost predicate AtLeast(s: seq<Pixel>, elt: nat, v: int) {
    forall i :: 0 <= i < |s| ==> v <= Key(s[i], elt)
  }

  /** The same colors in some order; the alpha bytes do not count. */
  ghost predicate SameColors(s: seq<Pixel>, t: seq<Pixel>) {
    multiset(Colors(s)) == multiset(Colors(t))
  }

  lemma ColorOccurs(s: seq<Pixel>, t: seq<Pixel>, i: nat) returns (j: nat)
    requires SameColors(s, t) && i < |s|
    ensures j < |t| && t[j].Color() == s[i].Color()
  {
    var c := Colors(s)[i];
    assert c in multiset(Colors(s));
    assert c in Colors(t);
    j :| 0 <= j < |t| && Colors(t)[j] == c;
  }

  lemma SameBounds(s: seq<Pixel>, t: seq<Pixel>, elt: nat, v: int)
    requires SameColors(s, t)
    ensures AtMost(s, elt, v) ==> AtMost(t, elt, v)
    ensures AtLeast(s, elt, v) ==> AtLeast(t, elt, v)
  {
    forall i | 0 <= i < |t|
      ensures AtMost(s, elt, v) ==> Key(t[i], elt) <= v
      ensures AtLeast(s, elt, v) ==> v <= Key(t[i], elt)
    {
      var j := ColorOccurs(t, s, i);
    }
  }

  lemma SameColorsConcat(s: seq<Pixel>, s': seq<Pixel>, t: seq<Pixel>, t': seq<Pixel>)
    requires SameColors(s, t) && SameColors(s', t')
    ensures SameColors(s + s', t + t')
  {
    assert Colors(s + s') == Colors(s) + Colors(s');
    assert Colors(t + t') == Colors(t) + Colors(t');
  }

  /** Exchanging the colors of two pixels; both end up with the alpha of the first. */
  function Swapped(s: seq<Pixel>, i: nat, j: nat): seq<Pixel>
    requires i < |s| && j < |s|
  {
    var (p, q) := (s[i], s[j]);
    s[i := Pixel(q.r, q.g, q.b, p.a)][j := Pixel(p.r, p.g, p.b, p.a)]
  }

  lemma SwapKeepsColors(s: seq<Pixel>, i: nat, j: nat)
    requires i < |s| && j < |s|
    ensures SameColors(Swapped(s, i, j), s)
  {
    var c := Colors(s);
    var d := c[i := c[j]][j := c[i]];
    assert Colors(Swapped(s, i, j)) == d;
    assert multiset(d) == multiset(c);
  }

  method GifSwapPixels(image: array<Pixel>, pixA: nat, pixB: nat)
    requires pixA < image.Length && pixB < image.Length
    modifies image
    ensures image[..] == Swapped(old(image[..]), pixA, pixB)
    ensures image[pixA].Color() == old(image[pixB].Color()) && image[pixB].Color() == old(image[pixA].Color())
    ensures forall k :: 0 <= k < image.Length && k != pixA && k != pixB ==> image[k] == old(image[k])
  {
    var a, b := image[pixA], image[pixB];
    var aB := image[pixA].a;
    image[pixA] := Pixel(b.r, b.g, b.b, aB);
    image[pixB] := Pixel(a.r, a.g, a.b, a.a);
  }

  /** A swap inside a range permutes the colors of the range and touches nothing else. */
  lemma SwapInRange(s: seq<Pixel>, left: nat, right: nat, i: nat, j: nat)
    requires left <= i < right <= |s| && left <= j < right
    ensures var t := Swapped(s, i, j);
      && t[..left] == s[..left]
      && t[right..] == s[right..]
      && SameColors(t[left..right], s[left..right])
  {
    var t := Swapped(s, i, j);
    SwapKeepsColors(s[left..right], i - left, j - left);
    assert t[left..right] == Swapped(s[left..right], i - left, j - left);
  }

  /** What a step that rearranges a range of the buffer may do. */
  ghost predicate Rearranged(s: seq<Pixel>, t: seq<Pixel>, left: nat, right: nat)
    requires left <= right <= |s|
  {
    && |t| == |s|
    && t[..left] == s[..left]
    && t[right..] == s[right..]
    && SameColors(t[left..right], s[left..right])
  }

  /** How many pixels have a certain key. */
  function Ties(s: seq<Pixel>, elt: nat, v: int): nat {
    if s == [] then 0 else Ties(s[..|s| - 1], elt, v) + Tie(s[|s| - 1], elt, v)
  }

  function Tie(p: Pixel, elt: nat, v: int): nat {
    if Key(p, elt) == v then 1 else 0
  }

  lemma {:induction false} TiesConcat(s: seq<Pixel>, t: seq<Pixel>, elt: nat, v: int)
    ensures Ties(s + t, elt, v) == Ties(s, elt, v) + Ties(t, elt, v)
  {
    if t == [] {
      assert s + t == s;
    } else {
      TiesConcat(s, t[..|t| - 1], elt, v);
      assert (s + t)[..|s + t| - 1] == s + t[..|t| - 1];
    }
  }

  /** Up to mid no key is above v, from there to end none is below, and ties go to both sides in turn. */
  ghost predicate Parted(s: seq<Pixel>, left: nat, mid: nat, end: nat, elt: nat, v: int, split: bool)
    requires left <= mid <= end <= |s|
  {
    && AtMost(s[left..mid], elt, v)
    && AtLeast(s[mid..end], elt, v)
    && Ties(s[mid..end], elt, v) == Ties(s[left..mid], elt, v) + if split then 1 else 0
  }

  lemma PartedRight(s: seq<Pixel>, left: nat, mid: nat, end: nat, next: nat, elt: nat, v: int, split: bool)
    requires left <= mid <= end < |s| && next == end + 1 && Parted(s, left, mid, end, elt, v, split)
    requires v < Key(s[end], elt) || (v == Key(s[end], elt) && !split)
    ensures Parted(s, left, mid, next, elt, v, split || v == Key(s[end], elt))
  {
    assert s[mid..next] == s[mid..end] + [s[end]];
    TiesConcat(s[mid..end], [s[end]], elt, v);
  }

  lemma PartedLeft(s: seq<Pixel>, left: nat, mid: nat, end: nat, mid': nat, next: nat, elt: nat, v: int, split: bool)
    requires left <= mid <= end < |s| && mid' == mid + 1 && next == end + 1
    requires Parted(s, left, mid, end, elt, v, split)
    requires Key(s[end], elt) < v || (v == Key(s[end], elt) && split)
    ensures Parted(Swapped(s, end, mid), left, mid', next, elt, v, split && v != Key(s[end], elt))
  {
    var t := Swapped(s, end, mid);
    LeftGrows(s, t, left, mid, end, mid', elt, v);
    MovedToEnd(s, t, mid, end, mid', next, elt, v);
  }

  lemma LeftGrows(s: seq<Pixel>, t: seq<Pixel>, left: nat, mid: nat, end: nat, mid': nat, elt: nat, v: int)
    requires left <= mid <= end < |s| && mid' == mid + 1 && t == Swapped(s, end, mid)
    requires AtMost(s[left..mid], elt, v) && Key(s[end], elt) <= v
    ensures AtMost(t[left..mid'], elt, v)
    ensures Ties(t[left..mid'], elt, v) == Ties(s[left..mid], elt, v) + if v == Key(s[end], elt) then 1 else 0
  {
    assert t[left..mid'] == s[left..mid] + [t[mid]];
    TiesConcat(s[left..mid], [t[mid]], elt, v);
    assert Ties([t[mid]], elt, v) == Tie(t[mid], elt, v);
  }

  /** Exchanging the first pixel of a range with the one behind it moves it to the end. */
  lemma MovedToEnd(s: seq<Pixel>, t: seq<Pixel>, mid: nat, end: nat, mid': nat, next: nat, elt: nat, v: int)
    requires mid <= end < |s| && mid' == mid + 1 && next == end + 1 && t == Swapped(s, end, mid)
    ensures Ties(t[mid'..next], elt, v) == Ties(s[mid..end], elt, v)
    ensures AtLeast(s[mid..end], elt, v) ==> AtLeast(t[mid'..next], elt, v)
  {
    if mid < end {
      var (inner, first) := (s[mid'..end], s[mid]);
      assert s[mid..end] == [first] + inner;
      assert t[mid'..next] == inner + [t[end]];
      TiesConcat([first], inner, elt, v);
      TiesConcat(inner, [t[end]], elt, v);
      assert Ties([first], elt, v) == Tie(first, elt, v) == Ties([t[end]], elt, v);
      if AtLeast(s[mid..end], elt, v) {
        assert s[mid..end][0] == first;
        forall k | 0 <= k < |inner| ensures v <= Key(inner[k], elt) {
          assert s[mid..end][k + 1] == inner[k];
        }
      }
    }
  }

  /** The pivot goes between both sides. */
  lemma PivotBetween(s: seq<Pixel>, left: nat, mid: nat, end: nat, next: nat, elt: nat, v: int, split: bool)
    requires left <= mid <= end < |s| && next == end + 1 && Parted(s, left, mid, end, elt, v, split)
    requires Key(s[end], elt) == v
    ensures Key(Swapped(s, mid, end)[mid], elt) == v
    ensures Splits(Swapped(s, mid, end), left, mid, next, elt)
    ensures Balanced(Swapped(s, mid, end), left, mid, next, elt)
  {
    var t := Swapped(s, mid, end);
    assert SwappedKeys(t, Swapped(s, end, mid), elt);
    MovedToEnd(s, Swapped(s, end, mid), mid, end, mid + 1, next, elt, v);
    SameKeys(t[mid + 1..next], Swapped(s, end, mid)[mid + 1..next], elt, v);
    assert t[left..mid] == s[left..mid];
  }

  ghost predicate SwappedKeys(s: seq<Pixel>, t: seq<Pixel>, elt: nat) {
    |s| == |t| && forall k :: 0 <= k < |s| ==> Key(s[k], elt) == Key(t[k], elt)
  }

  lemma {:induction false} SameKeys(s: seq<Pixel>, t: seq<Pixel>, elt: nat, v: int)
    requires SwappedKeys(s, t, elt)
    ensures Ties(s, elt, v) == Ties(t, elt, v)
    ensures AtLeast(s, elt, v) ==> AtLeast(t, elt, v)
    ensures AtLeast(t, elt, v) ==> AtLeast(s, elt, v)
  {
    if s != [] {
      SameKeys(s[..|s| - 1], t[..|t| - 1], elt, v);
    }
  }

  /** The keys equal to the one in the center are as many on both sides, or one more on the right. */
  ghost predicate Balanced(s: seq<Pixel>, left: nat, center: nat, right: nat, elt: nat)
    requires left <= center < right <= |s|
  {
    var v := Key(s[center], elt);
    Ties(s[left..center], elt, v) <= Ties(s[center + 1..right], elt, v) <= Ties(s[left..center], elt, v) + 1
  }

  method SwapInside(image: array<Pixel>, left: nat, right: nat, i: nat, j: nat, ghost first: seq<Pixel>)
    requires left <= i < right <= image.Length && left <= j < right && |first| == image.Length
    requires Rearranged(first, image[..], left, right)
    modifies image
    ensures image[..] == Swapped(old(image[..]), i, j)
    ensures Rearranged(first, image[..], left, right)
  {
    SwapInRange(image[..], left, right, i, j);
    GifSwapPixels(image, i, j);
  }

  /** One more pixel goes to its side of the pivot. */
  method PartitionStep(image: array<Pixel>, left: nat, storeIndex: nat, ii: nat, next: nat, right: nat, elt: nat,
                       pivotValue: int, split: bool, ghost first: seq<Pixel>)
    returns (storeIndex': nat, split': bool)
    requires left <= storeIndex <= ii < right - 1 && next == ii + 1 && right <= image.Length == |first|
    requires Rearranged(first, image[..], left, right) && Key(image[right - 1], elt) == pivotValue
    requires Parted(image[..], left, storeIndex, ii, elt, pivotValue, split)
    modifies image
    ensures Rearranged(first, image[..], left, right) && Key(image[right - 1], elt) == pivotValue
    ensures left <= storeIndex' <= next && Parted(image[..], left, storeIndex', next, elt, pivotValue, split')
  {
    var arrayVal := Key(image[ii], elt);
    storeIndex', split' := storeIndex, split;
    if arrayVal < pivotValue {
      storeIndex' := storeIndex + 1;
      PartedLeft(image[..], left, storeIndex, ii, storeIndex', next, elt, pivotValue, split);
      SwapInside(image, left, right, ii, storeIndex, first);
    } else if arrayVal == pivotValue {
      if split {
        storeIndex' := storeIndex + 1;
        PartedLeft(image[..], left, storeIndex, ii, storeIndex', next, elt, pivotValue, split);
        SwapInside(image, left, right, ii, storeIndex, first);
      } else {
        PartedRight(image[..], left, storeIndex, ii, next, elt, pivotValue, split);
      }
      split' := !split;
    } else {
      PartedRight(image[..], left, storeIndex, ii, next, elt, pivotValue, split);
    }
  }

  /** The partition operation of quicksort. */
  method GifPartition(image: array<Pixel>, left: nat, right: nat, elt: nat, pivotIndex: nat) returns (storeIndex: nat)
    requires left <= pivotIndex < right <= image.Length
    modifies image
    ensures left <= storeIndex < right
    ensures Rearranged(old(image[..]), image[..], left, right)
    ensures Key(image[storeIndex], elt) == old(Key(image[pivotIndex], elt))
    ensures Splits(image[..], left, storeIndex, right, elt)
    ensures Balanced(image[..], left, storeIndex, right, elt)
  {
    ghost var first := image[..];
    var (pivotValue, last) := (Key(image[pivotIndex], elt), right - 1);
    SwapInside(image, left, right, pivotIndex, last, first);
    storeIndex := left;
    var split := false;
    var ii := left;
    while ii < last
      invariant left <= storeIndex <= ii < right
      invariant Rearranged(first, image[..], left, right)
      invariant Key(image[last], elt) == pivotValue
      invariant Parted(image[..], left, storeIndex, ii, elt, pivotValue, split)
    {
      var next := ii + 1;
      storeIndex, split := PartitionStep(image, left, storeIndex, ii, next, right, elt, pivotValue, split, first);
      ii := next;
    }
    PivotBetween(image[..], left, storeIndex, last, right, elt, pivotValue, split);
    SwapInside(image, left, right, storeIndex, last, first);
  }

  /** Rearranging a part of the range rearranges the range. */
  lemma RearrangedWithin(s: seq<Pixel>, t: seq<Pixel>, u: seq<Pixel>, left: nat, l: nat, r: nat, right: nat)
    requires left <= l <= r <= right <= |s|
    requires Rearranged(s, t, left, right) && Rearranged(t, u, l, r)
    ensures Rearranged(s, u, left, right)
  {
    assert u[..left] == u[..l][..left] && t[..left] == t[..l][..left];
    assert u[right..] == u[r..][right - r..] && t[right..] == t[r..][right - r..];
    assert u[left..l] == u[..l][left..] && t[left..l] == t[..l][left..];
    assert u[r..right] == u[r..][..right - r] && t[r..right] == t[r..][..right - r];
    SameColorsConcat(u[left..l], u[l..r], t[left..l], t[l..r]);
    SameColorsConcat(u[left..l] + u[l..r], u[r..right], t[left..l] + t[l..r], t[r..right]);
    assert u[left..right] == u[left..l] + u[l..r] + u[r..right];
    assert t[left..right] == t[left..l] + t[l..r] + t[r..right];
  }

  /** Nothing before the position has a greater key, nothing behind it a smaller one. */
  ghost predicate Splits(s: seq<Pixel>, left: nat, center: nat, right: nat, elt: nat)
    requires left <= center < right <= |s|
  {
    && AtMost(s[left..center], elt, Key(s[center], elt))
    && AtLeast(s[center + 1..right], elt, Key(s[center], elt))
  }

  lemma SplitsByLeftPart(s: seq<Pixel>, t: seq<Pixel>, left: nat, center: nat, p: nat, right: nat, elt: nat)
    requires left <= center < p < right <= |s|
    requires Splits(s, left, p, right, elt) && Rearranged(s, t, left, p) && Splits(t, left, center, p, elt)
    ensures Splits(t, left, center, right, elt)
  {
    SameBounds(s[left..p], t[left..p], elt, Key(s[p], elt));
    assert t[left..p][center - left] == t[center];
    assert forall k :: p <= k < |s| ==> t[k] == t[p..][k - p] == s[p..][k - p] == s[k];
    forall k | center + 1 <= k < right
      ensures Key(t[center], elt) <= Key(t[k], elt)
    {
      if k < p {
        assert t[center + 1..p][k - center - 1] == t[k];
      } else if k > p {
        assert s[p + 1..right][k - p - 1] == s[k];
      }
    }
  }

  lemma SplitsByRightPart(s: seq<Pixel>, t: seq<Pixel>, left: nat, p: nat, center: nat, right: nat, elt: nat)
    requires left <= p < center < right <= |s|
    requires Splits(s, left, p, right, elt) && Rearranged(s, t, p + 1, right) && Splits(t, p + 1, center, right, elt)
    ensures Splits(t, left, center, right, elt)
  {
    SameBounds(s[p + 1..right], t[p + 1..right], elt, Key(s[p], elt));
    assert t[p + 1..right][center - p - 1] == t[center];
    assert forall k :: 0 <= k <= p ==> t[k] == t[..p + 1][k] == s[..p + 1][k] == s[k];
    forall k | left <= k < center
      ensures Key(t[k], elt) <= Key(t[center], elt)
    {
      if k > p {
        assert t[p + 1..center][k - p - 1] == t[k];
      } else if k < p {
        assert s[left..p][k - left] == s[k];
      }
    }
  }

  /** An incomplete sort that puts the right pixel at the needed center. */
  method GifPartitionByMedian(image: array<Pixel>, left: nat, right: nat, com: nat, neededCenter: nat)
    requires left <= neededCenter < right <= image.Length
    modifies image
    ensures Rearranged(old(image[..]), image[..], left, right)
    ensures Splits(image[..], left, neededCenter, right, com)
    decreases right - left
  {
    ghost var s := image[..];
    if left < right - 1 {
      var pivotIndex := left + (right - left) / 2;
      pivotIndex := GifPartition(image, left, right, com, pivotIndex);
      ghost var t := image[..];
      if pivotIndex > neededCenter {
        GifPartitionByMedian(image, left, pivotIndex, com, neededCenter);
        LeftPartDone(s, t, image[..], left, neededCenter, pivotIndex, right, com);
      } else if pivotIndex < neededCenter {
        GifPartitionByMedian(image, pivotIndex + 1, right, com, neededCenter);
        RightPartDone(s, t, image[..], left, pivotIndex, neededCenter, right, com);
      }
    } else {
      OnePixelDone(s, left, neededCenter, right, com);
    }
  }

  lemma OnePixelDone(s: seq<Pixel>, left: nat, center: nat, right: nat, elt: nat)
    requires left <= center < right <= |s| && right == left + 1
    ensures Rearranged(s, s, left, right) && Splits(s, left, center, right, elt)
  {
  }

  lemma LeftPartDone(s: seq<Pixel>, t: seq<Pixel>, u: seq<Pixel>, left: nat, center: nat, p: nat, right: nat, elt: nat)
    requires left <= center < p < right <= |s| && Rearranged(s, t, left, right) && Splits(t, left, p, right, elt)
    requires Rearranged(t, u, left, p) && Splits(u, left, center, p, elt)
    ensures Rearranged(s, u, left, right) && Splits(u, left, center, right, elt)
  {
    RearrangedWithin(s, t, u, left, left, p, right);
    SplitsByLeftPart(t, u, left, center, p, right, elt);
  }

  lemma RightPartDone(s: seq<Pixel>, t: seq<Pixel>, u: seq<Pixel>, left: nat, p: nat, center: nat, right: nat, elt: nat)
    requires left <= p < center < right <= |s| && Rearranged(s, t, left, right) && Splits(t, left, p, right, elt)
    requires Rearranged(t, u, p + 1, right) && Splits(u, p + 1, center, right, elt)
    ensures Rearranged(s, u, left, right) && Splits(u, left, center, right, elt)
  {
    RearrangedWithin(s, t, u, left, p + 1, right, right);
    SplitsByRightPart(t, u, left, p, center, right, elt);
  }
}
