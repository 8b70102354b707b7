/** What a reader makes of an icon file, and why a bitmap that was stored comes back. */
module IcoReadBack {
  import opened Bytes
  import opened IcoFormat

  // ----- The reader.

  const HEADER_SIZE := 6
  const ENTRY_SIZE := 16

  /** Where entry i of the directory starts. */
  function EntryAt(i: nat): nat {
    HEADER_SIZE + ENTRY_SIZE * i
  }

  /** The entry of a bitmap in the directory: zero colors, planes and reserved bytes. */
  function Entry(s: Shape, length: nat, offset: nat): (r: seq<byte>)
    requires s.width < 256 && s.height < 256
    ensures |r| == ENTRY_SIZE
  {
    [s.width as byte, s.height as byte, 0, 0] + Le16(0) + Le16(Bpp(s.channels)) + Le32(length) + Le32(offset)
  }

  function Bit(v: byte, b: nat): bool {
    v as nat / Pow2(b) % 2 == 1
  }

  /** The color of pixel x in a row of four or three bytes a pixel. */
  function ColorAt(scanline: seq<byte>, alpha: bool, x: nat): Rgba
    requires PixelBytes(alpha, x + 1) <= |scanline|
  {
    if alpha then Rgba(scanline[4 * x + 2], scanline[4 * x + 1], scanline[4 * x], scanline[4 * x + 3])
    else Rgba(scanline[3 * x + 2], scanline[3 * x + 1], scanline[3 * x], 0)
  }

  /** Without an alpha channel the mask decides. */
  function MaskedAt(scanline: seq<byte>, x: nat): byte
    requires x / 8 < |scanline|
  {
    if Bit(scanline[x / 8], 7 - x % 8) then 0 else 255
  }

  function ReadPixel(xor: seq<byte>, mask: seq<byte>, alpha: bool, x: nat): Rgba
    requires PixelBytes(alpha, x + 1) <= |xor| && (!alpha ==> x / 8 < |mask|)
  {
    if alpha then ColorAt(xor, alpha, x) else ColorAt(xor, alpha, x).(a := MaskedAt(mask, x))
  }

  function ReadRow(xor: seq<byte>, mask: seq<byte>, alpha: bool, width: nat): (row: seq<Rgba>)
    requires |xor| == XorWidth(width, alpha) && (!alpha ==> |mask| == AndWidth(width))
  {
    seq(width, x requires 0 <= x < width => (InMask(x, width); ReadPixel(xor, mask, alpha, x)))
  }

  lemma InMask(x: nat, width: nat)
    requires x < width
    ensures x / 8 < Octets(width)
  {
    OctetsAre(width);
  }

  /** The bytes of the colors, and of the mask if it matters. */
  function Needed(width: nat, height: nat, alpha: bool): nat {
    Area(XorWidth(width, alpha), height) + if alpha then 0 else Area(AndWidth(width), height)
  }

  /** Row k of a bitmap that starts behind its header. */
  function ReadRowAt(data: seq<byte>, width: nat, height: nat, alpha: bool, k: nat): seq<Rgba>
    requires Needed(width, height, alpha) <= |data| && k < height
  {
    RowFits(XorWidth(width, alpha), k, height);
    RowFits(AndWidth(width), k, height);
    var xor := Slice(data, XorWidth(width, alpha), k);
    var mask := if alpha then [] else Slice(data[Area(XorWidth(width, alpha), height)..], AndWidth(width), k);
    ReadRow(xor, mask, alpha, width)
  }

  /** The image; the last row comes first in the file. */
  function ReadRows(data: seq<byte>, width: nat, height: nat, alpha: bool): (rows: seq<seq<Rgba>>)
    requires Needed(width, height, alpha) <= |data|
    ensures |rows| == height
  {
    seq(height, y requires 0 <= y < height => ReadRowAt(data, width, height, alpha, height - 1 - y))
  }

  function Sized(n: byte): nat {
    if n == 0 then 256 else n as nat
  }

  /** Whether the reader takes the bytes for a PNG image. */
  predicate IsPng(f: seq<byte>, at: nat)
    requires at + 8 <= |f|
  {
    f[at + 1] == 0x50 && f[at + 2] == 0x4e && f[at + 3] == 0x47
  }

  /** The fields of entry i that the reader uses. */
  datatype Found = Found(width: nat, height: nat, offset: nat, bpp: nat)

  /** Find subimage i and the depth of its bitmap; None is an error or a PNG image. */
  function FindImage(f: seq<byte>, i: nat): Option<Found> {
    var at := EntryAt(i);
    if |f| < at + ENTRY_SIZE then None
    else
      var (depth, offset) := (Num16(f, at + 6), Num32(f, at + 12));
      if !(depth in {1, 4, 8, 16, 24, 32}) || f[at + 3] != 0 then None
      else if |f| < offset + INFO_SIZE || IsPng(f, offset) then None
      else
        var bpp := Num16(f, offset + 14);
        if bpp in {1, 4, 8, 24, 32} then Some(Found(Sized(f[at]), Sized(f[at + 1]), offset, bpp)) else None
  }

  /** Subimage i, unless it has a palette; those are not modelled. */
  function ReadImage(f: seq<byte>, i: nat): Option<seq<seq<Rgba>>> {
    match FindImage(f, i)
    case None => None
    case Some(d) =>
      var alpha := d.bpp == 32;
      if d.bpp < 24 || |f| - d.offset - INFO_SIZE < Needed(d.width, d.height, alpha) then None
      else Some(ReadRows(f[d.offset + INFO_SIZE..], d.width, d.height, alpha))
  }

  // ----- A stored row comes back.

  /** All rows have been written. */
  predicate Complete(rows: Rows) {
    forall y :: 0 <= y < |rows| ==> rows[y].Some?
  }

  /** How an image appears to a reader. */
  function SeenRow(row: seq<Pixel>, channels: nat): (r: seq<Rgba>)
    requires IsRow(row, |row|, channels) && 1 <= channels <= 4
    ensures |r| == |row| && forall x :: 0 <= x < |row| ==> r[x] == Seen(row[x], channels)
  {
    seq(|row|, x requires 0 <= x < |row| => Seen(row[x], channels))
  }

  function SeenRows(rows: Rows, s: Shape): (r: seq<seq<Rgba>>)
    requires Storable(s) && Fits(rows, s) && Complete(rows)
    ensures |r| == s.height
    ensures forall y :: 0 <= y < s.height ==> r[y] == SeenRow(rows[y].value, s.channels)
  {
    seq(s.height, y requires 0 <= y < s.height => SeenRow(rows[y].value, s.channels))
  }

  lemma {:induction false} PixelsAt(row: seq<Pixel>, channels: nat, n: nat, x: nat)
    requires x < n <= |row| && IsRow(row, |row|, channels) && 1 <= channels <= 4
    ensures PixelBytes(HasAlpha(channels), x + 1) <= |Pixels(row, channels, n)|
    ensures Pixels(row, channels, n)[PixelBytes(HasAlpha(channels), x)..PixelBytes(HasAlpha(channels), x + 1)]
         == Bgr(row[x], channels)
  {
    var (s, t) := (Pixels(row, channels, n - 1), Bgr(row[n - 1], channels));
    if x < n - 1 {
      PixelsAt(row, channels, n - 1, x);
      InFirst(s, t, PixelBytes(HasAlpha(channels), x), PixelBytes(HasAlpha(channels), x + 1));
    } else {
      AtEnd(s, t);
    }
  }

  lemma InFirst(s: seq<byte>, t: seq<byte>, from: nat, to: nat)
    requires from <= to <= |s|
    ensures (s + t)[from..to] == s[from..to]
  {
  }

  lemma AtEnd(s: seq<byte>, t: seq<byte>)
    ensures (s + t)[|s|..|s| + |t|] == t
  {
  }

  lemma ColorBack(xor: seq<byte>, p: Pixel, channels: nat, x: nat)
    requires |p| == channels && 1 <= channels <= 4 && PixelBytes(HasAlpha(channels), x + 1) <= |xor|
    requires xor[PixelBytes(HasAlpha(channels), x)..PixelBytes(HasAlpha(channels), x + 1)] == Bgr(p, channels)
    ensures var c := ColorAt(xor, HasAlpha(channels), x);
      if HasAlpha(channels) then c == Seen(p, channels) else c.(a := 255) == Seen(p, channels)
  {
    var piece := xor[PixelBytes(HasAlpha(channels), x)..PixelBytes(HasAlpha(channels), x + 1)];
    assert piece[0] == xor[PixelBytes(HasAlpha(channels), x)] && piece[1] == xor[PixelBytes(HasAlpha(channels), x) + 1];
    assert piece[2] == xor[PixelBytes(HasAlpha(channels), x) + 2];
    if HasAlpha(channels) {
      assert piece[3] == xor[PixelBytes(HasAlpha(channels), x) + 3];
    }
  }

  lemma XorRowAtPixel(row: seq<Pixel>, s: Shape, x: nat)
    requires Storable(s) && IsRow(row, s.width, s.channels) && x < s.width
    ensures PixelBytes(HasAlpha(s.channels), x + 1) <= XorBytes(s)
    ensures XorRow(Some(row), s)[PixelBytes(HasAlpha(s.channels), x)..PixelBytes(HasAlpha(s.channels), x + 1)] == Bgr(row[x], s.channels)
  {
    PixelsAt(row, s.channels, s.width, x);
    var data := Pixels(row, s.channels, s.width);
    InFirst(data, Zeros(XorBytes(s) - |data|), PixelBytes(HasAlpha(s.channels), x), PixelBytes(HasAlpha(s.channels), x + 1));
  }

  lemma PixelBack(row: seq<Pixel>, s: Shape, mask: seq<byte>, x: nat)
    requires Storable(s) && IsRow(row, s.width, s.channels) && x < s.width
    requires !HasAlpha(s.channels) ==> x / 8 < |mask| && mask[x / 8] == 0
    ensures PixelBytes(HasAlpha(s.channels), x + 1) <= XorBytes(s)
    ensures ReadPixel(XorRow(Some(row), s), mask, HasAlpha(s.channels), x) == Seen(row[x], s.channels)
  {
    XorRowAtPixel(row, s, x);
    ColorBack(XorRow(Some(row), s), row[x], s.channels, x);
    if !HasAlpha(s.channels) {
      NoBit(7 - x % 8);
    }
  }

  lemma NoBit(b: nat)
    ensures !Bit(0, b)
  {
  }

  lemma RowBack(row: seq<Pixel>, s: Shape, mask: seq<byte>)
    requires Storable(s) && IsRow(row, s.width, s.channels)
    requires !HasAlpha(s.channels) ==> mask == Zeros(AndBytes(s))
    ensures ReadRow(XorRow(Some(row), s), mask, HasAlpha(s.channels), s.width) == SeenRow(row, s.channels)
  {
    forall x | 0 <= x < s.width
      ensures x / 8 < AndBytes(s) && PixelBytes(HasAlpha(s.channels), x + 1) <= XorBytes(s)
      ensures ReadPixel(XorRow(Some(row), s), mask, HasAlpha(s.channels), x) == Seen(row[x], s.channels)
    {
      InMask(x, s.width);
      PixelBack(row, s, mask, x);
    }
  }

  // ----- A stored bitmap comes back.

  /** The bytes at an offset are the bitmap. */
  ghost predicate Holds(f: seq<byte>, offset: nat, rows: Rows, s: Shape)
    requires Storable(s) && Fits(rows, s)
  {
    offset + |Dib(rows, s)| <= |f| && f[offset..offset + |Dib(rows, s)|] == Dib(rows, s)
  }

  lemma PartsOfDib(f: seq<byte>, offset: nat, rows: Rows, s: Shape)
    requires Storable(s) && Fits(rows, s) && Holds(f, offset, rows, s)
    ensures var data := f[offset + INFO_SIZE..];
      && MaskedBytes(s) <= |data| && f[offset..offset + INFO_SIZE] == Info(s)
      && XorPart(rows, s) <= data && AndPart(rows, s) <= data[Area(XorBytes(s), s.height)..]
  {
    ThreeParts(f, offset, Info(s), XorPart(rows, s), AndPart(rows, s));
  }

  lemma ThreeParts(f: seq<byte>, at: nat, a: seq<byte>, b: seq<byte>, c: seq<byte>)
    requires at + |a + b + c| <= |f| && f[at..at + |a + b + c|] == a + b + c
    ensures f[at..at + |a|] == a && b <= f[at + |a|..] && c <= f[at + |a|..][|b|..]
  {
    var whole := f[at..at + |a + b + c|];
    forall k | 0 <= k < |a + b + c|
      ensures f[at + k] == if k < |a| then a[k] else if k < |a| + |b| then b[k - |a|] else c[k - |a| - |b|]
    {
      assert whole[k] == f[at + k];
    }
    var rest := f[at + |a|..];
    forall k | 0 <= k < |b|
      ensures rest[k] == b[k]
    {
      assert rest[k] == f[at + (|a| + k)];
    }
    forall k | 0 <= k < |c|
      ensures rest[|b|..][k] == c[k]
    {
      assert rest[|b|..][k] == f[at + (|a| + |b| + k)];
    }
  }

  lemma SliceOfStart(data: seq<byte>, part: seq<byte>, width: nat, k: nat)
    requires part <= data && Area(width, k) + width <= |part|
    ensures Slice(data, width, k) == Slice(part, width, k)
  {
  }

  lemma XorSlice(data: seq<byte>, rows: Rows, s: Shape, k: nat, y: nat)
    requires Storable(s) && Fits(rows, s) && k < s.height && y == s.height - 1 - k && XorPart(rows, s) <= data
    ensures Area(XorBytes(s), k) + XorBytes(s) <= |data|
    ensures Slice(data, XorBytes(s), k) == XorRowAt(rows, s, y)
  {
    XorRowsWide(rows, s);
    StackAt(XorRows(rows, s), XorBytes(s), s.height, k);
    SliceOfStart(data, XorPart(rows, s), XorBytes(s), k);
  }

  lemma AndSlice(data: seq<byte>, rows: Rows, s: Shape, k: nat, y: nat)
    requires Storable(s) && Fits(rows, s) && k < s.height && y == s.height - 1 - k && AndPart(rows, s) <= data
    ensures Area(AndBytes(s), k) + AndBytes(s) <= |data|
    ensures Slice(data, AndBytes(s), k) == AndRowAt(rows, s, y)
  {
    AndRowsWide(rows, s);
    StackAt(AndRows(rows, s), AndBytes(s), s.height, k);
    SliceOfStart(data, AndPart(rows, s), AndBytes(s), k);
  }

  lemma RowBackAt(data: seq<byte>, rows: Rows, s: Shape, k: nat, y: nat)
    requires Storable(s) && Fits(rows, s) && Complete(rows) && k < s.height && y == s.height - 1 - k
    requires Needed(s.width, s.height, HasAlpha(s.channels)) <= |data| && XorPart(rows, s) <= data
    requires AndPart(rows, s) <= data[Area(XorBytes(s), s.height)..]
    ensures ReadRowAt(data, s.width, s.height, HasAlpha(s.channels), k) == SeenRow(rows[y].value, s.channels)
  {
    var rest := data[Area(XorBytes(s), s.height)..];
    XorSlice(data, rows, s, k, y);
    AndSlice(rest, rows, s, k, y);
    RowBack(rows[y].value, s, if HasAlpha(s.channels) then [] else Slice(rest, AndBytes(s), k));
  }

  lemma AllRowsBack(data: seq<byte>, rows: Rows, s: Shape)
    requires Storable(s) && Fits(rows, s) && Complete(rows)
    requires Needed(s.width, s.height, HasAlpha(s.channels)) <= |data| && XorPart(rows, s) <= data
    requires AndPart(rows, s) <= data[Area(XorBytes(s), s.height)..]
    ensures ReadRows(data, s.width, s.height, HasAlpha(s.channels)) == SeenRows(rows, s)
  {
    forall y | 0 <= y < s.height
      ensures ReadRows(data, s.width, s.height, HasAlpha(s.channels))[y] == SeenRows(rows, s)[y]
    {
      RowBackAt(data, rows, s, s.height - 1 - y, y);
    }
  }

  /** Entry i says where the bitmap is. */
  predicate Points(f: seq<byte>, i: nat, s: Shape, offset: nat)
    requires Storable(s)
  {
    EntryAt(i) + ENTRY_SIZE <= |f| && offset < TWO32
    && f[EntryAt(i)..EntryAt(i) + ENTRY_SIZE] == Entry(s, INFO_SIZE + MaskedBytes(s), offset)
  }

  lemma EntryBack(f: seq<byte>, i: nat, s: Shape, offset: nat)
    requires Storable(s) && Points(f, i, s, offset)
    ensures var at := EntryAt(i);
      && f[at] as nat == s.width && f[at + 1] as nat == s.height && f[at + 3] == 0
      && Num16(f, at + 6) == Bpp(s.channels) && Num32(f, at + 12) == offset
  {
    var at := EntryAt(i);
    var e := f[at..at + ENTRY_SIZE];
    assert e[0] == f[at] && e[1] == f[at + 1] && e[3] == f[at + 3];
    SameNumber(f, at, at + ENTRY_SIZE, 6, e);
    assert e[6..8] == Le16(Bpp(s.channels));
    NumberOf(e, 6, Bpp(s.channels));
    OffsetBack(f, at, e, offset);
  }

  lemma OffsetBack(f: seq<byte>, at: nat, e: seq<byte>, offset: nat)
    requires at + ENTRY_SIZE <= |f| && e == f[at..at + ENTRY_SIZE] && e[12..16] == Le32(offset) && offset < TWO32
    ensures Num32(f, at + 12) == offset
  {
    assert f[at + 12..at + 12 + 4] == e[12..16];
    Num32At(f, at + 12, Le32(offset));
    Le32Back(offset);
  }

  lemma InfoBack(f: seq<byte>, offset: nat, s: Shape)
    requires offset + INFO_SIZE <= |f| && f[offset..offset + INFO_SIZE] == Info(s)
    ensures Num16(f, offset + 14) == Bpp(s.channels) && !IsPng(f, offset)
  {
    var d := f[offset..offset + INFO_SIZE];
    SameNumber(f, offset, offset + INFO_SIZE, 14, d);
    assert d[1] == f[offset + 1] == Le32(INFO_SIZE)[1];
    assert d[14..16] == Le16(Bpp(s.channels));
    NumberOf(d, 14, Bpp(s.channels));
  }

  lemma SameNumber(f: seq<byte>, from: nat, to: nat, at: nat, d: seq<byte>)
    requires from <= to <= |f| && d == f[from..to] && at + 2 <= |d|
    ensures Num16(f, from + at) == Num16(d, at)
  {
    assert d[at] == f[from + at] && d[at + 1] == f[from + at + 1];
  }

  lemma NumberOf(d: seq<byte>, at: nat, n: nat)
    requires at + 2 <= |d| && d[at..at + 2] == Le16(n) && n < 65536
    ensures Num16(d, at) == n
  {
    Le16Back(n);
    assert d[at] == Le16(n)[0] && d[at + 1] == Le16(n)[1];
  }

  /** The reader finds a bitmap by its entry and its header. */
  lemma FoundBack(f: seq<byte>, i: nat, s: Shape, offset: nat)
    requires Storable(s) && Points(f, i, s, offset)
    requires offset + INFO_SIZE <= |f| && f[offset..offset + INFO_SIZE] == Info(s)
    ensures FindImage(f, i) == Some(Found(s.width, s.height, offset, Bpp(s.channels)))
  {
    EntryBack(f, i, s, offset);
    InfoBack(f, offset, s);
  }

  /** A bitmap that entry i points to is read as the image: RGBA exactly, without alpha as opaque. */
  lemma ImageBack(f: seq<byte>, i: nat, rows: Rows, s: Shape, offset: nat)
    requires Storable(s) && Fits(rows, s) && Complete(rows)
    requires Points(f, i, s, offset) && Holds(f, offset, rows, s)
    ensures ReadImage(f, i) == Some(SeenRows(rows, s))
  {
    PartsOfDib(f, offset, rows, s);
    FoundBack(f, i, s, offset);
    AllRowsBack(f[offset + INFO_SIZE..], rows, s);
  }

  // ----- The mask.

  /** A number with q above p, and the rest. */
  predicate Above(n: nat, q: nat, p: nat, rest: nat) {
    n == Area(p, q) + rest
  }

  lemma {:induction false} MaskAbove(row: seq<Pixel>, channels: nat, x: nat, a: nat, b: nat) returns (q: nat)
    requires IsRow(row, |row|, channels) && a <= b <= 8 && x + b <= |row|
    ensures Above(MaskBits(row, channels, x, a), q, Pow2(8 - b), MaskBits(row, channels, x, b))
  {
    if b == a {
      q := 0;
    } else {
      q := MaskAbove(row, channels, x, a, b - 1);
      q := OneMoreAbove(row, channels, x, b - 1, b, MaskBits(row, channels, x, a), q);
    }
  }

  lemma OneMoreAbove(row: seq<Pixel>, channels: nat, x: nat, b: nat, next: nat, n: nat, up: nat) returns (q: nat)
    requires IsRow(row, |row|, channels) && next == b + 1 <= 8 && x + next <= |row|
    requires Above(n, up, Pow2(8 - b), MaskBits(row, channels, x, b))
    ensures Above(n, q, Pow2(8 - next), MaskBits(row, channels, x, next))
  {
    var m := if Masked(row[x + b], channels) then 1 else 0;
    q := 2 * up + m;
    MaskNext(row, channels, x, b, next, m, Pow2(8 - next));
    AboveNext(n, up, m, Pow2(8 - next), MaskBits(row, channels, x, next));
  }

  lemma AboveNext(n: nat, up: nat, m: nat, p: nat, rest: nat)
    requires m <= 1 && Above(n, up, 2 * p, rest + if m == 1 then p else 0)
    ensures Above(n, 2 * up + m, p, rest)
  {
    Doubled(up, m, p, 2 * p, 2 * up + m);
  }

  lemma MaskNext(row: seq<Pixel>, channels: nat, x: nat, b: nat, next: nat, m: nat, p: nat)
    requires IsRow(row, |row|, channels) && next == b + 1 <= 8 && x + next <= |row|
    requires m == (if Masked(row[x + b], channels) then 1 else 0) && p == Pow2(8 - next)
    ensures MaskBits(row, channels, x, b) == MaskBits(row, channels, x, next) + if m == 1 then p else 0
    ensures Pow2(8 - b) == 2 * p
  {
  }

  lemma {:induction false} Doubled(q: nat, m: nat, p: nat, twice: nat, above: nat)
    requires m <= 1 && twice == 2 * p && above == 2 * q + m
    ensures Area(p, above) == Area(twice, q) + if m == 1 then p else 0
  {
    if q > 0 {
      Doubled(q - 1, m, p, twice, above - 2);
      assert Area(p, above) == Area(p, above - 1) + p && Area(p, above - 1) == Area(p, above - 2) + p;
    }
  }

  lemma BitOf(q: nat, m: nat, p: nat, r: nat)
    requires m <= 1 && r < p
    ensures ((2 * q + m) * p + r) / p % 2 == m
  {
    Quotient(2 * q + m, p, r);
  }

  lemma Quotient(n: nat, p: nat, r: nat)
    requires r < p
    ensures (n * p + r) / p == n
  {
    var q := (n * p + r) / p;
    assert n * p + r == q * p + (n * p + r) % p;
    if q < n {
      OnceMore(q, n, p);
    } else if q > n {
      OnceMore(n, q, p);
    }
  }

  lemma {:induction false} OnceMore(m: nat, n: nat, p: nat)
    requires m < n
    ensures m * p + p <= n * p
    decreases n
  {
    assert n * p == (n - 1) * p + p;
    if m < n - 1 {
      OnceMore(m, n - 1, p);
    }
  }

  /** The mask of a pixel is the bit of its place, the first pixel of eight in the highest one. */
  lemma MaskBitIs(row: seq<Pixel>, channels: nat, x: nat, b: nat)
    requires IsRow(row, |row|, channels) && b < 8 && x + b < |row|
    ensures Bit(MaskByte(row, channels, x), 7 - b) <==> Masked(row[x + b], channels)
  {
    var q := MaskAbove(row, channels, x, 0, b);
    var (m, p) := (if Masked(row[x + b], channels) then 1 else 0, Pow2(7 - b));
    MaskNext(row, channels, x, b, b + 1, m, p);
    BitWithin(MaskBits(row, channels, x, 0), q, m, p, MaskBits(row, channels, x, b + 1));
  }

  lemma BitWithin(n: nat, q: nat, m: nat, p: nat, r: nat)
    requires m <= 1 && r < p && Above(n, q, 2 * p, r + if m == 1 then p else 0)
    ensures n / p % 2 == m
  {
    Doubled(q, m, p, 2 * p, 2 * q + m);
    AreaIsProduct(p, 2 * q + m);
    BitOf(q, m, p, r);
  }
}
