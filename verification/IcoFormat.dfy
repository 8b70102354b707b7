/** Windows icon files: the directory and the bitmaps, and what a reader makes of them. */
module IcoFormat {
  import opened Bytes

  // ----- Numbers, least significant byte first.

  const TWO32: nat := 0x1_0000_0000

  function Le16(n: nat): seq<byte> {
    [(n % 256) as byte, (n / 256 % 256) as byte]
  }

  function Le32(n: nat): seq<byte> {
    Le16(n % 65536) + Le16(n / 65536 % 65536)
  }

  function Num16(s: seq<byte>, at: nat): (n: nat)
    requires at + 2 <= |s|
    ensures n < 65536
  {
    s[at] as nat + s[at + 1] as nat * 256
  }

  function Num32(s: seq<byte>, at: nat): (n: nat)
    requires at + 4 <= |s|
    ensures n < TWO32
  {
    Num16(s, at) + Num16(s, at + 2) * 65536
  }

  lemma Le16Back(n: nat)
    requires n < 65536
    ensures Num16(Le16(n), 0) == n
  {
  }

  lemma Le32Back(n: nat)
    requires n < TWO32
    ensures Num32(Le32(n), 0) == n
  {
    Le16Back(n % 65536);
    Le16Back(n / 65536);
  }

  /** The same four bytes hold the same number, wherever they are. */
  lemma Num32At(s: seq<byte>, at: nat, t: seq<byte>)
    requires at + 4 <= |s| && s[at..at + 4] == t
    ensures Num32(s, at) == Num32(t, 0)
  {
    assert s[at] == t[0] && s[at + 1] == t[1] && s[at + 2] == t[2] && s[at + 3] == t[3];
  }

  // ----- Rows of equal length, one after the other.

  function Stack(rows: seq<seq<byte>>, n: nat): seq<byte>
    requires n <= |rows|
  {
    if n == 0 then [] else Stack(rows, n - 1) + rows[n - 1]
  }

  ghost predicate AllWide(rows: seq<seq<byte>>, width: nat) {
    forall k :: 0 <= k < |rows| ==> |rows[k]| == width
  }

  lemma {:induction false} StackLength(rows: seq<seq<byte>>, width: nat, n: nat)
    requires n <= |rows| && AllWide(rows, width)
    ensures |Stack(rows, n)| == Area(width, n)
  {
    if n > 0 {
      StackLength(rows, width, n - 1);
    }
  }

  /** The bytes of row k. */
  function Slice(s: seq<byte>, width: nat, k: nat): seq<byte>
    requires Area(width, k) + width <= |s|
  {
    s[Area(width, k)..Area(width, k) + width]
  }

  lemma {:induction false} StackAt(rows: seq<seq<byte>>, width: nat, n: nat, k: nat)
    requires k < n <= |rows| && AllWide(rows, width)
    ensures Area(width, k) + width <= |Stack(rows, n)| && Slice(Stack(rows, n), width, k) == rows[k]
  {
    StackLength(rows, width, n - 1);
    if k < n - 1 {
      StackAt(rows, width, n - 1, k);
      SliceOfPrefix(Stack(rows, n - 1), rows[n - 1], width, k);
    }
  }

  lemma SliceOfPrefix(s: seq<byte>, t: seq<byte>, width: nat, k: nat)
    requires Area(width, k) + width <= |s|
    ensures Slice(s + t, width, k) == Slice(s, width, k)
  {
  }

  /** Overwriting the bytes of a row replaces that row. */
  lemma {:induction false} StackReplaced(rows: seq<seq<byte>>, width: nat, n: nat, k: nat, row: seq<byte>)
    requires k < n <= |rows| && AllWide(rows, width) && |row| == width
    ensures Area(width, k) + width <= |Stack(rows, n)|
    ensures Over(Stack(rows, n), Area(width, k), row) == Stack(rows[k := row], n)
  {
    StackLength(rows, width, n - 1);
    if k < n - 1 {
      StackReplaced(rows, width, n - 1, k, row);
      OverPrefix(Stack(rows, n - 1), rows[n - 1], Area(width, k), row);
    } else {
      StackBefore(rows, k, row, n - 1);
    }
  }

  lemma OverPrefix(s: seq<byte>, t: seq<byte>, at: nat, piece: seq<byte>)
    requires at + |piece| <= |s|
    ensures Over(s + t, at, piece) == Over(s, at, piece) + t
  {
  }

  lemma {:induction false} StackBefore(rows: seq<seq<byte>>, k: nat, row: seq<byte>, n: nat)
    requires n <= k < |rows|
    ensures Stack(rows[k := row], n) == Stack(rows, n)
  {
    if n > 0 {
      StackBefore(rows, k, row, n - 1);
    }
  }

  // ----- Pixels.

  /** One to four channels: gray, gray and alpha, RGB, RGBA. */
  type Pixel = seq<byte>

  predicate HasAlpha(channels: nat) {
    channels == 2 || channels == 4
  }

  /** The bytes of a pixel in the file: blue, green, red and perhaps alpha. */
  function Bgr(p: Pixel, channels: nat): (s: seq<byte>)
    requires |p| == channels && 1 <= channels <= 4
    ensures |s| == if HasAlpha(channels) then 4 else 3
  {
    if channels == 1 then [p[0], p[0], p[0]]
    else if channels == 2 then [p[0], p[0], p[0], p[1]]
    else if channels == 3 then [p[2], p[1], p[0]]
    else [p[2], p[1], p[0], p[3]]
  }

  /** What a reader delivers: always RGBA. */
  datatype Rgba = Rgba(r: byte, g: byte, b: byte, a: byte)

  /** How a pixel appears to a reader. */
  function Seen(p: Pixel, channels: nat): Rgba
    requires |p| == channels && 1 <= channels <= 4
  {
    if channels == 1 then Rgba(p[0], p[0], p[0], 255)
    else if channels == 2 then Rgba(p[0], p[0], p[0], p[1])
    else if channels == 3 then Rgba(p[0], p[1], p[2], 255)
    else Rgba(p[0], p[1], p[2], p[3])
  }

  predicate IsRow(row: seq<Pixel>, width: nat, channels: nat) {
    |row| == width && forall x :: 0 <= x < width ==> |row[x]| == channels
  }

  // ----- The bitmap of an image of which some rows have been written.

  type Rows = seq<Option<seq<Pixel>>>

  datatype Shape = Shape(width: nat, height: nat, channels: nat)

  /** What the writer stores as a bitmap; larger images become PNG. */
  predicate Storable(s: Shape) {
    0 < s.width < 256 && 0 < s.height < 256 && 1 <= s.channels <= 4
  }

  predicate Fits(rows: Rows, s: Shape) {
    |rows| == s.height && forall y :: 0 <= y < s.height && rows[y].Some? ==> IsRow(rows[y].value, s.width, s.channels)
  }

  /** The next multiple of four. */
  function Padded(n: nat): (p: nat)
    ensures p >= n
  {
    if n == 0 then 0 else if n <= 4 then 4 else 4 + Padded(n - 4)
  }

  /** The bytes that n bits take. */
  function Octets(n: nat): nat {
    if n == 0 then 0 else if n <= 8 then 1 else 1 + Octets(n - 8)
  }

  lemma {:induction false} OctetsAre(n: nat)
    ensures Octets(n) == (n + 7) / 8
  {
    if n > 8 {
      OctetsAre(n - 8);
    }
  }

  /** Bytes of n pixels, with and without alpha. */
  function PixelBytes(alpha: bool, n: nat): nat {
    if alpha then 4 * n else 3 * n
  }

  function XorWidth(width: nat, alpha: bool): (n: nat)
    ensures n >= PixelBytes(alpha, width)
  {
    Padded(PixelBytes(alpha, width))
  }

  function AndWidth(width: nat): (n: nat)
    ensures n >= Octets(width)
  {
    Padded(Octets(width))
  }

  function XorBytes(s: Shape): nat {
    XorWidth(s.width, HasAlpha(s.channels))
  }

  function AndBytes(s: Shape): nat {
    AndWidth(s.width)
  }

  function Pixels(row: seq<Pixel>, channels: nat, n: nat): (s: seq<byte>)
    requires n <= |row| && IsRow(row, |row|, channels) && 1 <= channels <= 4
    ensures |s| == PixelBytes(HasAlpha(channels), n)
  {
    if n == 0 then [] else Pixels(row, channels, n - 1) + Bgr(row[n - 1], channels)
  }

  /** A row of colors; zero until it is written. */
  function XorRow(row: Option<seq<Pixel>>, s: Shape): (r: seq<byte>)
    requires Storable(s) && (row.Some? ==> IsRow(row.value, s.width, s.channels))
    ensures |r| == XorBytes(s)
  {
    if row.None? then Zeros(XorBytes(s))
    else
      var data := Pixels(row.value, s.channels, s.width);
      data + Zeros(XorBytes(s) - |data|)
  }

  /** Pixels that are more transparent than not are masked out. */
  predicate Masked(p: Pixel, channels: nat)
    requires |p| == channels
  {
    HasAlpha(channels) && p[channels - 1] <= 127
  }

  /** Eight mask bits from pixel x + b on, the first one in the highest place. */
  function MaskBits(row: seq<Pixel>, channels: nat, x: nat, b: nat): (n: nat)
    requires IsRow(row, |row|, channels) && b <= 8
    ensures n < Pow2(8 - b)
    decreases 8 - b
  {
    if b == 8 || x + b >= |row| then 0
    else MaskBits(row, channels, x, b + 1) + if Masked(row[x + b], channels) then Pow2(7 - b) else 0
  }

  function MaskByte(row: seq<Pixel>, channels: nat, x: nat): byte
    requires IsRow(row, |row|, channels)
  {
    Pow2Table();
    MaskBits(row, channels, x, 0) as byte
  }

  function MaskBytes(row: seq<Pixel>, channels: nat, n: nat): (s: seq<byte>)
    requires IsRow(row, |row|, channels)
    ensures |s| == n
  {
    seq(n, j requires 0 <= j < n => MaskByte(row, channels, 8 * j))
  }

  /** A row of the mask; zero until it is written, and always zero without alpha. */
  function AndRow(row: Option<seq<Pixel>>, s: Shape): (r: seq<byte>)
    requires Storable(s) && (row.Some? ==> IsRow(row.value, s.width, s.channels))
    ensures |r| == AndBytes(s)
  {
    if row.None? || !HasAlpha(s.channels) then Zeros(AndBytes(s))
    else
      var data := MaskBytes(row.value, s.channels, Octets(s.width));
      data + Zeros(AndBytes(s) - |data|)
  }

  function XorRowAt(rows: Rows, s: Shape, y: nat): (r: seq<byte>)
    requires Storable(s) && Fits(rows, s) && y < s.height
    ensures |r| == XorBytes(s)
  {
    XorRow(rows[y], s)
  }

  function AndRowAt(rows: Rows, s: Shape, y: nat): (r: seq<byte>)
    requires Storable(s) && Fits(rows, s) && y < s.height
    ensures |r| == AndBytes(s)
  {
    AndRow(rows[y], s)
  }

  /** The rows of a bitmap come bottom up. */
  function XorRows(rows: Rows, s: Shape): (r: seq<seq<byte>>)
    requires Storable(s) && Fits(rows, s)
    ensures |r| == s.height
    ensures forall k :: 0 <= k < s.height ==> r[k] == XorRowAt(rows, s, s.height - 1 - k)
  {
    seq(s.height, k requires 0 <= k < s.height => XorRowAt(rows, s, s.height - 1 - k))
  }

  function AndRows(rows: Rows, s: Shape): (r: seq<seq<byte>>)
    requires Storable(s) && Fits(rows, s)
    ensures |r| == s.height
    ensures forall k :: 0 <= k < s.height ==> r[k] == AndRowAt(rows, s, s.height - 1 - k)
  {
    seq(s.height, k requires 0 <= k < s.height => AndRowAt(rows, s, s.height - 1 - k))
  }

  lemma XorRowsWide(rows: Rows, s: Shape)
    requires Storable(s) && Fits(rows, s)
    ensures AllWide(XorRows(rows, s), XorBytes(s))
  {
  }

  lemma AndRowsWide(rows: Rows, s: Shape)
    requires Storable(s) && Fits(rows, s)
    ensures AllWide(AndRows(rows, s), AndBytes(s))
  {
  }

  function XorPart(rows: Rows, s: Shape): (r: seq<byte>)
    requires Storable(s) && Fits(rows, s)
    ensures |r| == Area(XorBytes(s), s.height)
  {
    XorRowsWide(rows, s);
    StackLength(XorRows(rows, s), XorBytes(s), s.height);
    Stack(XorRows(rows, s), s.height)
  }

  function AndPart(rows: Rows, s: Shape): (r: seq<byte>)
    requires Storable(s) && Fits(rows, s)
    ensures |r| == Area(AndBytes(s), s.height)
  {
    AndRowsWide(rows, s);
    StackLength(AndRows(rows, s), AndBytes(s), s.height);
    Stack(AndRows(rows, s), s.height)
  }

  const INFO_SIZE := 40

  function Bpp(channels: nat): nat {
    if HasAlpha(channels) then 32 else 24
  }

  /** The number of bytes of both parts. */
  function MaskedBytes(s: Shape): nat {
    Area(XorBytes(s), s.height) + Area(AndBytes(s), s.height)
  }

  /** The header of a bitmap. The height counts both parts. */
  function Info(s: Shape): (r: seq<byte>)
    ensures |r| == INFO_SIZE
  {
    Le32(INFO_SIZE) + Le32(s.width) + Le32(2 * s.height) + Le16(1) + Le16(Bpp(s.channels))
      + Zeros(4) + Le32(MaskedBytes(s)) + Zeros(16)
  }

  function Dib(rows: Rows, s: Shape): (r: seq<byte>)
    requires Storable(s) && Fits(rows, s)
    ensures |r| == INFO_SIZE + MaskedBytes(s)
  {
    Info(s) + XorPart(rows, s) + AndPart(rows, s)
  }
}
