/** Which images with three channels come back: only the last tile can be stored with a length that is too large. */
module IffLastTile {
  import opened Bytes
  import opened IffRle
  import opened IffTiles
  import opened IffChunks
  import opened IffRoundTrip

  /** Every tile before tile tx of row ty is stored with its true length. */
  ghost predicate StorableBefore(a: Image, h: Header, tx: nat, ty: nat)
    requires Fits(a, h) && tx < TileCount(h.width) && ty < TileCount(h.height)
  {
    (forall y {:trigger RowStorable(a, h, y, TileCount(h.width))} :: 0 <= y < ty ==>
      RowStorable(a, h, y, TileCount(h.width))) && RowStorable(a, h, ty, tx)
  }

  /** The chunks of the tiles before tile tx of row ty. */
  function ChunksBefore(a: Image, h: Header, tx: nat, ty: nat): seq<byte>
    requires Fits(a, h) && Writable(h) && tx < TileCount(h.width) && ty < TileCount(h.height)
  {
    Joined(Parts(a, h), ty) + Joined(RowParts(a, h, ty), tx)
  }

  /** The number of tiles before tile tx of row ty. */
  function CountBefore(h: Header, tx: nat, ty: nat): nat {
    Area(TileCount(h.width), ty) + tx
  }

  /** The reader comes as far as tile tx of row ty. */
  lemma BeforeReads(a: Image, b: Image, h: Header, tx: nat, ty: nat)
    requires Fits(a, h) && Fits(b, h) && Writable(h) && tx < TileCount(h.width) && ty < TileCount(h.height)
    requires StorableBefore(a, h, tx, ty)
    ensures Reads(ChunksBefore(a, h, tx, ty), CountBefore(h, tx, ty), b, Restored(a, b, h, tx, ty), h)
  {
    RowsRead(a, b, h, ty);
    TilesRead(a, b, h, ty, tx);
    ReadsBoth(Joined(Parts(a, h), ty), Area(TileCount(h.width), ty), Joined(RowParts(a, h, ty), tx), tx,
              ChunksBefore(a, h, tx, ty), CountBefore(h, tx, ty),
              b, Restored(a, b, h, 0, ty), Restored(a, b, h, tx, ty), h);
  }

  /** Tile tx of row ty is the last one. */
  predicate Last(h: Header, tx: nat, ty: nat) {
    tx + 1 == TileCount(h.width) && ty + 1 == TileCount(h.height)
  }

  lemma LastBehind(a: Image, h: Header, tx: nat, ty: nat)
    requires Fits(a, h) && Writable(h) && Last(h, tx, ty)
    ensures Chunks(a, h) == ChunksBefore(a, h, tx, ty) + ChunkOf(a, h, tx, ty)
    ensures TileTotal(h) == CountBefore(h, tx, ty) + 1
  {
    var parts := Parts(a, h);
    JoinedNext(parts, ty, ty + 1);
    JoinedNext(RowParts(a, h, ty), tx, tx + 1);
    Assoc(Joined(parts, ty), Joined(RowParts(a, h, ty), tx), ChunkOf(a, h, tx, ty));
  }

  lemma JoinedNext(parts: seq<seq<byte>>, n: nat, next: nat)
    requires next == n + 1 <= |parts|
    ensures Joined(parts, next) == Joined(parts, n) + parts[n]
  {
  }

  lemma OnlyOneLeft(a: Image, b: Image, h: Header, tx: nat, ty: nat)
    requires Fits(a, h) && Fits(b, h) && Writable(h) && Last(h, tx, ty) && StorableBefore(a, h, tx, ty)
    ensures ReadTiles(Chunks(a, h), TileTotal(h), b, h)
         == ReadTiles(ChunkOf(a, h, tx, ty), 1, Restored(a, b, h, tx, ty), h)
  {
    BeforeReads(a, b, h, tx, ty);
    LastBehind(a, h, tx, ty);
    ReadsThen(ChunksBefore(a, h, tx, ty), CountBefore(h, tx, ty), ChunkOf(a, h, tx, ty), 1,
              Chunks(a, h), TileTotal(h), b, Restored(a, b, h, tx, ty), h);
  }

  lemma LastChunkReadable(a: Image, c: Image, h: Header, tx: nat, ty: nat)
    requires Fits(a, h) && Fits(c, h) && Writable(h) && tx < TileCount(h.width) && ty < TileCount(h.height)
    ensures ReadTiles(ChunkOf(a, h, tx, ty), 1, c, h).Some? <==> TileStorable(a, h, tx, ty)
  {
    TileSuits(a, h, tx, ty);
    LastTileReadable(Get(a, TileOf(h, tx, ty)), TileOf(h, tx, ty), c, h);
  }

  /** If the other tiles are stored with their true lengths, the last one decides whether the file can be read. */
  lemma LastReadable(a: Image, b: Image, h: Header, tx: nat, ty: nat)
    requires Fits(a, h) && Fits(b, h) && Writable(h) && Last(h, tx, ty) && StorableBefore(a, h, tx, ty)
    ensures ReadTiles(Chunks(a, h), TileTotal(h), b, h).Some? <==> TileStorable(a, h, tx, ty)
  {
    OnlyOneLeft(a, b, h, tx, ty);
    LastChunkReadable(a, Restored(a, b, h, tx, ty), h, tx, ty);
  }

  lemma AllOfThem(a: Image, h: Header, tx: nat, ty: nat)
    requires Fits(a, h) && Last(h, tx, ty) && StorableBefore(a, h, tx, ty) && TileStorable(a, h, tx, ty)
    ensures AllStorable(a, h)
  {
    forall x, y | 0 <= x < TileCount(h.width) && 0 <= y < TileCount(h.height)
      ensures TileStorable(a, h, x, y)
    {
      if y < ty {
        assert RowStorable(a, h, y, TileCount(h.width));
      }
    }
  }

  /** In that case the image comes back exactly if the last tile, too, is stored with its true length. */
  lemma LastDecides(img: Image, h: Header, tx: nat, ty: nat)
    requires Fits(img, h) && Writable(h) && Last(h, tx, ty)
    requires Fits(Flipped(img), h) && StorableBefore(Flipped(img), h, tx, ty)
    ensures ReadImage(Written(img, h), TileTotal(h), h)
         == if TileStorable(Flipped(img), h, tx, ty) then Some(img) else None
  {
    var a := Flipped(img);
    LastReadable(a, Blank(h), h, tx, ty);
    if TileStorable(a, h, tx, ty) {
      AllOfThem(a, h, tx, ty);
      ImageRoundTrip(img, h);
    }
  }

  // ----- Images with three channels.

  /** The sum modulo four. */
  function Plus(a: nat, b: nat): (c: nat)
    requires a < 4 && b < 4
    ensures c < 4
  {
    if a + b < 4 then a + b else a + b - 4
  }

  /** The product modulo four. */
  function Times(a: nat, r: nat): (c: nat)
    requires a < 4 && r < 4
    ensures c < 4
  {
    if r == 0 then 0 else Plus(Times(a, r - 1), a)
  }

  lemma PlusModulo(m: nat, n: nat)
    ensures (m + n) % 4 == Plus(m % 4, n % 4)
  {
  }

  lemma TimesNext(a: nat, r: nat, next: nat)
    requires a < 4 && r < 4 && next == Plus(r, 1)
    ensures Plus(Times(a, r), a) == Times(a, next)
  {
    if r == 3 {
      FourTimes(a, r, r - 1, r - 2);
    }
  }

  lemma FourTimes(a: nat, three: nat, two: nat, one: nat)
    requires a < 4 && three == 3 && two == 2 && one == 1
    ensures Plus(Times(a, three), a) == 0
  {
    assert Times(a, three) == Plus(Times(a, two), a);
    assert Times(a, two) == Plus(Times(a, one), a);
    assert Times(a, one) == Plus(Times(a, one - 1), a);
  }

  lemma {:induction false} AreaModulo(width: nat, height: nat)
    ensures Area(width, height) % 4 == Times(width % 4, height % 4)
  {
    if height > 0 {
      AreaModulo(width, height - 1);
      PlusModulo(Area(width, height - 1), width);
      PlusModulo(height - 1, 1);
      TimesNext(width % 4, (height - 1) % 4, height % 4);
    }
  }

  lemma ThreeTimes(r: nat, three: nat)
    requires r < 4 && three == 3
    ensures Times(three, r) == 0 <==> r == 0
  {
    if r > 0 {
      ThreeTimes(r - 1, three);
    }
    if r > 1 {
      assert Times(three, r) == Plus(Plus(Times(three, r - 2), three), three);
    }
  }

  lemma ZeroTimes(r: nat, zero: nat)
    requires r < 4 && zero == 0
    ensures Times(zero, r) == 0
  {
  }

  /** Only the last tile of a row or column may have a width or height that is not divisible by four. */
  lemma SpanModulo(t: nat, size: nat)
    requires t < TileCount(size)
    ensures if t + 1 < TileCount(size) then Span(t, size) % 4 == 0 else Span(t, size) % 4 == size % 4
  {
  }

  predicate TileCompresses(a: Image, h: Header, tx: nat, ty: nat)
    requires Fits(a, h) && tx < TileCount(h.width) && ty < TileCount(h.height)
  {
    TileInside(h.width, h.height, tx, ty);
    Compresses(Get(a, TileOf(h, tx, ty)), h.channels, h.rle)
  }

  lemma TileModulo(a: Image, h: Header, tx: nat, ty: nat)
    requires Fits(a, h) && tx < TileCount(h.width) && ty < TileCount(h.height) && h.channels == 3
    ensures TileStorable(a, h, tx, ty)
       <==> TileCompresses(a, h, tx, ty) || Times(Span(tx, h.width) % 4, Span(ty, h.height) % 4) == 0
  {
    TileInside(h.width, h.height, tx, ty);
    SizeIs(h, tx, ty);
    AreaModulo(h.channels, Size(TileOf(h, tx, ty)));
    ThreeTimes(Size(TileOf(h, tx, ty)) % 4, h.channels % 4);
    AreaModulo(Span(tx, h.width), Span(ty, h.height));
  }

  /** Only the last tile can be stored with a wrong length. */
  lemma FullTile(a: Image, h: Header, tx: nat, ty: nat)
    requires Fits(a, h) && tx < TileCount(h.width) && ty < TileCount(h.height) && h.channels == 3
    requires tx + 1 < TileCount(h.width) || ty + 1 < TileCount(h.height)
    ensures TileStorable(a, h, tx, ty)
  {
    TileModulo(a, h, tx, ty);
    SpanModulo(tx, h.width);
    SpanModulo(ty, h.height);
    if tx + 1 < TileCount(h.width) {
      ZeroTimes(Span(ty, h.height) % 4, Span(tx, h.width) % 4);
    }
  }

  lemma FullTiles(a: Image, h: Header, tx: nat, ty: nat)
    requires Fits(a, h) && h.channels == 3 && Last(h, tx, ty)
    ensures StorableBefore(a, h, tx, ty)
  {
    forall x, y | 0 <= x <= tx && 0 <= y <= ty && (x < tx || y < ty)
      ensures TileStorable(a, h, x, y)
    {
      FullTile(a, h, x, y);
    }
  }

  lemma CornerTile(a: Image, h: Header, tx: nat, ty: nat)
    requires Fits(a, h) && h.channels == 3 && Last(h, tx, ty)
    ensures TileStorable(a, h, tx, ty) <==> TileCompresses(a, h, tx, ty) || Area(h.width, h.height) % 4 == 0
  {
    TileModulo(a, h, tx, ty);
    SpanModulo(tx, h.width);
    SpanModulo(ty, h.height);
    AreaModulo(h.width, h.height);
  }

  /** An image with three channels comes back exactly if its last tile is compressed or four divides its size. */
  lemma RgbBackIff(img: Image, h: Header, tx: nat, ty: nat)
    requires Fits(img, h) && Fits(Flipped(img), h) && Writable(h) && h.channels == 3 && Last(h, tx, ty)
    ensures ReadImage(Written(img, h), TileTotal(h), h)
         == if TileCompresses(Flipped(img), h, tx, ty) || Area(h.width, h.height) % 4 == 0 then Some(img) else None
  {
    FullTiles(Flipped(img), h, tx, ty);
    CornerTile(Flipped(img), h, tx, ty);
    LastDecides(img, h, tx, ty);
  }

  // ----- The smallest image that is lost.

  lemma PartNotEmpty(ps: seq<Pixel>, channels: nat, c: nat)
    requires ps != [] && c < channels
    ensures |ChannelParts(ps, channels)[c]| >= 1
  {
    PartBounds(ps, channels, c);
  }

  /** Parts that are not empty. */
  lemma {:induction false} JoinAtLeast(parts: seq<seq<byte>>, n: nat)
    requires n <= |parts| && forall i :: 0 <= i < |parts| ==> |parts[i]| >= 1
    ensures |Join(parts, n)| >= n
  {
    if n > 0 {
      JoinAtLeast(parts, n - 1);
    }
  }

  /** No channel is compressed to nothing. */
  lemma PackedAtLeast(ps: seq<Pixel>, channels: nat)
    requires ps != []
    ensures |Packed(ps, channels)| >= channels
  {
    forall c | 0 <= c < channels
      ensures |ChannelParts(ps, channels)[c]| >= 1
    {
      PartNotEmpty(ps, channels, c);
    }
    JoinAtLeast(ChannelParts(ps, channels), channels);
  }

  lemma OneTile(n: nat)
    requires n == 1
    ensures TileCount(n) == 1
  {
  }

  lemma FirstTile(size: nat, r: Rect)
    requires size == 1 && r == Tile(size, size, 0, 0)
    ensures Inside(r, size, size) && Width(r) == Height(r) == 1
  {
  }

  lemma OnlyTile(h: Header, tx: nat, ty: nat, r: Rect)
    requires h.width == h.height == 1 && Last(h, tx, ty) && r == TileOf(h, tx, ty)
    ensures Inside(r, h.width, h.height) && Width(r) == Height(r) == 1
  {
    OneTile(h.width);
    FirstTile(h.width, r);
  }

  lemma AreaOfOne(n: nat, one: nat)
    requires one == 1
    ensures Area(n, one) == n
  {
    assert Area(n, one) == Area(n, one - 1) + n;
  }

  lemma OnePixel(ps: seq<Pixel>, channels: nat, rle: bool)
    requires |ps| == 1
    ensures !Compresses(ps, channels, rle)
  {
    AreaOfOne(channels, |ps|);
    PackedAtLeast(ps, channels);
  }

  lemma TileFlat(a: Image, h: Header, tx: nat, ty: nat, r: Rect)
    requires Fits(a, h) && tx < TileCount(h.width) && ty < TileCount(h.height) && r == TileOf(h, tx, ty)
    requires Inside(r, h.width, h.height) && Width(r) == Height(r) == 1
    ensures !TileCompresses(a, h, tx, ty)
  {
    AreaOfOne(Width(r), Height(r));
    OnePixel(Get(a, r), h.channels, h.rle);
  }

  lemma Lost(img: Image, h: Header, tx: nat, ty: nat)
    requires Fits(img, h) && Fits(Flipped(img), h) && Writable(h) && h.channels == 3 && Last(h, tx, ty)
    requires !TileCompresses(Flipped(img), h, tx, ty) && Area(h.width, h.height) % 4 != 0
    ensures ReadImage(Written(img, h), TileTotal(h), h) == None
  {
    RgbBackIff(img, h, tx, ty);
  }

  lemma OnePixelFlat(a: Image, h: Header, tx: nat, ty: nat)
    requires Fits(a, h) && h.width == h.height == 1 && Last(h, tx, ty)
    ensures !TileCompresses(a, h, tx, ty)
  {
    OnlyTile(h, tx, ty, TileOf(h, tx, ty));
    TileFlat(a, h, tx, ty, TileOf(h, tx, ty));
  }

  lemma OddArea(width: nat, height: nat)
    requires width == height == 1
    ensures Area(width, height) % 4 != 0
  {
    AreaOfOne(width, height);
  }

  /** An image of one pixel with three channels is written, but never read. */
  lemma OneByOne(img: Image, h: Header)
    requires Fits(img, h) && h.width == h.height == 1 && h.channels == 3
    ensures Writable(h) && ReadImage(Written(img, h), TileTotal(h), h) == None
  {
    var (tx, ty) := (TileCount(h.width) - 1, TileCount(h.height) - 1);
    FlippedTwice(img, h);
    OnePixelFlat(Flipped(img), h, tx, ty);
    OddArea(h.width, h.height);
    Lost(img, h, tx, ty);
  }
}
