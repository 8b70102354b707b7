/** Every image that the writer stores comes back from the reader. */
module IffRoundTrip {
  import opened Bytes
  import opened IffTiles
  import opened IffChunks

  // ----- One tile.

  lemma HeadReadBack(length: nat, r: Rect, rest: seq<byte>)
    requires length < TWO32 && Small(r)
    ensures var file := Head(length, r) + rest;
      && IsTag(file) && Num32(file[4], file[5], file[6], file[7]) == length
      && Corners(file[8..]) == r && file[8..][8..] == rest
  {
    var file := Head(length, r) + rest;
    Num32Back(length, file[4], file[5], file[6], file[7]);
    CornersBack(length, r, rest);
    assert file[16..] == rest;
  }

  lemma CornersBack(length: nat, r: Rect, rest: seq<byte>)
    requires length < TWO32 && Small(r)
    ensures Corners((Head(length, r) + rest)[8..]) == r
  {
    var body := (Head(length, r) + rest)[8..];
    Num16Back(r.left, body[0], body[1]);
    Num16Back(r.top, body[2], body[3]);
    Num16Back(r.right - 1, body[4], body[5]);
    Num16Back(r.bottom - 1, body[6], body[7]);
  }

  /** The declared length and the data agree: always for four channels, else only if no padding is due. */
  predicate Storable(ps: seq<Pixel>, channels: nat, rle: bool) {
    Compresses(ps, channels, rle) || Area(channels, |ps|) % 4 == 0
  }

  lemma {:induction false} FourChannels(n: nat)
    ensures Area(4, n) % 4 == 0
  {
    if n > 0 {
      FourChannels(n - 1);
    }
  }

  lemma LengthAgrees(ps: seq<Pixel>, channels: nat, rle: bool)
    requires Uniform(ps, channels) && Area(channels, |ps|) < MAX_TILE
    ensures var (size, data) := (Length(ps, channels, rle), Data(ps, channels, rle));
      && size <= AlignChunk(size)
      && AlignChunk(size) >= |data| + 8
      && (AlignChunk(size) == |data| + 8 <==> Storable(ps, channels, rle))
  {
    FlatLength(ps, channels);
    if Compresses(ps, channels, rle) {
      PackedAligned(|Packed(ps, channels)| + 8);
    } else {
      PlainAligned(Area(channels, |ps|));
    }
  }

  lemma PackedAligned(n: nat)
    requires n < TWO32 - 4
    ensures AlignChunk(n) == n + Padding(n)
  {
  }

  lemma PlainAligned(n: nat)
    requires n < MAX_TILE
    ensures n <= AlignChunk(n) && (AlignChunk(n) == n <==> n % 4 == 0)
    ensures AlignChunk(AlignChunk(n) + 8) == AlignChunk(n) + 8
  {
  }

  lemma DataNotEmpty(ps: seq<Pixel>, channels: nat, rle: bool)
    requires Uniform(ps, channels) && Area(channels, |ps|) < MAX_TILE && ps != [] && channels > 0
    ensures |Data(ps, channels, rle)| > 0
  {
    FlatLength(ps, channels);
    PackedBounds(ps, channels);
  }

  /** The reader infers from the length alone whether the tile is compressed, and is right. */
  lemma PixelsBack(ps: seq<Pixel>, before: seq<Pixel>, channels: nat, rle: bool)
    requires Uniform(ps, channels) && Uniform(before, channels) && |before| == |ps|
    requires Area(channels, |ps|) < MAX_TILE && Storable(ps, channels, rle)
    ensures Length(ps, channels, rle) <= |Data(ps, channels, rle)| + 8
    ensures TilePixels(Data(ps, channels, rle), Length(ps, channels, rle), before, channels) == ps
  {
    LengthAgrees(ps, channels, rle);
    if Compresses(ps, channels, rle) {
      UnpackedBack(ps, before, channels, Zeros(Padding(|Packed(ps, channels)| + 8)));
    } else {
      UnflatBack(ps, channels);
      assert Flat(ps)[..Area(channels, |ps|)] == Flat(ps);
    }
  }

  lemma Slices(body: seq<byte>, data: seq<byte>, rest: seq<byte>, end: nat)
    requires |body| >= 8 && body[8..] == data + rest && end == |data| + 8
    ensures |body| >= end && body[8..end] == data && body[end..] == rest
  {
    assert body[8..end] == body[8..][..|data|];
    assert body[end..] == body[8..][|data|..];
  }

  /** The pixels of a tile fit into its place in an image, and the lengths fit into the chunk. */
  predicate Suits(ps: seq<Pixel>, r: Rect, h: Header) {
    && Inside(r, h.width, h.height) && Small(r) && |ps| == Size(r) && Uniform(ps, h.channels)
    && 0 < h.channels && 0 < Area(h.channels, |ps|) < MAX_TILE
  }

  lemma TileReadBack(ps: seq<Pixel>, r: Rect, img: Image, h: Header, body: seq<byte>, rest: seq<byte>)
    requires Fits(img, h) && Suits(ps, r, h) && Storable(ps, h.channels, h.rle)
    requires |body| >= 8 && Corners(body) == r && body[8..] == Data(ps, h.channels, h.rle) + rest
    ensures ReadTile(body, Length(ps, h.channels, h.rle), img, h) == Some(Partial(PutTile(img, r, ps, h), rest))
  {
    var (size, data) := (Length(ps, h.channels, h.rle), Data(ps, h.channels, h.rle));
    LengthAgrees(ps, h.channels, h.rle);
    DataNotEmpty(ps, h.channels, h.rle);
    Slices(body, data, rest, AlignChunk(size));
    GetUniform(img, r, h);
    PixelsBack(ps, Get(img, r), h.channels, h.rle);
  }

  /** Before this rest, some bytes are read as n tiles that turn one image into another. */
  ghost predicate ReadsAs(x: seq<byte>, n: nat, b: Image, c: Image, h: Header, rest: seq<byte>, left: nat)
    requires Fits(b, h) && Fits(c, h)
  {
    ReadTiles(x + rest, n + left, b, h) == ReadTiles(rest, left, c, h)
  }

  /** So they are whatever follows them. */
  ghost predicate Reads(x: seq<byte>, n: nat, b: Image, c: Image, h: Header)
    requires Fits(b, h) && Fits(c, h)
  {
    forall rest, left: nat :: ReadsAs(x, n, b, c, h, rest, left)
  }

  lemma ReadsNothing(b: Image, h: Header)
    requires Fits(b, h)
    ensures Reads([], 0, b, b, h)
  {
    forall rest, left: nat
      ensures ReadsAs([], 0, b, b, h, rest, left)
    {
      assert [] + rest == rest;
    }
  }

  lemma ReadsBoth(x: seq<byte>, n: nat, y: seq<byte>, m: nat, z: seq<byte>, k: nat, b: Image, c: Image, d: Image,
                  h: Header)
    requires Fits(b, h) && Fits(c, h) && Fits(d, h) && Reads(x, n, b, c, h) && Reads(y, m, c, d, h)
    requires z == x + y && k == n + m
    ensures Reads(z, k, b, d, h)
  {
    forall rest, left: nat
      ensures ReadsAs(z, k, b, d, h, rest, left)
    {
      assert ReadsAs(x, n, b, c, h, y + rest, m + left) && ReadsAs(y, m, c, d, h, rest, left);
      ReadsTwice(x, n, y, m, z, k, b, c, d, h, rest, left);
    }
  }

  lemma ReadsTwice(x: seq<byte>, n: nat, y: seq<byte>, m: nat, z: seq<byte>, k: nat, b: Image, c: Image, d: Image,
                   h: Header, rest: seq<byte>, left: nat)
    requires Fits(b, h) && Fits(c, h) && Fits(d, h) && z == x + y && k == n + m
    requires ReadsAs(x, n, b, c, h, y + rest, m + left) && ReadsAs(y, m, c, d, h, rest, left)
    ensures ReadsAs(z, k, b, d, h, rest, left)
  {
    Assoc(x, y, rest);
    assert k + left == n + (m + left);
  }

  lemma ReadsThen(x: seq<byte>, n: nat, y: seq<byte>, m: nat, z: seq<byte>, k: nat, b: Image, c: Image, h: Header)
    requires Fits(b, h) && Fits(c, h) && Reads(x, n, b, c, h) && z == x + y && k == n + m
    ensures ReadTiles(z, k, b, h) == ReadTiles(y, m, c, h)
  {
    assert ReadsAs(x, n, b, c, h, y, m);
  }

  lemma ReadsWhole(x: seq<byte>, n: nat, b: Image, c: Image, h: Header)
    requires Fits(b, h) && Fits(c, h) && Reads(x, n, b, c, h)
    ensures ReadTiles(x, n, b, h) == Some(c)
  {
    assert ReadsAs(x, n, b, c, h, [], 0);
    assert x + [] == x;
  }

  /** The first n parts in order. */
  function Joined(parts: seq<seq<byte>>, n: nat): seq<byte>
    requires n <= |parts|
  {
    if n == 0 then [] else Joined(parts, n - 1) + parts[n - 1]
  }

  /** Parts of m tiles each turn the first image into the last one. */
  lemma {:induction false} JoinedReads(parts: seq<seq<byte>>, imgs: seq<Image>, m: nat, n: nat, h: Header)
    requires n <= |parts| < |imgs| && forall i :: 0 <= i < |imgs| ==> Fits(imgs[i], h)
    requires forall i :: 0 <= i < n ==> Reads(parts[i], m, imgs[i], imgs[i + 1], h)
    ensures Reads(Joined(parts, n), Area(m, n), imgs[0], imgs[n], h)
  {
    if n == 0 {
      ReadsNothing(imgs[0], h);
    } else {
      JoinedReads(parts, imgs, m, n - 1, h);
      ReadsBoth(Joined(parts, n - 1), Area(m, n - 1), parts[n - 1], m, Joined(parts, n), Area(m, n),
                imgs[0], imgs[n - 1], imgs[n], h);
    }
  }

  lemma ReadTilesNext(file: seq<byte>, tiles: nat, img: Image, h: Header, p: Partial)
    requires Fits(img, h) && |file| >= 8 && IsTag(file) && SizeField(file) <= |file| - 8
    requires ReadTile(file[8..], SizeField(file), img, h) == Some(p)
    ensures Fits(p.img, h) && ReadTiles(file, 1 + tiles, img, h) == ReadTiles(p.rest, tiles, p.img, h)
  {
  }

  lemma ChunkReadBack(ps: seq<Pixel>, r: Rect, tiles: nat, img: Image, h: Header, rest: seq<byte>)
    requires Fits(img, h) && Suits(ps, r, h) && Storable(ps, h.channels, h.rle)
    ensures ReadTiles(Chunk(ps, r, h.channels, h.rle) + rest, 1 + tiles, img, h)
         == ReadTiles(rest, tiles, PutTile(img, r, ps, h), h)
  {
    var (size, data) := (Length(ps, h.channels, h.rle), Data(ps, h.channels, h.rle));
    var file := Head(size, r) + (data + rest);
    HeadReadBack(size, r, data + rest);
    LengthAgrees(ps, h.channels, h.rle);
    TileReadBack(ps, r, img, h, file[8..], rest);
    ReadTilesNext(file, tiles, img, h, Partial(PutTile(img, r, ps, h), rest));
    Assoc(Head(size, r), data, rest);
  }

  /** A chunk is read as exactly its tile, and the reader goes on behind it. */
  lemma ChunkReads(ps: seq<Pixel>, r: Rect, img: Image, h: Header)
    requires Fits(img, h) && Suits(ps, r, h) && Storable(ps, h.channels, h.rle)
    ensures Reads(Chunk(ps, r, h.channels, h.rle), 1, img, PutTile(img, r, ps, h), h)
  {
    forall rest, left: nat
      ensures ReadsAs(Chunk(ps, r, h.channels, h.rle), 1, img, PutTile(img, r, ps, h), h, rest, left)
    {
      ChunkReadBack(ps, r, left, img, h, rest);
    }
  }

  /** At the end of a file, a tile can be read exactly if its length agrees with its data. */
  lemma LastTileReadable(ps: seq<Pixel>, r: Rect, img: Image, h: Header)
    requires Fits(img, h) && Suits(ps, r, h)
    ensures ReadTiles(Chunk(ps, r, h.channels, h.rle), 1, img, h).Some? <==> Storable(ps, h.channels, h.rle)
  {
    if Storable(ps, h.channels, h.rle) {
      ShortTile(ps, r, img, h);
    } else {
      LongTile(ps, r, img, h);
    }
  }

  lemma ShortTile(ps: seq<Pixel>, r: Rect, img: Image, h: Header)
    requires Fits(img, h) && Suits(ps, r, h) && Storable(ps, h.channels, h.rle)
    ensures ReadTiles(Chunk(ps, r, h.channels, h.rle), 1, img, h) == Some(PutTile(img, r, ps, h))
  {
    ChunkReads(ps, r, img, h);
    ReadsWhole(Chunk(ps, r, h.channels, h.rle), 1, img, PutTile(img, r, ps, h), h);
  }

  lemma LongTile(ps: seq<Pixel>, r: Rect, img: Image, h: Header)
    requires Fits(img, h) && Suits(ps, r, h) && !Storable(ps, h.channels, h.rle)
    ensures ReadTiles(Chunk(ps, r, h.channels, h.rle), 1, img, h) == None
  {
    var (size, data) := (Length(ps, h.channels, h.rle), Data(ps, h.channels, h.rle));
    HeadReadBack(size, r, data);
    LengthAgrees(ps, h.channels, h.rle);
    assert ReadTile(Chunk(ps, r, h.channels, h.rle)[8..], size, img, h) == None;
  }

  // ----- All tiles.

  /** What the writer accepts. */
  predicate Writable(h: Header) {
    0 < h.width <= 8192 && 0 < h.height <= 8192 && (h.channels == 3 || h.channels == 4)
  }

  function TileOf(h: Header, tx: nat, ty: nat): Rect {
    Tile(h.width, h.height, tx, ty)
  }

  lemma {:induction false} AreaBelow(width: nat, height: nat, maxWidth: nat, maxHeight: nat)
    requires width <= maxWidth && height <= maxHeight
    ensures Area(width, height) <= maxWidth * maxHeight
  {
    if height > 0 {
      AreaBelow(width, height - 1, maxWidth, maxHeight - 1);
      assert maxWidth * maxHeight == maxWidth * (maxHeight - 1) + maxWidth;
    }
  }

  lemma {:induction false} AreaPositive(width: nat, height: nat)
    requires width > 0 && height > 0
    ensures Area(width, height) > 0
  {
  }

  lemma TileSuits(a: Image, h: Header, tx: nat, ty: nat)
    requires Fits(a, h) && Writable(h) && tx < TileCount(h.width) && ty < TileCount(h.height)
    ensures Suits(Get(a, TileOf(h, tx, ty)), TileOf(h, tx, ty), h)
  {
    var r := TileOf(h, tx, ty);
    TileInside(h.width, h.height, tx, ty);
    GetUniform(a, r, h);
    AreaBelow(Width(r), Height(r), TILE, TILE);
    AreaPositive(Width(r), Height(r));
    AreaBelow(h.channels, Size(r), 4, TILE * TILE);
    AreaPositive(h.channels, Size(r));
  }

  function ChunkOf(a: Image, h: Header, tx: nat, ty: nat): seq<byte>
    requires Fits(a, h) && Writable(h) && tx < TileCount(h.width) && ty < TileCount(h.height)
  {
    TileSuits(a, h, tx, ty);
    Chunk(Get(a, TileOf(h, tx, ty)), TileOf(h, tx, ty), h.channels, h.rle)
  }

  /** The chunks of a row of tiles. */
  function RowParts(a: Image, h: Header, ty: nat): (parts: seq<seq<byte>>)
    requires Fits(a, h) && Writable(h) && ty < TileCount(h.height)
    ensures |parts| == TileCount(h.width)
    ensures forall tx :: 0 <= tx < |parts| ==> parts[tx] == ChunkOf(a, h, tx, ty)
  {
    seq(TileCount(h.width), tx requires 0 <= tx < TileCount(h.width) => ChunkOf(a, h, tx, ty))
  }

  function RowChunks(a: Image, h: Header, ty: nat): seq<byte>
    requires Fits(a, h) && Writable(h) && ty < TileCount(h.height)
  {
    Joined(RowParts(a, h, ty), TileCount(h.width))
  }

  function Parts(a: Image, h: Header): (parts: seq<seq<byte>>)
    requires Fits(a, h) && Writable(h)
    ensures |parts| == TileCount(h.height)
    ensures forall ty :: 0 <= ty < |parts| ==> parts[ty] == RowChunks(a, h, ty)
  {
    seq(TileCount(h.height), ty requires 0 <= ty < TileCount(h.height) => RowChunks(a, h, ty))
  }

  /** The chunks of all tiles, row by row. */
  function Chunks(a: Image, h: Header): seq<byte>
    requires Fits(a, h) && Writable(h)
  {
    Joined(Parts(a, h), TileCount(h.height))
  }

  /** The image b after the tiles of a that come before tile tx of row ty. */
  function Restored(a: Image, b: Image, h: Header, tx: nat, ty: nat): (c: Image)
    requires Fits(a, h) && Fits(b, h) && Next(h.width, h.height, tx, ty)
    ensures Fits(c, h)
  {
    Rebuilt(a, b, h.width, h.height, h.channels, tx, ty)
  }

  predicate TileStorable(a: Image, h: Header, tx: nat, ty: nat)
    requires Fits(a, h) && tx < TileCount(h.width) && ty < TileCount(h.height)
  {
    TileInside(h.width, h.height, tx, ty);
    Storable(Get(a, TileOf(h, tx, ty)), h.channels, h.rle)
  }

  /** Every tile is stored with its true length. */
  ghost predicate AllStorable(a: Image, h: Header)
    requires Fits(a, h)
  {
    forall tx, ty :: 0 <= tx < TileCount(h.width) && 0 <= ty < TileCount(h.height) ==> TileStorable(a, h, tx, ty)
  }

  lemma NextTileReads(a: Image, b: Image, h: Header, tx: nat, ty: nat)
    requires Fits(a, h) && Fits(b, h) && Writable(h) && tx < TileCount(h.width) && ty < TileCount(h.height)
    requires TileStorable(a, h, tx, ty)
    ensures Reads(ChunkOf(a, h, tx, ty), 1, Restored(a, b, h, tx, ty), Restored(a, b, h, tx + 1, ty), h)
  {
    TileSuits(a, h, tx, ty);
    ChunkReads(Get(a, TileOf(h, tx, ty)), TileOf(h, tx, ty), Restored(a, b, h, tx, ty), h);
  }

  /** The image after each tile of a row. */
  function RowSteps(a: Image, b: Image, h: Header, ty: nat): (imgs: seq<Image>)
    requires Fits(a, h) && Fits(b, h) && ty < TileCount(h.height)
    ensures |imgs| == TileCount(h.width) + 1
    ensures forall tx :: 0 <= tx < |imgs| ==> imgs[tx] == Restored(a, b, h, tx, ty) && Fits(imgs[tx], h)
  {
    seq(TileCount(h.width) + 1, tx requires 0 <= tx <= TileCount(h.width) => Restored(a, b, h, tx, ty))
  }

  /** The first n tiles of a row are stored with their true lengths. */
  ghost predicate RowStorable(a: Image, h: Header, ty: nat, n: nat)
    requires Fits(a, h) && ty < TileCount(h.height) && n <= TileCount(h.width)
  {
    forall tx :: 0 <= tx < n ==> TileStorable(a, h, tx, ty)
  }

  /** The chunks of the first n tiles of a row put these tiles into the image. */
  lemma TilesRead(a: Image, b: Image, h: Header, ty: nat, n: nat)
    requires Fits(a, h) && Fits(b, h) && Writable(h) && ty < TileCount(h.height) && n <= TileCount(h.width)
    requires RowStorable(a, h, ty, n)
    ensures Reads(Joined(RowParts(a, h, ty), n), n, Restored(a, b, h, 0, ty), Restored(a, b, h, n, ty), h)
  {
    var (parts, imgs) := (RowParts(a, h, ty), RowSteps(a, b, h, ty));
    forall tx | 0 <= tx < n
      ensures Reads(parts[tx], 1, imgs[tx], imgs[tx + 1], h)
    {
      NextTileReads(a, b, h, tx, ty);
    }
    JoinedReads(parts, imgs, 1, n, h);
    AreaOfColumn(n);
  }

  lemma RowReads(a: Image, b: Image, h: Header, ty: nat)
    requires Fits(a, h) && Fits(b, h) && Writable(h) && ty < TileCount(h.height)
    requires RowStorable(a, h, ty, TileCount(h.width))
    ensures Reads(RowChunks(a, h, ty), TileCount(h.width), Restored(a, b, h, 0, ty), Restored(a, b, h, 0, ty + 1), h)
  {
    TilesRead(a, b, h, ty, TileCount(h.width));
    RestoredWrap(a, b, h, ty);
  }

  lemma RestoredWrap(a: Image, b: Image, h: Header, ty: nat)
    requires Fits(a, h) && Fits(b, h) && ty < TileCount(h.height)
    ensures Restored(a, b, h, 0, ty + 1) == Restored(a, b, h, TileCount(h.width), ty)
  {
  }

  /** The image after each row of tiles. */
  function Steps(a: Image, b: Image, h: Header): (imgs: seq<Image>)
    requires Fits(a, h) && Fits(b, h)
    ensures |imgs| == TileCount(h.height) + 1
    ensures forall ty :: 0 <= ty < |imgs| ==> imgs[ty] == Restored(a, b, h, 0, ty) && Fits(imgs[ty], h)
  {
    seq(TileCount(h.height) + 1, ty requires 0 <= ty <= TileCount(h.height) => Restored(a, b, h, 0, ty))
  }

  /** The number of tiles in the header. */
  function TileTotal(h: Header): nat {
    Area(TileCount(h.width), TileCount(h.height))
  }

  /** The chunks of the first n rows of tiles put these tiles into the image. */
  lemma RowsRead(a: Image, b: Image, h: Header, n: nat)
    requires Fits(a, h) && Fits(b, h) && Writable(h) && n <= TileCount(h.height)
    requires forall ty {:trigger RowStorable(a, h, ty, TileCount(h.width))} :: 0 <= ty < n ==>
      RowStorable(a, h, ty, TileCount(h.width))
    ensures Reads(Joined(Parts(a, h), n), Area(TileCount(h.width), n), b, Restored(a, b, h, 0, n), h)
  {
    var (parts, imgs) := (Parts(a, h), Steps(a, b, h));
    forall ty | 0 <= ty < n
      ensures Reads(parts[ty], TileCount(h.width), imgs[ty], imgs[ty + 1], h)
    {
      RowReads(a, b, h, ty);
    }
    JoinedReads(parts, imgs, TileCount(h.width), n, h);
  }

  /** The chunks of all tiles are read as the whole image. */
  lemma ChunksReadBack(a: Image, b: Image, h: Header)
    requires Fits(a, h) && Fits(b, h) && Writable(h) && AllStorable(a, h)
    ensures ReadTiles(Chunks(a, h), TileTotal(h), b, h) == Some(a)
  {
    var n := TileCount(h.height);
    forall ty {:trigger RowStorable(a, h, ty, TileCount(h.width))} | 0 <= ty < n
      ensures RowStorable(a, h, ty, TileCount(h.width))
    {
    }
    RowsRead(a, b, h, n);
    RebuiltWhole(a, b, h.width, h.height, h.channels);
    ReadsWhole(Joined(Parts(a, h), n), TileTotal(h), b, a, h);
  }

  // ----- The plausibility check.

  /** The number of bytes that the reader believes a byte can expand to, halved. */
  function Expansion(rle: bool): nat {
    if rle then 64 else 1
  }

  lemma ChunkAtLeast(ps: seq<Pixel>, r: Rect, channels: nat, rle: bool)
    requires Uniform(ps, channels) && Small(r) && Area(channels, |ps|) < MAX_TILE
    ensures Area(channels, |ps|) <= Expansion(rle) * |Chunk(ps, r, channels, rle)|
  {
    PackedBounds(ps, channels);
    FlatLength(ps, channels);
  }

  function Sum(sizes: seq<nat>, n: nat): nat
    requires n <= |sizes|
  {
    if n == 0 then 0 else Sum(sizes, n - 1) + sizes[n - 1]
  }

  /** Parts that are long enough one by one are long enough together. */
  lemma {:induction false} JoinedAtLeast(parts: seq<seq<byte>>, sizes: seq<nat>, n: nat, channels: nat, rle: bool)
    requires n <= |parts| == |sizes|
    requires forall i :: 0 <= i < |parts| ==> Area(channels, sizes[i]) <= Expansion(rle) * |parts[i]|
    ensures Area(channels, Sum(sizes, n)) <= Expansion(rle) * |Joined(parts, n)|
  {
    if n > 0 {
      JoinedAtLeast(parts, sizes, n - 1, channels, rle);
      AreaAddHeight(channels, Sum(sizes, n - 1), sizes[n - 1], Sum(sizes, n));
    }
  }

  function RowSizes(h: Header, ty: nat): (sizes: seq<nat>)
    requires ty < TileCount(h.height)
    ensures |sizes| == TileCount(h.width)
    ensures forall tx :: 0 <= tx < |sizes| ==> sizes[tx] == Area(Span(tx, h.width), Span(ty, h.height))
  {
    seq(TileCount(h.width), tx requires 0 <= tx < TileCount(h.width) => Area(Span(tx, h.width), Span(ty, h.height)))
  }

  /** Spans of the same height, one after the other. */
  lemma {:induction false} SpanSum(sizes: seq<nat>, size: nat, height: nat, n: nat)
    requires |sizes| == TileCount(size) && n <= |sizes|
    requires forall t :: 0 <= t < |sizes| ==> sizes[t] == Area(Span(t, size), height)
    ensures Sum(sizes, n) == Area(Reach(n, size), height)
  {
    if n == 0 {
      AreaOfNothing(height);
    } else {
      SpanSum(sizes, size, height, n - 1);
      ReachOn(n - 1, n, size, height);
      SumNext(sizes, n - 1, n);
    }
  }

  lemma RowSum(h: Header, ty: nat)
    requires ty < TileCount(h.height)
    ensures Sum(RowSizes(h, ty), TileCount(h.width)) == Area(h.width, Span(ty, h.height))
  {
    SpanSum(RowSizes(h, ty), h.width, Span(ty, h.height), TileCount(h.width));
    ReachAll(h.width);
  }

  lemma SumNext(sizes: seq<nat>, n: nat, next: nat)
    requires next == n + 1 <= |sizes|
    ensures Sum(sizes, next) == Sum(sizes, n) + sizes[n]
  {
  }

  lemma ReachOn(n: nat, next: nat, size: nat, height: nat)
    requires next == n + 1 <= TileCount(size)
    ensures Area(Reach(next, size), height) == Area(Reach(n, size), height) + Area(Span(n, size), height)
  {
    ReachNext(n, size);
    AreaAddWidth(Reach(n, size), Span(n, size), Reach(next, size), height);
  }

  lemma SizeIs(h: Header, tx: nat, ty: nat)
    requires tx < TileCount(h.width) && ty < TileCount(h.height) && Inside(TileOf(h, tx, ty), h.width, h.height)
    ensures Size(TileOf(h, tx, ty)) == Area(Span(tx, h.width), Span(ty, h.height))
  {
  }

  lemma TileAtLeast(a: Image, h: Header, tx: nat, ty: nat)
    requires Fits(a, h) && Writable(h) && tx < TileCount(h.width) && ty < TileCount(h.height)
    ensures Area(h.channels, Area(Span(tx, h.width), Span(ty, h.height)))
         <= Expansion(h.rle) * |ChunkOf(a, h, tx, ty)|
  {
    var r := TileOf(h, tx, ty);
    TileSuits(a, h, tx, ty);
    SizeIs(h, tx, ty);
    ChunkAtLeast(Get(a, r), r, h.channels, h.rle);
  }

  lemma RowAtLeast(a: Image, h: Header, ty: nat)
    requires Fits(a, h) && Writable(h) && ty < TileCount(h.height)
    ensures Area(h.channels, Area(h.width, Span(ty, h.height))) <= Expansion(h.rle) * |RowChunks(a, h, ty)|
  {
    var (parts, sizes) := (RowParts(a, h, ty), RowSizes(h, ty));
    forall tx | 0 <= tx < |parts|
      ensures Area(h.channels, sizes[tx]) <= Expansion(h.rle) * |parts[tx]|
    {
      TileAtLeast(a, h, tx, ty);
    }
    JoinedAtLeast(parts, sizes, TileCount(h.width), h.channels, h.rle);
    RowSum(h, ty);
  }

  function ColumnSizes(h: Header): (sizes: seq<nat>)
    ensures |sizes| == TileCount(h.height)
    ensures forall ty :: 0 <= ty < |sizes| ==> sizes[ty] == Area(h.width, Span(ty, h.height))
  {
    seq(TileCount(h.height), ty requires 0 <= ty < TileCount(h.height) => Area(h.width, Span(ty, h.height)))
  }

  /** The tiles together have as many pixels as the image, so no pixel is in two of them. */
  lemma {:induction false} ColumnSum(h: Header, n: nat)
    requires n <= TileCount(h.height)
    ensures Sum(ColumnSizes(h), n) == Area(h.width, Reach(n, h.height))
  {
    if n > 0 {
      ColumnSum(h, n - 1);
      ReachNext(n - 1, h.height);
      AreaAddHeight(h.width, Reach(n - 1, h.height), Span(n - 1, h.height), Reach(n, h.height));
    }
  }

  lemma ChunksAtLeast(a: Image, h: Header)
    requires Fits(a, h) && Writable(h)
    ensures Area(h.channels, Area(h.width, h.height)) <= Expansion(h.rle) * |Chunks(a, h)|
  {
    var (parts, sizes) := (Parts(a, h), ColumnSizes(h));
    forall ty | 0 <= ty < |parts|
      ensures Area(h.channels, sizes[ty]) <= Expansion(h.rle) * |parts[ty]|
    {
      RowAtLeast(a, h, ty);
    }
    JoinedAtLeast(parts, sizes, TileCount(h.height), h.channels, h.rle);
    ColumnSum(h, TileCount(h.height));
    ReachAll(h.height);
  }

  // ----- The whole image.

  /** The last row first. */
  function Flipped(img: Image): (r: Image)
    ensures |r| == |img|
  {
    seq(|img|, y requires 0 <= y < |img| => img[|img| - 1 - y])
  }

  lemma FlippedTwice(img: Image, h: Header)
    requires Fits(img, h)
    ensures Fits(Flipped(img), h) && Flipped(Flipped(img)) == img
  {
  }

  function Blank(h: Header): (img: Image)
    ensures Fits(img, h)
  {
    seq(h.height, _ => seq(h.width, _ => Zeros(h.channels)))
  }

  /** RLE expands at most 128 times; a header that claims more than that is refused. */
  predicate Plausible(file: seq<byte>, h: Header) {
    Area(h.channels, Area(h.width, h.height)) <= if h.rle then |file| * 128 else |file|
  }

  /** What the reader makes of the tile part of a file. */
  function ReadImage(file: seq<byte>, tiles: nat, h: Header): Option<Image> {
    if !Plausible(file, h) then None
    else
      match ReadTiles(file, tiles, Blank(h), h)
      case None => None
      case Some(img) => Some(Flipped(img))
  }

  function Written(img: Image, h: Header): seq<byte>
    requires Fits(img, h) && Writable(h)
  {
    FlippedTwice(img, h);
    Chunks(Flipped(img), h)
  }

  /** The reader never refuses a file of the writer for being too short. */
  lemma WrittenPlausible(img: Image, h: Header)
    requires Fits(img, h) && Writable(h)
    ensures Plausible(Written(img, h), h)
  {
    FlippedTwice(img, h);
    ChunksAtLeast(Flipped(img), h);
  }

  /** Reading gives back the identical image, provided that every tile is stored with its true length. */
  lemma ImageRoundTrip(img: Image, h: Header)
    requires Fits(img, h) && Writable(h) && Fits(Flipped(img), h) && AllStorable(Flipped(img), h)
    ensures ReadImage(Written(img, h), TileTotal(h), h) == Some(img)
  {
    WrittenPlausible(img, h);
    FlippedTwice(img, h);
    ChunksReadBack(Flipped(img), Blank(h), h);
  }

  /** With four channels that is every image, compressed or not. */
  lemma RgbaRoundTrip(img: Image, h: Header)
    requires Fits(img, h) && Writable(h) && h.channels == 4
    ensures ReadImage(Written(img, h), TileTotal(h), h) == Some(img)
  {
    var a := Flipped(img);
    FlippedTwice(img, h);
    forall tx, ty | 0 <= tx < TileCount(h.width) && 0 <= ty < TileCount(h.height)
      ensures TileStorable(a, h, tx, ty)
    {
      TileInside(h.width, h.height, tx, ty);
      FourChannels(Size(TileOf(h, tx, ty)));
    }
    ImageRoundTrip(img, h);
  }
}
