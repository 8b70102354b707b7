/** The tile writer of Maya IFF files. */
module IffWriter {
  import opened Bytes
  import opened Files
  import opened IffRle
  import opened IffCoder
  import opened IffTiles
  import opened IffChunks
  import opened IffRoundTrip

  /** Rows in memory, exchanged in place. */
  method FlipRows(buf: array<seq<Pixel>>)
    modifies buf
    ensures buf[..] == Flipped(old(buf[..]))
  {
    var y := 0;
    while y < buf.Length / 2
      invariant 0 <= y <= buf.Length / 2
      invariant forall k :: 0 <= k < y ==> buf[k] == old(buf[buf.Length - 1 - k])
      invariant forall k :: 0 <= k < y ==> buf[buf.Length - 1 - k] == old(buf[k])
      invariant forall k :: y <= k < buf.Length - y ==> buf[k] == old(buf[k])
    {
      buf[y], buf[buf.Length - 1 - y] := buf[buf.Length - 1 - y], buf[y];
      y := y + 1;
    }
  }

  // ----- One channel of a tile.

  lemma ChannelConcat(ps: seq<Pixel>, qs: seq<Pixel>, c: nat)
    ensures Channel(ps + qs, c) == Channel(ps, c) + Channel(qs, c)
  {
  }

  /** The bytes of one channel in some columns of a row. */
  method GatherRow(row: seq<Pixel>, left: nat, right: nat, c: nat, data: array<byte>, offset: nat, next: nat)
    requires left <= right <= |row| && next == offset + (right - left) <= data.Length
    modifies data
    ensures data[..next] == old(data[..offset]) + Channel(row[left..right], c)
  {
    var (px, at) := (left, offset);
    ghost var (start, done) := (data[..offset], []);
    while px < right
      invariant left <= px <= right && at == offset + (px - left)
      invariant done == Channel(row[left..px], c)
      invariant data[..at] == start + done
    {
      var b := ByteOf(row[px], c);
      ChannelNextPixel(row, left, px, c);
      Assoc(start, done, [b]);
      PutByte(data, at, at + 1, b);
      done := done + [b];
      px, at := px + 1, at + 1;
    }
  }

  lemma ChannelNextPixel(row: seq<Pixel>, left: nat, px: nat, c: nat)
    requires left <= px < |row|
    ensures Channel(row[left..px + 1], c) == Channel(row[left..px], c) + [ByteOf(row[px], c)]
  {
    assert row[left..px + 1][..px - left] == row[left..px];
  }

  lemma NextRowFits(width: nat, k: nat, next: nat, height: nat)
    requires k < height && next == k + 1
    ensures Area(width, next) == Area(width, k) + width <= Area(width, height)
  {
    RowFits(width, k, height);
  }

  lemma ChannelNextRow(img: Image, r: Rect, k: nat, next: nat, c: nat)
    requires Contains(img, r) && k < Height(r) && next == k + 1
    ensures Channel(Rows(img, r, next), c) == Channel(Rows(img, r, k), c) + Channel(Piece(img, r, k), c)
  {
    ChannelConcat(Rows(img, r, k), Piece(img, r, k), c);
  }

  method GatherChannel(img: Image, r: Rect, c: nat) returns (data: array<byte>)
    requires Contains(img, r)
    ensures fresh(data) && data[..] == Channel(Get(img, r), c)
  {
    var (w, n) := (Width(r), Height(r));
    data := new byte[Size(r)];
    var k, offset := 0, 0;
    ghost var done := [];
    while k < n
      invariant 0 <= k <= n && offset == Area(w, k) <= data.Length
      invariant done == Channel(Rows(img, r, k), c)
      invariant data[..offset] == done
    {
      var (k', offset') := (k + 1, offset + w);
      NextRowFits(w, k, k', n);
      ChannelNextRow(img, r, k, k', c);
      done := GatherNext(img, r, k, c, data, offset, offset', done);
      k, offset := k', offset';
    }
    assert data[..offset] == data[..];
  }

  /** One more row. */
  method GatherNext(img: Image, r: Rect, k: nat, c: nat, data: array<byte>, offset: nat, next: nat,
                    ghost done: seq<byte>)
    returns (ghost done': seq<byte>)
    requires Contains(img, r) && k < Height(r) && next == offset + Width(r) <= data.Length && data[..offset] == done
    modifies data
    ensures done' == done + Channel(Piece(img, r, k), c) && data[..next] == done'
  {
    GatherRow(img[r.top + k], r.left, r.right, c, data, offset, next);
    done' := done + Channel(Piece(img, r, k), c);
  }

  /** All channels of a tile, compressed one after the other into a buffer of twice the tile's length. */
  method PackTile(img: Image, r: Rect, channels: nat)
    returns (tmp: array<byte>, index: nat)
    requires Contains(img, r)
    ensures fresh(tmp) && index <= tmp.Length && tmp[..index] == Packed(Get(img, r), channels)
  {
    ghost var parts := ChannelParts(Get(img, r), channels);
    var n := Size(r);
    tmp := new byte[2 * Area(channels, n)];
    index := 0;
    var c: nat := channels;
    ghost var done := [];
    while c > 0
      invariant c <= channels && index + 2 * Area(c, n) <= tmp.Length
      invariant done + Join(parts, c) == Join(parts, channels)
      invariant tmp[..index] == done
    {
      var d := c - 1;
      ghost var part := parts[d];
      ChannelsAdd(d, c, n);
      JoinMore(done, parts, d, c);
      index := PackChannel(img, r, d, tmp, index, part);
      done := done + part;
      c := d;
    }
    assert done + [] == done;
  }

  lemma JoinMore(start: seq<byte>, parts: seq<seq<byte>>, c: nat, next: nat)
    requires c < |parts| && next == c + 1
    ensures start + Join(parts, next) == (start + parts[c]) + Join(parts, c)
  {
    Assoc(start, parts[c], Join(parts, c));
  }

  method PackChannel(img: Image, r: Rect, c: nat, tmp: array<byte>, index: nat, ghost part: seq<byte>)
    returns (next: nat)
    requires Contains(img, r) && index + 2 * Size(r) <= tmp.Length
    requires part == Compress(Channel(Get(img, r), c))
    modifies tmp
    ensures index <= next <= index + 2 * Size(r)
    ensures tmp[..next] == old(tmp[..index]) + part
  {
    var data := GatherChannel(img, r, c);
    var size := CompressRleChannel(data, tmp, index);
    next := index + size;
  }

  // ----- A tile that is not compressed.

  /** The channels of a pixel, the last one first. */
  method StorePixel(p: Pixel, out: array<byte>, pos: nat, next: nat)
    requires next == pos + |p| <= out.Length
    modifies out
    ensures out[..next] == old(out[..pos]) + Reversed(p)
  {
    var (c, at) := (|p|, pos);
    while c > 0
      invariant 0 <= c <= |p| && at == pos + (|p| - c)
      invariant out[..at] == old(out[..pos]) + Reversed(p)[..|p| - c]
    {
      c := c - 1;
      var done := |p| - c;
      assert Reversed(p)[..done] == Reversed(p)[..done - 1] + [p[c]];
      PutByte(out, at, at + 1, p[c]);
      at := at + 1;
    }
  }

  lemma {:induction false} FlatConcat(ps: seq<Pixel>, qs: seq<Pixel>)
    ensures Flat(ps + qs) == Flat(ps) + Flat(qs)
  {
    if qs == [] {
      assert ps + qs == ps;
    } else {
      var (init, last) := (qs[..|qs| - 1], qs[|qs| - 1]);
      FlatConcat(ps, init);
      assert (ps + qs)[..|ps + qs| - 1] == ps + init;
      Assoc(Flat(ps), Flat(init), Reversed(last));
    }
  }

  method FlatRow(row: seq<Pixel>, left: nat, right: nat, channels: nat, out: array<byte>, pos: nat, next: nat)
    requires left <= right <= |row| && next == pos + Area(channels, right - left) <= out.Length
    requires Uniform(row, channels)
    modifies out
    ensures out[..next] == old(out[..pos]) + Flat(row[left..right])
  {
    var (px, at) := (left, pos);
    ghost var (start, done) := (out[..pos], []);
    while px < right
      invariant left <= px <= right && at == pos + Area(channels, px - left) <= next
      invariant done == Flat(row[left..px])
      invariant out[..at] == start + done
    {
      RowFits(channels, px - left, right - left);
      FlatNextPixel(row, left, px);
      Assoc(start, done, Reversed(row[px]));
      StorePixel(row[px], out, at, at + channels);
      done := done + Reversed(row[px]);
      px, at := px + 1, at + channels;
    }
  }

  lemma FlatNextPixel(row: seq<Pixel>, left: nat, px: nat)
    requires left <= px < |row|
    ensures Flat(row[left..px + 1]) == Flat(row[left..px]) + Reversed(row[px])
  {
    assert row[left..px + 1][..px - left] == row[left..px];
  }

  lemma FlatNextRow(img: Image, r: Rect, k: nat, next: nat)
    requires Contains(img, r) && k < Height(r) && next == k + 1
    ensures Flat(Rows(img, r, next)) == Flat(Rows(img, r, k)) + Flat(Piece(img, r, k))
  {
    FlatConcat(Rows(img, r, k), Piece(img, r, k));
  }

  method FlatTile(img: Image, r: Rect, channels: nat) returns (scratch: array<byte>)
    requires Contains(img, r) && forall y :: 0 <= y < |img| ==> Uniform(img[y], channels)
    ensures fresh(scratch) && scratch[..] == Flat(Get(img, r))
  {
    var (rowBytes, n) := (Area(channels, Width(r)), Height(r));
    scratch := new byte[Area(rowBytes, n)];
    var k, pos := 0, 0;
    ghost var done := [];
    while k < n
      invariant 0 <= k <= n && pos == Area(rowBytes, k) <= scratch.Length
      invariant done == Flat(Rows(img, r, k))
      invariant scratch[..pos] == done
    {
      var (k', pos') := (k + 1, pos + rowBytes);
      NextRowFits(rowBytes, k, k', n);
      FlatNextRow(img, r, k, k');
      FlatRow(img[r.top + k], r.left, r.right, channels, scratch, pos, pos');
      done := done + Flat(Piece(img, r, k));
      k, pos := k', pos';
    }
    assert scratch[..pos] == scratch[..];
  }

  // ----- The file.

  /** The chunks of the tiles, one sequence for each row of tiles. */
  type Grid = seq<seq<seq<byte>>>

  ghost predicate GridOf(grid: Grid, a: Image, h: Header)
    requires Fits(a, h) && Writable(h)
  {
    && |grid| == TileCount(h.height)
    && (forall ty :: 0 <= ty < |grid| ==> |grid[ty]| == TileCount(h.width))
    && (forall ty, tx :: 0 <= ty < |grid| && 0 <= tx < |grid[ty]| ==> grid[ty][tx] == ChunkOf(a, h, tx, ty))
  }

  ghost function AllChunks(a: Image, h: Header): (grid: Grid)
    requires Fits(a, h) && Writable(h)
    ensures GridOf(grid, a, h)
    ensures forall ty :: 0 <= ty < |grid| ==> Parts(a, h)[ty] == Joined(grid[ty], |grid[ty]|)
  {
    seq(TileCount(h.height), ty requires 0 <= ty < TileCount(h.height) => RowParts(a, h, ty))
  }

  class IffOutput {
    const header: Header
    const f: Sink
    const buf: array<seq<Pixel>>

    ghost predicate Valid()
      reads buf
    {
      Writable(header) && Fits(buf[..], header)
    }

    predicate Fitting(img: Image) {
      Writable(header) && Fits(img, header)
    }

    constructor (header: Header, f: Sink)
      requires Writable(header)
      ensures Valid() && this.header == header && this.f == f && fresh(buf)
    {
      this.header := header;
      this.f := f;
      buf := new seq<Pixel>[header.height](_ => seq(header.width, _ => Zeros(header.channels)));
    }

    /** One tile, compressed if that makes it shorter. */
    method WriteTile(r: Rect, img: Image)
      requires Fitting(img) && Inside(r, header.width, header.height) && Suits(Get(img, r), r, header)
      modifies f
      ensures f.data == old(f.data) + Chunk(Get(img, r), r, header.channels, header.rle)
    {
      var compressed := header.rle;
      if compressed {
        compressed := WritePacked(r, img);
      }
      if !compressed {
        WriteFlat(r, img);
      }
    }

    method WritePacked(r: Rect, img: Image) returns (shorter: bool)
      requires Fitting(img) && Inside(r, header.width, header.height) && Suits(Get(img, r), r, header)
      requires header.rle
      modifies f
      ensures shorter == Compresses(Get(img, r), header.channels, header.rle)
      ensures f.data == if shorter then old(f.data) + Chunk(Get(img, r), r, header.channels, header.rle)
                        else old(f.data)
    {
      var tmp, index := PackTile(img, r, header.channels);
      shorter := index < Area(header.channels, Size(r));
      if shorter {
        var length := index + 8;
        PackedChunk(Get(img, r), r, header.channels, length);
        WriteChunk(r, length, tmp[..index] + Zeros(Padding(length)));
      }
    }

    method WriteFlat(r: Rect, img: Image)
      requires Fitting(img) && Inside(r, header.width, header.height) && Suits(Get(img, r), r, header)
      requires !Compresses(Get(img, r), header.channels, header.rle)
      modifies f
      ensures f.data == old(f.data) + Chunk(Get(img, r), r, header.channels, header.rle)
    {
      var scratch := FlatTile(img, r, header.channels);
      var length := AlignChunk(Area(header.channels, Size(r))) + 8;
      FlatChunk(Get(img, r), r, header.channels, header.rle, length);
      WriteChunk(r, length, scratch[..]);
    }

    method WriteChunk(r: Rect, length: nat, data: seq<byte>)
      requires Small(r)
      modifies f
      ensures f.data == old(f.data) + (Head(length, r) + data)
    {
      Assoc(f.data, Head(length, r), data);
      f.Write(Head(length, r));
      f.Write(data);
    }

    method WriteTileAt(tx: nat, ty: nat, img: Image, ghost chunk: seq<byte>)
      requires Fitting(img) && tx < TileCount(header.width) && ty < TileCount(header.height)
      requires chunk == ChunkOf(img, header, tx, ty)
      modifies f
      ensures f.data == old(f.data) + chunk
    {
      TileSuits(img, header, tx, ty);
      TileInside(header.width, header.height, tx, ty);
      WriteTile(Tile(header.width, header.height, tx, ty), img);
    }

    /** One row of tiles. */
    method WriteTileRow(ty: nat, img: Image, ghost grid: Grid)
      requires Fitting(img) && GridOf(grid, img, header) && ty < |grid|
      modifies f
      ensures f.data == old(f.data) + Joined(grid[ty], |grid[ty]|)
    {
      var (tx, tiles) := (0, TileCount(header.width));
      ghost var (start, done, parts) := (f.data, [], grid[ty]);
      while tx < tiles
        invariant 0 <= tx <= |parts| == tiles
        invariant done == Joined(parts, tx)
        invariant f.data == start + done
      {
        var next := tx + 1;
        AppendPart(parts, tx, next);
        Assoc(start, done, parts[tx]);
        WriteTileAt(tx, ty, img, parts[tx]);
        done := done + parts[tx];
        tx := next;
      }
    }

    method WriteTiles(img: Image, ghost grid: Grid)
      requires Fitting(img) && GridOf(grid, img, header)
      modifies f
      ensures f.data == old(f.data) + Total(grid, |grid|)
    {
      var (ty, rows) := (0, TileCount(header.height));
      ghost var start := f.data;
      ghost var done := [];
      while ty < rows
        invariant 0 <= ty <= |grid| == rows
        invariant done == Total(grid, ty)
        invariant f.data == start + done
      {
        ghost var row := Joined(grid[ty], |grid[ty]|);
        var next := ty + 1;
        TotalNext(grid, ty, next);
        Assoc(start, done, row);
        WriteTileRow(ty, img, grid);
        done := done + row;
        ty := next;
      }
    }

    /** The rows are flipped, and all tiles are written. */
    method Close()
      requires Valid()
      modifies buf, f
      ensures f.data == old(f.data) + Written(old(buf[..]), header)
    {
      FlippedTwice(buf[..], header);
      FlipRows(buf);
      ghost var grid := AllChunks(buf[..], header);
      TotalIs(grid, Parts(buf[..], header), |grid|);
      WriteTiles(buf[..], grid);
    }
  }

  /** The chunks of the first n rows of tiles. */
  function Total(grid: Grid, n: nat): seq<byte>
    requires n <= |grid|
  {
    if n == 0 then [] else Total(grid, n - 1) + Joined(grid[n - 1], |grid[n - 1]|)
  }

  lemma {:induction false} TotalIs(grid: Grid, parts: seq<seq<byte>>, n: nat)
    requires n <= |grid| == |parts|
    requires forall ty :: 0 <= ty < |grid| ==> parts[ty] == Joined(grid[ty], |grid[ty]|)
    ensures Total(grid, n) == Joined(parts, n)
  {
    if n > 0 {
      TotalIs(grid, parts, n - 1);
    }
  }

  lemma TotalNext(grid: Grid, k: nat, next: nat)
    requires k < |grid| && next == k + 1
    ensures Total(grid, next) == Total(grid, k) + Joined(grid[k], |grid[k]|)
  {
  }

  lemma AppendPart(parts: seq<seq<byte>>, k: nat, next: nat)
    requires k < |parts| && next == k + 1
    ensures Joined(parts, next) == Joined(parts, k) + parts[k]
  {
  }

  lemma PackedChunk(ps: seq<Pixel>, r: Rect, channels: nat, length: nat)
    requires Small(r) && Area(channels, |ps|) < MAX_TILE && Compresses(ps, channels, true)
    requires length == |Packed(ps, channels)| + 8
    ensures Head(length, r) + (Packed(ps, channels) + Zeros(Padding(length))) == Chunk(ps, r, channels, true)
  {
  }

  lemma FlatChunk(ps: seq<Pixel>, r: Rect, channels: nat, rle: bool, length: nat)
    requires Small(r) && Area(channels, |ps|) < MAX_TILE && !Compresses(ps, channels, rle)
    requires length == AlignChunk(Area(channels, |ps|)) + 8
    ensures Head(length, r) + Flat(ps) == Chunk(ps, r, channels, rle)
  {
  }
}
