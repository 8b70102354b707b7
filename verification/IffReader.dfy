/** The tile reader of Maya IFF files. */
module IffReader {
  import opened Bytes
  import opened IffRle
  import opened IffCoder
  import opened IffTiles
  import opened IffChunks
  import opened IffRoundTrip
  import IffWriter

  // ----- Storing the pixels of a tile, row by row.

  /** The first k rows of a tile have been put into the image. */
  ghost predicate PutSoFar(buf: Image, img: Image, r: Rect, ps: seq<Pixel>, k: nat)
    requires Contains(img, r) && |ps| == Size(r)
  {
    |buf| == |img| && forall y :: 0 <= y < |img| ==> buf[y] == if y < r.top + k then NewRow(img[y], r, ps, y) else img[y]
  }

  lemma PutStarts(img: Image, r: Rect, ps: seq<Pixel>)
    requires Contains(img, r) && |ps| == Size(r)
    ensures PutSoFar(img, img, r, ps, 0)
  {
  }

  lemma PutNext(buf: Image, img: Image, r: Rect, ps: seq<Pixel>, k: nat, next: nat, y: nat, row: seq<Pixel>)
    requires Contains(img, r) && |ps| == Size(r) && k < Height(r) && next == k + 1 && y == r.top + k
    requires PutSoFar(buf, img, r, ps, k) && row == NewRow(img[y], r, ps, y)
    ensures PutSoFar(buf[y := row], img, r, ps, next)
  {
  }

  lemma PutEnds(buf: Image, img: Image, r: Rect, ps: seq<Pixel>, k: nat)
    requires Contains(img, r) && |ps| == Size(r) && k == Height(r) && PutSoFar(buf, img, r, ps, k)
    ensures buf == Put(img, r, ps)
  {
  }

  // ----- One channel of a compressed tile.

  /** A row in which one channel of some pixels is replaced, one by one. */
  method StoreChannelRow(row: seq<Pixel>, left: nat, right: nat, c: nat, plane: array<byte>, offset: nat)
    returns (res: seq<Pixel>)
    requires left <= right <= |row| && offset + (right - left) <= plane.Length
    ensures |res| == |row|
    ensures forall x :: 0 <= x < |row| ==>
      res[x] == if left <= x < right then SetByte(row[x], c, plane[offset + (x - left)]) else row[x]
  {
    var (px, at) := (left, offset);
    res := row;
    while px < right
      invariant left <= px <= right && at == offset + (px - left) && |res| == |row|
      invariant forall x :: 0 <= x < |row| ==>
        res[x] == if left <= x < px then SetByte(row[x], c, plane[offset + (x - left)]) else row[x]
    {
      res := res[px := SetByte(res[px], c, plane[at])];
      px, at := px + 1, at + 1;
    }
  }

  /** The pixels of a row from left to px have been replaced. */
  predicate PixelsStored(row: seq<Pixel>, res: seq<Pixel>, left: nat, px: nat, first: nat, ps: seq<Pixel>) {
    && |res| == |row| && left <= px <= |row| && first + (px - left) <= |ps|
    && forall x {:trigger res[x]} :: 0 <= x < |row| ==>
         res[x] == if left <= x < px then ps[first + (x - left)] else row[x]
  }

  /** A row that got the pixels of a tile one by one is the row that the tile would get. */
  lemma RowStored(was: seq<Pixel>, row: seq<Pixel>, r: Rect, ps: seq<Pixel>, k: nat, y: nat, first: nat)
    requires r.left <= r.right <= |was| == |row| && r.top <= r.bottom && |ps| == Size(r)
    requires k < Height(r) && y == r.top + k && first == Area(Width(r), k) && first + Width(r) <= |ps|
    requires PixelsStored(was, row, r.left, r.right, first, ps)
    ensures row == NewRow(was, r, ps, y)
  {
    HasRows(ps, r, k);
    assert forall x :: 0 <= x < Width(r) ==> RowOf(ps, Width(r), k)[x] == ps[first + x];
  }

  /** The pixels of row k are those of the image. */
  lemma GetAt(img: Image, r: Rect, k: nat, first: nat, x: nat)
    requires Contains(img, r) && k < Height(r) && r.left <= x < r.right
    requires first == Area(Width(r), k) && first + Width(r) <= Size(r)
    ensures Get(img, r)[first + (x - r.left)] == img[r.top + k][x]
  {
    RowOfRows(img, r, Height(r), k);
    assert RowOf(Get(img, r), Width(r), k)[x - r.left] == Piece(img, r, k)[x - r.left];
  }

  lemma ChannelRow(img: Image, r: Rect, c: nat, plane: seq<byte>, k: nat, y: nat, row: seq<Pixel>, first: nat)
    requires Contains(img, r) && |plane| == Size(r) && k < Height(r) && y == r.top + k
    requires first == Area(Width(r), k) && first + Width(r) <= |plane| && |row| == |img[y]|
    requires forall x :: 0 <= x < |row| ==>
      row[x] == if r.left <= x < r.right then SetByte(img[y][x], c, plane[first + (x - r.left)]) else img[y][x]
    ensures row == NewRow(img[y], r, SetChannel(Get(img, r), c, plane), y)
  {
    var ps := SetChannel(Get(img, r), c, plane);
    forall x | r.left <= x < r.right
      ensures row[x] == ps[first + (x - r.left)]
    {
      GetAt(img, r, k, first, x);
    }
    RowStored(img[y], row, r, ps, k, y, first);
  }

  method StoreChannel(buf: array<seq<Pixel>>, r: Rect, c: nat, plane: array<byte>, ghost img: Image)
    requires buf[..] == img && Contains(img, r) && plane.Length == Size(r)
    modifies buf
    ensures buf[..] == Put(img, r, SetChannel(Get(img, r), c, plane[..]))
  {
    var (w, n) := (Width(r), Height(r));
    ghost var (p, ps) := (plane[..], SetChannel(Get(img, r), c, plane[..]));
    var k, offset := 0, 0;
    PutStarts(img, r, ps);
    while k < n
      invariant 0 <= k <= n && offset == Area(w, k) <= plane.Length
      invariant PutSoFar(buf[..], img, r, ps, k)
    {
      var (k', offset', y) := (k + 1, offset + w, r.top + k);
      IffWriter.NextRowFits(w, k, k', n);
      ghost var before := buf[..];
      var row := StoreChannelRow(buf[y], r.left, r.right, c, plane, offset);
      ChannelRow(img, r, c, p, k, y, row, offset);
      PutNext(before, img, r, ps, k, k', y, row);
      buf[y] := row;
      assert buf[..] == before[y := row];
      k, offset := k', offset';
    }
    PutEnds(buf[..], img, r, ps, k);
  }

  lemma UnpackedOne(data: seq<byte>, qs: seq<Pixel>, d: nat, p: Progress)
    requires p == Uncompress(Progress([], data), |qs|) && |p.out| <= |qs|
    ensures Unpacked(data, qs, d + 1) == Unpacked(p.rest, SetChannel(qs, d, p.out + Zeros(|qs| - |p.out|)), d)
  {
  }

  lemma UnpackedStep(data: seq<byte>, rest: seq<byte>, qs: seq<Pixel>, d: nat, c: nat, p: Progress, plane: seq<byte>)
    requires c == d + 1 && p == Uncompress(Progress([], data), |qs|) && p.rest == rest
    requires |p.out| <= |qs| && plane == p.out + Zeros(|qs| - |p.out|)
    ensures Unpacked(data, qs, c) == Unpacked(rest, SetChannel(qs, d, plane), d)
  {
    UnpackedOne(data, qs, d, p);
  }

  /** What has not been decoded of a new buffer is zero. */
  lemma PlaneIs(plane: seq<byte>, was: seq<byte>, out: seq<byte>)
    requires IffCoder.Holds(plane, was, |out|, out) && forall k :: 0 <= k < |was| ==> was[k] == 0
    ensures plane == out + Zeros(|plane| - |out|)
  {
    assert plane == plane[..|out|] + plane[|out|..];
    assert was[|out|..] == Zeros(|plane| - |out|);
  }

  /** Decode the next channel into a new buffer. */
  method NextPlane(scratch: array<byte>, pos: nat, n: nat, ghost data: seq<byte>, ghost p: Progress)
    returns (plane: array<byte>, next: nat)
    requires data == scratch[..] && pos <= |data| && p == Uncompress(Progress([], data[pos..]), n)
    ensures fresh(plane) && plane.Length == n && pos <= next <= |data| && p.rest == data[next..]
    ensures |p.out| <= n && plane[..] == p.out + Zeros(n - |p.out|)
  {
    plane := new byte[n](_ => 0);
    ghost var was := plane[..];
    var used := UncompressRleChannel(scratch, pos, plane, n);
    next := pos + used;
    PlaneIs(plane[..], was, p.out);
  }

  /** A compressed tile: every channel replaces that of the pixels there. */
  method UnpackTile(buf: array<seq<Pixel>>, r: Rect, scratch: array<byte>, channels: nat, ghost img: Image)
    requires buf[..] == img && Contains(img, r)
    modifies buf
    ensures buf[..] == Put(img, r, Unpacked(scratch[..], Get(img, r), channels))
  {
    var n := Size(r);
    var c: nat, pos: nat := channels, 0;
    ghost var (data, qs) := (scratch[..], Get(img, r));
    ghost var goal := Unpacked(data, qs, channels);
    PutGet(img, r);
    assert data[0..] == data;
    while c > 0
      invariant c <= channels && pos <= |data| && |qs| == n
      invariant Unpacked(data[pos..], qs, c) == goal
      invariant buf[..] == Put(img, r, qs)
    {
      var d := c - 1;
      ghost var p := Uncompress(Progress([], data[pos..]), n);
      var plane, next := NextPlane(scratch, pos, n, data, p);
      ghost var ps := SetChannel(qs, d, plane[..]);
      UnpackedStep(data[pos..], data[next..], qs, d, c, p, plane[..]);
      GetPut(img, r, qs);
      PutTwice(img, r, qs, ps);
      StoreChannel(buf, r, d, plane, buf[..]);
      qs, c, pos := ps, d, next;
    }
  }

  // ----- A tile that is not compressed.

  /** Pixel i of some data. */
  ghost predicate PixelAt(data: seq<byte>, channels: nat, i: nat, pos: nat, p: Pixel) {
    pos == Area(channels, i) && pos + channels <= |data| && p == Reversed(data[pos..pos + channels])
  }

  /** The channels come in reverse order. */
  method ReadPixel(scratch: array<byte>, pos: nat, channels: nat, ghost data: seq<byte>, ghost i: nat, ghost want: Pixel)
    returns (p: Pixel)
    requires data <= scratch[..] && PixelAt(data, channels, i, pos, want)
    ensures p == want
  {
    var c: nat := channels;
    p := [];
    while c > 0
      invariant 0 <= c <= channels && |p| == channels - c
      invariant forall k :: 0 <= k < |p| ==> p[k] == data[pos + channels - 1 - k]
    {
      c := c - 1;
      p := p + [scratch[pos + c]];
    }
    assert p == Reversed(data[pos..pos + channels]);
  }

  ghost predicate PixelsOf(data: seq<byte>, channels: nat, ps: seq<Pixel>) {
    forall i {:trigger ps[i]} :: 0 <= i < |ps| ==> PixelAt(data, channels, i, Area(channels, i), ps[i])
  }

  lemma UnflatPixels(data: seq<byte>, n: nat, channels: nat)
    requires |data| == Area(channels, n)
    ensures PixelsOf(data, channels, Unflat(data, n, channels))
  {
    forall i | 0 <= i < n
      ensures PixelAt(data, channels, i, Area(channels, i), Unflat(data, n, channels)[i])
    {
      UnflatAt(data, n, channels, i);
    }
  }

  lemma {:induction false} UnflatAt(data: seq<byte>, n: nat, channels: nat, i: nat)
    requires |data| == Area(channels, n) && i < n
    ensures PixelAt(data, channels, i, Area(channels, i), Unflat(data, n, channels)[i])
    decreases n
  {
    RowFits(channels, i, n);
    if i < n - 1 {
      RowFits(channels, i, n - 1);
      var cut := Area(channels, n - 1);
      UnflatAt(data[..cut], n - 1, channels, i);
      assert data[..cut][Area(channels, i)..Area(channels, i) + channels]
          == data[Area(channels, i)..Area(channels, i) + channels];
    }
  }

  lemma PixelsStoredNext(row: seq<Pixel>, res: seq<Pixel>, left: nat, px: nat, next: nat, first: nat, ps: seq<Pixel>, i: nat)
    requires PixelsStored(row, res, left, px, first, ps) && next == px + 1 <= |row| && i == first + (px - left) < |ps|
    ensures PixelsStored(row, res[px := ps[i]], left, next, first, ps)
  {
  }

  /** A row in which some pixels are replaced, one by one. */
  method StorePlainRow(row: seq<Pixel>, left: nat, right: nat, channels: nat,
                       scratch: array<byte>, pos: nat, first: nat, ghost data: seq<byte>, ghost ps: seq<Pixel>)
    returns (res: seq<Pixel>)
    requires left <= right <= |row| && data <= scratch[..]
    requires pos == Area(channels, first) && first + (right - left) <= |ps| && PixelsOf(data, channels, ps)
    ensures PixelsStored(row, res, left, right, first, ps)
  {
    var (px, at) := (left, pos);
    ghost var i := first;
    res := row;
    while px < right
      invariant left <= px <= right && i == first + (px - left) && at == Area(channels, i)
      invariant PixelsStored(row, res, left, px, first, ps)
    {
      ghost var i' := i + 1;
      AreaNext(channels, i, i');
      assert PixelAt(data, channels, i, at, ps[i]);
      var p := ReadPixel(scratch, at, channels, data, i, ps[i]);
      PixelsStoredNext(row, res, left, px, px + 1, first, ps, i);
      res := res[px := p];
      px, at, i := px + 1, at + channels, i';
    }
  }

  lemma AreaNext(width: nat, k: nat, next: nat)
    requires next == k + 1
    ensures Area(width, next) == Area(width, k) + width
  {
  }

  /** The next row of a tile. */
  method StorePlainNext(buf: array<seq<Pixel>>, r: Rect, k: nat, next: nat, channels: nat, scratch: array<byte>,
                        pos: nat, first: nat, ghost img: Image, ghost data: seq<byte>, ghost ps: seq<Pixel>)
    requires Contains(img, r) && |ps| == Size(r) && k < Height(r) && next == k + 1
    requires data <= scratch[..] && PixelsOf(data, channels, ps)
    requires first == Area(Width(r), k) && pos == Area(channels, first) && PutSoFar(buf[..], img, r, ps, k)
    modifies buf
    ensures PutSoFar(buf[..], img, r, ps, next)
  {
    var y := r.top + k;
    HasRows(ps, r, k);
    ghost var before := buf[..];
    var row := StorePlainRow(buf[y], r.left, r.right, channels, scratch, pos, first, data, ps);
    PlainNext(before, img, r, ps, k, next, y, row, first);
    SetRow(buf, y, row);
  }

  method SetRow(buf: array<seq<Pixel>>, y: nat, row: seq<Pixel>)
    requires y < buf.Length
    modifies buf
    ensures buf[..] == old(buf[..])[y := row]
  {
    buf[y] := row;
  }

  lemma PlainNext(buf: Image, img: Image, r: Rect, ps: seq<Pixel>, k: nat, next: nat, y: nat, row: seq<Pixel>, first: nat)
    requires Contains(img, r) && |ps| == Size(r) && k < Height(r) && next == k + 1 && y == r.top + k
    requires PutSoFar(buf, img, r, ps, k) && |row| == |img[y]|
    requires first == Area(Width(r), k) && first + Width(r) <= |ps|
    requires PixelsStored(img[y], row, r.left, r.right, first, ps)
    ensures PutSoFar(buf[y := row], img, r, ps, next)
  {
    RowStored(img[y], row, r, ps, k, y, first);
    PutNext(buf, img, r, ps, k, next, y, row);
  }

  method StorePlain(buf: array<seq<Pixel>>, r: Rect, scratch: array<byte>, channels: nat, ghost img: Image)
    requires buf[..] == img && Contains(img, r) && Area(channels, Size(r)) <= scratch.Length
    modifies buf
    ensures buf[..] == Put(img, r, Unflat(scratch[..Area(channels, Size(r))], Size(r), channels))
  {
    var (w, n) := (Width(r), Height(r));
    ghost var data := scratch[..Area(channels, Size(r))];
    ghost var ps := Unflat(data, Size(r), channels);
    UnflatPixels(data, Size(r), channels);
    var (k, first, pos) := (0, 0, 0);
    PutStarts(img, r, ps);
    while k < n
      invariant 0 <= k <= n && first == Area(w, k) && pos == Area(channels, first)
      invariant PutSoFar(buf[..], img, r, ps, k)
    {
      var (k', first') := (k + 1, first + w);
      IffWriter.NextRowFits(w, k, k', n);
      AreaAddHeight(channels, first, w, first');
      StorePlainNext(buf, r, k, k', channels, scratch, pos, first, img, data, ps);
      k, first, pos := k', first', pos + Area(channels, w);
    }
    PutEnds(buf[..], img, r, ps, k);
  }

  // ----- The chunks of the file.

  lemma NoChunk(file: seq<byte>, tiles: nat, img: Image, h: Header)
    requires Fits(img, h) && tiles > 0
    requires || |file| < 8 || SizeField(file) > |file| - 8
             || (if IsTag(file) then ReadTile(file[8..], SizeField(file), img, h) == None else !Skips(file, h))
    ensures ReadTiles(file, tiles, img, h) == None
  {
  }

  lemma OtherChunk(file: seq<byte>, tiles: nat, img: Image, h: Header)
    requires Fits(img, h) && tiles > 0 && |file| >= 8 && SizeField(file) <= |file| - 8 && Skips(file, h)
    ensures ReadTiles(file, tiles, img, h)
         == ReadTiles(Skipped(file[8..], AlignChunk(SizeField(file))), tiles, img, h)
  {
  }

  lemma TileChunk(file: seq<byte>, tiles: nat, left: nat, img: Image, h: Header, p: Partial)
    requires Fits(img, h) && |file| >= 8 && IsTag(file) && SizeField(file) <= |file| - 8 && tiles == left + 1
    requires ReadTile(file[8..], SizeField(file), img, h) == Some(p)
    ensures Fits(p.img, h) && ReadTiles(file, tiles, img, h) == ReadTiles(p.rest, left, p.img, h)
  {
    ReadTilesNext(file, left, img, h, p);
  }

  /** The decoded tile goes to its place. */
  method PlaceTile(buf: array<seq<Pixel>>, r: Rect, scratch: array<byte>, size: nat, h: Header,
                   ghost img: Image, ghost data: seq<byte>)
    requires buf[..] == img && data == scratch[..] && Fits(img, h) && Inside(r, h.width, h.height)
    requires size <= |data| + 8
    modifies buf
    ensures buf[..] == Placed(img, r, data, size, h)
  {
    GetUniform(img, r, h);
    var plain := Area(h.channels, Size(r));
    if plain + 8 > size {
      UnpackTile(buf, r, scratch, h.channels, img);
    } else {
      StorePlain(buf, r, scratch, h.channels, img);
    }
  }

  method Load(file: seq<byte>, start: nat, end: nat) returns (scratch: array<byte>)
    requires start <= end <= |file|
    ensures fresh(scratch) && scratch[..] == file[start..end]
  {
    scratch := new byte[end - start](k requires 0 <= k < end - start => file[start + k]);
  }

  lemma SliceOfRest(file: seq<byte>, pos: nat, start: nat, end: nat, size: nat)
    requires start == pos + 8 && end == pos + size && start <= end <= |file|
    ensures file[pos..][8..size] == file[start..end] && file[pos..][size..] == file[end..]
  {
  }

  class IffInput {
    const header: Header

    /** The file from the first tile on, and how much of it has been read. */
    const file: seq<byte>
    var pos: nat

    var buf: array<seq<Pixel>>

    constructor (header: Header, file: seq<byte>)
      ensures this.header == header && this.file == file
    {
      this.header, this.file := header, file;
      pos := 0;
      buf := new seq<Pixel>[0];
    }

    ghost predicate Valid()
      reads this, buf
    {
      pos <= |file| && Fits(buf[..], header)
    }

    /** The tile behind the head of a chunk. */
    method ReadTileChunk(size: nat, ghost img: Image, ghost rest: seq<byte>, ghost goal: Option<Partial>)
      returns (ok: bool)
      requires Valid() && size < TWO32 && img == buf[..] && rest == file[pos..]
      requires goal == ReadTile(rest, size, img, header)
      modifies this`pos, buf
      ensures ok <==> goal.Some?
      ensures ok ==> Valid() && goal == Some(Partial(buf[..], file[pos..]))
      ensures ok ==> pos > old(pos)
    {
      var chunkSize := AlignChunk(size);
      if |file| < pos + 8 || chunkSize <= 8 || |file| < pos + chunkSize {
        return false;
      }
      var r := Corners(file[pos..]);
      if !Inside(r, header.width, header.height) {
        return false;
      }
      var (start, end) := (pos + 8, pos + chunkSize);
      var scratch := Load(file, start, end);
      SliceOfRest(file, pos, start, end, chunkSize);
      PlaceTile(buf, r, scratch, size, header, img, scratch[..]);
      pos := end;
      return true;
    }

    /** One chunk: a tile, or something to skip. */
    method ReadChunk(tiles: nat, left: nat, ghost img: Image, ghost goal: Option<Image>)
      returns (ok: bool, tile: bool)
      requires Valid() && img == buf[..] && tiles == left + 1
      requires goal == ReadTiles(file[pos..], tiles, img, header)
      modifies this`pos, buf
      ensures !ok ==> goal == None
      ensures ok ==> Valid() && pos > old(pos)
      ensures ok ==> goal == ReadTiles(file[pos..], if tile then left else tiles, buf[..], header)
    {
      ghost var rest := file[pos..];
      tile := false;
      if |file| < pos + 8 {
        NoChunk(rest, tiles, img, header);
        return false, false;
      }
      var head := file[pos..pos + 8];
      var size := SizeField(head);
      assert size == SizeField(rest) && (IsTag(head) <==> IsTag(rest));
      var body := pos + 8;
      assert file[body..] == rest[8..];
      if size > |file| - body {
        NoChunk(rest, tiles, img, header);
        return false, false;
      }
      if IsTag(head) {
        ghost var p := ReadTile(rest[8..], size, img, header);
        pos := body;
        ok := ReadTileChunk(size, img, rest[8..], p);
        tile := true;
        if ok {
          TileChunk(rest, tiles, left, img, header, p.value);
        } else {
          NoChunk(rest, tiles, img, header);
        }
      } else if IsZTag(head) && !DepthsFit(file[body..], size, header) {
        NoChunk(rest, tiles, img, header);
        ok := false;
      } else {
        OtherChunk(rest, tiles, img, header);
        SkipChunk(body, AlignChunk(size));
        ok := true;
      }
    }

    method SkipChunk(body: nat, next: nat)
      requires body <= |file|
      modifies this`pos
      ensures body <= pos <= |file| && file[pos..] == Skipped(file[body..], next)
    {
      pos := if next <= |file| - body then body + next else |file|;
    }

    /** The whole image, top row first, or an error. */
    method ReadImg(tiles: nat) returns (ok: bool)
      modifies this
      ensures ok <==> ReadImage(file, tiles, header).Some?
      ensures ok ==> ReadImage(file, tiles, header) == Some(buf[..])
    {
      pos := 0;
      if !Plausible(file, header) {
        return false;
      }
      var zero := Zeros(header.channels);
      buf := new seq<Pixel>[header.height](_ => seq(header.width, _ => zero));
      ghost var goal := ReadTiles(file, tiles, Blank(header), header);
      assert buf[..] == Blank(header) && file[0..] == file;
      var left := tiles;
      while left > 0
        invariant Valid() && fresh(buf)
        invariant goal == ReadTiles(file[pos..], left, buf[..], header)
        decreases |file| - pos
      {
        var next := left - 1;
        var tile;
        ok, tile := ReadChunk(left, next, buf[..], goal);
        if !ok {
          return;
        }
        if tile {
          left := next;
        }
      }
      IffWriter.FlipRows(buf);
      ok := true;
    }
  }
}
