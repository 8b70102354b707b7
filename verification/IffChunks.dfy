/** The RGBA chunks of a Maya IFF file: what the writer puts into one, and what the reader makes of a file of them. */
module IffChunks {
  import opened Bytes
  import opened IffRle
  import opened IffTiles

  /** The fields of the file header that the tiles depend on. */
  datatype Header = Header(width: nat, height: nat, channels: nat, rle: bool)

  // ----- Numbers, most significant byte first.

  const TWO32: nat := 0x1_0000_0000

  function Num16(a: byte, b: byte): nat {
    a as nat * 256 + b as nat
  }

  function Num32(a: byte, b: byte, c: byte, d: byte): (n: nat)
    ensures n < TWO32
  {
    Num16(a, b) * 65536 + Num16(c, d)
  }

  function High(n: nat): byte {
    (n / 256 % 256) as byte
  }

  function Low(n: nat): byte {
    (n % 256) as byte
  }

  lemma Num16Back(n: nat, a: byte, b: byte)
    requires n < 65536 && a == High(n) && b == Low(n)
    ensures Num16(a, b) == n
  {
  }

  lemma Num32Back(n: nat, a: byte, b: byte, c: byte, d: byte)
    requires n < TWO32
    requires a == High(n / 65536) && b == Low(n / 65536) && c == High(n % 65536) && d == Low(n % 65536)
    ensures Num32(a, b, c, d) == n
  {
    Num16Back(n / 65536, a, b);
    Num16Back(n % 65536, c, d);
  }

  /** Chunks are padded to a multiple of four bytes; the sum wraps around as a 32-bit number does. */
  function AlignChunk(size: nat): (n: nat)
    requires size < TWO32
    ensures size <= n < size + 4 || n == 0
  {
    var rest := size % 4;
    var n := if rest != 0 then size + (4 - rest) else size;
    if n < TWO32 then n else n - TWO32
  }

  // ----- The channels of a tile, one after the other.

  function ByteOf(p: Pixel, c: nat): byte {
    if c < |p| then p[c] else 0
  }

  function Channel(ps: seq<Pixel>, c: nat): (s: seq<byte>)
    ensures |s| == |ps|
    ensures forall k :: 0 <= k < |ps| ==> s[k] == ByteOf(ps[k], c)
  {
    if ps == [] then [] else Channel(ps[..|ps| - 1], c) + [ByteOf(ps[|ps| - 1], c)]
  }

  function SetByte(p: Pixel, c: nat, b: byte): (q: Pixel)
    ensures |q| == |p|
  {
    if c < |p| then p[c := b] else p
  }

  function SetChannel(ps: seq<Pixel>, c: nat, s: seq<byte>): (qs: seq<Pixel>)
    requires |s| == |ps|
    ensures |qs| == |ps| && forall k :: 0 <= k < |ps| ==> |qs[k]| == |ps[k]|
  {
    seq(|ps|, k requires 0 <= k < |ps| => SetByte(ps[k], c, s[k]))
  }

  /** The first n parts, the last one first. */
  function Join(parts: seq<seq<byte>>, n: nat): seq<byte>
    requires n <= |parts|
  {
    if n == 0 then [] else parts[n - 1] + Join(parts, n - 1)
  }

  /** The channels, compressed one by one. */
  function ChannelParts(ps: seq<Pixel>, channels: nat): (parts: seq<seq<byte>>)
    ensures |parts| == channels
    ensures forall c :: 0 <= c < channels ==> parts[c] == Compress(Channel(ps, c))
  {
    seq(channels, c requires 0 <= c < channels => Compress(Channel(ps, c)))
  }

  function Packed(ps: seq<Pixel>, channels: nat): seq<byte> {
    Join(ChannelParts(ps, channels), channels)
  }

  /** Pixels whose first n channels are replaced by what the data decodes to; missing bytes are zero. */
  function Unpacked(data: seq<byte>, ps: seq<Pixel>, n: nat): (qs: seq<Pixel>)
    ensures |qs| == |ps| && forall k :: 0 <= k < |ps| ==> |qs[k]| == |ps[k]|
    decreases n
  {
    if n == 0 then ps
    else
      var p := Uncompress(Progress([], data), |ps|);
      UncompressedAtMost(Progress([], data), |ps|);
      Unpacked(p.rest, SetChannel(ps, n - 1, p.out + Zeros(|ps| - |p.out|)), n - 1)
  }

  /** The same number of channels everywhere. */
  predicate Uniform(ps: seq<Pixel>, channels: nat) {
    forall k :: 0 <= k < |ps| ==> |ps[k]| == channels
  }

  /** One channel comes back, and the next one is decoded from what follows. */
  lemma UnpackedNext(part: seq<byte>, rest: seq<byte>, s: seq<byte>, qs: seq<Pixel>, c: nat)
    requires Codes(part, s) && |s| == |qs|
    ensures Unpacked(part + rest, qs, c + 1) == Unpacked(rest, SetChannel(qs, c, s), c)
  {
    assert s + Zeros(0) == s;
  }

  /** The channels of two lists of pixels agree from channel n on. */
  ghost predicate AgreeFrom(ps: seq<Pixel>, qs: seq<Pixel>, n: nat, channels: nat) {
    && |qs| == |ps| && Uniform(ps, channels) && Uniform(qs, channels)
    && forall k, d :: 0 <= k < |ps| && n <= d < channels ==> qs[k][d] == ps[k][d]
  }

  lemma SetChannelBack(ps: seq<Pixel>, qs: seq<Pixel>, c: nat, channels: nat)
    requires c < channels && AgreeFrom(ps, qs, c + 1, channels)
    ensures AgreeFrom(ps, SetChannel(qs, c, Channel(ps, c)), c, channels)
  {
  }

  lemma AgreeAll(ps: seq<Pixel>, qs: seq<Pixel>, channels: nat)
    requires AgreeFrom(ps, qs, 0, channels)
    ensures qs == ps
  {
    assert forall k :: 0 <= k < |ps| ==> qs[k] == ps[k];
  }

  lemma JoinNext(parts: seq<seq<byte>>, c: nat, rest: seq<byte>)
    requires c < |parts|
    ensures Join(parts, c + 1) + rest == parts[c] + (Join(parts, c) + rest)
  {
    Assoc(parts[c], Join(parts, c), rest);
  }

  /** Whatever the pixels were before and whatever follows the data, every channel comes back. */
  lemma {:induction false} JoinedBack(ps: seq<Pixel>, qs: seq<Pixel>, parts: seq<seq<byte>>, n: nat, rest: seq<byte>)
    requires n <= |parts| && AgreeFrom(ps, qs, n, |parts|)
    requires forall c :: 0 <= c < |parts| ==> Codes(parts[c], Channel(ps, c))
    ensures Unpacked(Join(parts, n) + rest, qs, n) == ps
    decreases n
  {
    if n == 0 {
      assert Join(parts, n) + rest == rest;
      AgreeAll(ps, qs, |parts|);
    } else {
      SetChannelBack(ps, qs, n - 1, |parts|);
      JoinedBack(ps, SetChannel(qs, n - 1, Channel(ps, n - 1)), parts, n - 1, rest);
      JoinedNext(ps, qs, parts, n - 1, rest);
    }
  }

  lemma JoinedNext(ps: seq<Pixel>, qs: seq<Pixel>, parts: seq<seq<byte>>, c: nat, rest: seq<byte>)
    requires c < |parts| && |qs| == |ps| && Codes(parts[c], Channel(ps, c))
    requires Unpacked(Join(parts, c) + rest, SetChannel(qs, c, Channel(ps, c)), c) == ps
    ensures Unpacked(Join(parts, c + 1) + rest, qs, c + 1) == ps
  {
    JoinNext(parts, c, rest);
    UnpackedNext(parts[c], Join(parts, c) + rest, Channel(ps, c), qs, c);
  }

  lemma UnpackedBack(ps: seq<Pixel>, qs: seq<Pixel>, channels: nat, rest: seq<byte>)
    requires |qs| == |ps| && Uniform(ps, channels) && Uniform(qs, channels)
    ensures Unpacked(Packed(ps, channels) + rest, qs, channels) == ps
  {
    var parts := ChannelParts(ps, channels);
    forall c | 0 <= c < channels
      ensures Codes(parts[c], Channel(ps, c))
    {
      ChannelRoundTrip(Channel(ps, c));
    }
    JoinedBack(ps, qs, parts, channels, rest);
  }

  lemma ChannelsAdd(c: nat, n: nat, pixels: nat)
    requires n == c + 1
    ensures Area(n, pixels) == Area(c, pixels) + pixels
  {
    AreaAddWidth(1, c, n, pixels);
    AreaOfColumn(pixels);
  }

  lemma {:induction false} JoinBounds(parts: seq<seq<byte>>, n: nat, pixels: nat)
    requires n <= |parts|
    requires forall c :: 0 <= c < |parts| ==> |parts[c]| <= 2 * pixels && pixels <= 64 * |parts[c]|
    ensures |Join(parts, n)| <= 2 * Area(n, pixels) && Area(n, pixels) <= 64 * |Join(parts, n)|
  {
    if n == 0 {
      AreaOfNothing(pixels);
    } else {
      JoinBounds(parts, n - 1, pixels);
      ChannelsAdd(n - 1, n, pixels);
    }
  }

  lemma PartBounds(ps: seq<Pixel>, channels: nat, c: nat)
    requires c < channels
    ensures |ChannelParts(ps, channels)[c]| <= 2 * |ps| && |ps| <= 64 * |ChannelParts(ps, channels)[c]|
  {
    CompressedFits(Channel(ps, c));
    CompressedAtLeast(Channel(ps, c));
  }

  /** The compressed channels fit in the writer's buffer, and are not shorter than the reader believes possible. */
  lemma PackedBounds(ps: seq<Pixel>, channels: nat)
    ensures |Packed(ps, channels)| <= 2 * Area(channels, |ps|)
    ensures Area(channels, |ps|) <= 64 * |Packed(ps, channels)|
  {
    forall c | 0 <= c < channels
      ensures |ChannelParts(ps, channels)[c]| <= 2 * |ps| && |ps| <= 64 * |ChannelParts(ps, channels)[c]|
    {
      PartBounds(ps, channels, c);
    }
    JoinBounds(ChannelParts(ps, channels), channels, |ps|);
  }

  // ----- Pixels that are not compressed: the channels in reverse order.

  function Reversed(p: Pixel): (q: Pixel)
    ensures |q| == |p|
  {
    seq(|p|, k requires 0 <= k < |p| => p[|p| - 1 - k])
  }

  function Flat(ps: seq<Pixel>): seq<byte> {
    if ps == [] then [] else Flat(ps[..|ps| - 1]) + Reversed(ps[|ps| - 1])
  }

  function Unflat(data: seq<byte>, n: nat, channels: nat): (ps: seq<Pixel>)
    requires |data| == Area(channels, n)
    ensures |ps| == n && Uniform(ps, channels)
    decreases n
  {
    if n == 0 then [] else
      var cut := Area(channels, n - 1);
      Unflat(data[..cut], n - 1, channels) + [Reversed(data[cut..])]
  }

  lemma {:induction false} FlatLength(ps: seq<Pixel>, channels: nat)
    requires Uniform(ps, channels)
    ensures |Flat(ps)| == Area(channels, |ps|)
  {
    if ps != [] {
      FlatLength(ps[..|ps| - 1], channels);
    }
  }

  lemma ReversedTwice(p: Pixel)
    ensures Reversed(Reversed(p)) == p
  {
  }

  lemma {:induction false} UnflatBack(ps: seq<Pixel>, channels: nat)
    requires Uniform(ps, channels)
    ensures |Flat(ps)| == Area(channels, |ps|) && Unflat(Flat(ps), |ps|, channels) == ps
  {
    FlatLength(ps, channels);
    if ps != [] {
      var (init, last) := (ps[..|ps| - 1], ps[|ps| - 1]);
      UnflatBack(init, channels);
      ReversedTwice(last);
      UnflatSnoc(Flat(init), Reversed(last), |init|, |ps|, channels);
      assert ps == init + [last];
    }
  }

  lemma UnflatSnoc(data: seq<byte>, p: Pixel, n: nat, next: nat, channels: nat)
    requires |data| == Area(channels, n) && |p| == channels && next == n + 1
    ensures Unflat(data + p, next, channels) == Unflat(data, n, channels) + [Reversed(p)]
  {
    assert (data + p)[..|data|] == data && (data + p)[|data|..] == p;
  }

  // ----- A chunk.

  predicate Small(r: Rect) {
    r.left < r.right <= 65536 && r.top < r.bottom <= 65536
  }

  /** "RGBA", the length, and the first and last column and row. */
  function Head(length: nat, r: Rect): (s: seq<byte>)
    requires Small(r)
    ensures |s| == 16
  {
    [0x52, 0x47, 0x42, 0x41,
     High(length / 65536), Low(length / 65536), High(length % 65536), Low(length % 65536),
     High(r.left), Low(r.left), High(r.top), Low(r.top),
     High(r.right - 1), Low(r.right - 1), High(r.bottom - 1), Low(r.bottom - 1)]
  }

  predicate IsTag(file: seq<byte>)
    requires |file| >= 4
  {
    file[0] == 0x52 && file[1] == 0x47 && file[2] == 0x42 && file[3] == 0x41
  }

  /** Far more than the bytes of any tile of 64 by 64 pixels, and small enough for 32-bit lengths. */
  const MAX_TILE := 0x1000_0000

  /** A tile is compressed if the writer is asked to, and if that makes it shorter. */
  predicate Compresses(ps: seq<Pixel>, channels: nat, rle: bool) {
    rle && |Packed(ps, channels)| < Area(channels, |ps|)
  }

  /** The length in the head of the chunk: exact when compressed, aligned otherwise. */
  function Length(ps: seq<Pixel>, channels: nat, rle: bool): (n: nat)
    requires Area(channels, |ps|) < MAX_TILE
    ensures 8 <= n < TWO32 - 4
  {
    if Compresses(ps, channels, rle) then |Packed(ps, channels)| + 8
    else AlignChunk(Area(channels, |ps|)) + 8
  }

  /** The data of the chunk: padded when compressed, but not otherwise. */
  function Data(ps: seq<Pixel>, channels: nat, rle: bool): seq<byte>
    requires Area(channels, |ps|) < MAX_TILE
  {
    if Compresses(ps, channels, rle) then
      Packed(ps, channels) + Zeros(Padding(|Packed(ps, channels)| + 8))
    else Flat(ps)
  }

  function Padding(length: nat): nat
    requires length < TWO32
  {
    if AlignChunk(length) > length then AlignChunk(length) - length else 0
  }

  function Chunk(ps: seq<Pixel>, r: Rect, channels: nat, rle: bool): seq<byte>
    requires Small(r) && Area(channels, |ps|) < MAX_TILE
  {
    Head(Length(ps, channels, rle), r) + Data(ps, channels, rle)
  }

  // ----- The reader.

  /** The pixels of a tile, from the bytes behind the coordinates. Too short for plain data means compressed. */
  function TilePixels(data: seq<byte>, size: nat, before: seq<Pixel>, channels: nat): (ps: seq<Pixel>)
    requires Uniform(before, channels) && size <= |data| + 8
    ensures |ps| == |before| && Uniform(ps, channels)
  {
    var plain := Area(channels, |before|);
    if plain + 8 > size then Unpacked(data, before, channels) else Unflat(data[..plain], |before|, channels)
  }

  lemma {:induction false} RowsUniform(img: Image, r: Rect, n: nat, width: nat, height: nat, channels: nat)
    requires Shape(img, width, height, channels) && Inside(r, width, height) && n <= Height(r)
    ensures Uniform(Rows(img, r, n), channels)
  {
    if n > 0 {
      RowsUniform(img, r, n - 1, width, height, channels);
      assert Uniform(Piece(img, r, n - 1), channels);
    }
  }

  predicate Fits(img: Image, h: Header) {
    Shape(img, h.width, h.height, h.channels)
  }

  /** The image with one more tile, and what follows the tile in the file. */
  datatype Partial = Partial(img: Image, rest: seq<byte>)

  /** The first column and row of a tile, and the last ones. */
  function Corners(file: seq<byte>): Rect
    requires |file| >= 8
  {
    Rect(Num16(file[0], file[1]), Num16(file[2], file[3]), Num16(file[4], file[5]) + 1, Num16(file[6], file[7]) + 1)
  }

  lemma GetUniform(img: Image, r: Rect, h: Header)
    requires Fits(img, h) && Inside(r, h.width, h.height)
    ensures Uniform(Get(img, r), h.channels)
  {
    RowsUniform(img, r, Height(r), h.width, h.height, h.channels);
  }

  lemma PutUniform(img: Image, r: Rect, ps: seq<Pixel>, h: Header)
    requires Fits(img, h) && Inside(r, h.width, h.height) && |ps| == Size(r) && Uniform(ps, h.channels)
    ensures Fits(Put(img, r, ps), h)
  {
    forall y, x | 0 <= y < h.height && 0 <= x < h.width
      ensures |NewRow(img[y], r, ps, y)[x]| == h.channels
    {
      if r.top <= y < r.bottom {
        HasRows(ps, r, y - r.top);
        RowUniform(ps, Width(r), y - r.top, h.channels);
      }
    }
  }

  lemma RowUniform(ps: seq<Pixel>, width: nat, k: nat, channels: nat)
    requires Uniform(ps, channels) && HasRow(ps, width, k)
    ensures Uniform(RowOf(ps, width, k), channels)
  {
  }

  /** The image with a tile put into it. */
  function PutTile(img: Image, r: Rect, ps: seq<Pixel>, h: Header): (res: Image)
    requires Fits(img, h) && Inside(r, h.width, h.height) && |ps| == Size(r) && Uniform(ps, h.channels)
    ensures Fits(res, h)
  {
    PutUniform(img, r, ps, h);
    Put(img, r, ps)
  }

  /** The image with the tile that some data decodes to. */
  function Placed(img: Image, r: Rect, data: seq<byte>, size: nat, h: Header): (res: Image)
    requires Fits(img, h) && Inside(r, h.width, h.height) && size <= |data| + 8
    ensures Fits(res, h)
  {
    GetUniform(img, r, h);
    PutTile(img, r, TilePixels(data, size, Get(img, r), h.channels), h)
  }

  /** The tile whose coordinates come next in the file. */
  function ReadTile(file: seq<byte>, size: nat, img: Image, h: Header): (p: Option<Partial>)
    requires Fits(img, h) && size < TWO32
    ensures p.Some? ==> Fits(p.value.img, h) && |p.value.rest| < |file|
  {
    var chunkSize := AlignChunk(size);
    if |file| < 8 || chunkSize <= 8 || |file| < chunkSize then None
    else
      var r := Corners(file);
      if !Inside(r, h.width, h.height) then None
      else Some(Partial(Placed(img, r, file[8..chunkSize], size, h), file[chunkSize..]))
  }

  predicate IsZTag(file: seq<byte>)
    requires |file| >= 4
  {
    file[0] == 0x5a && file[1] == 0x42 && file[2] == 0x55 && file[3] == 0x46
  }

  /** A tile of depths has to be a tile of the image; without a depth channel nothing is made of it. */
  predicate DepthsFit(file: seq<byte>, size: nat, h: Header)
    requires size < TWO32
  {
    |file| >= 8 && 8 < AlignChunk(size) <= |file| && Inside(Corners(file), h.width, h.height)
  }

  /** A chunk that has nothing for the image. */
  predicate Skips(file: seq<byte>, h: Header)
    requires |file| >= 8
  {
    !IsTag(file) && (IsZTag(file) ==> DepthsFit(file[8..], SizeField(file), h))
  }

  /** Read chunks until there have been so many tiles; other chunks are skipped. */
  function ReadTiles(file: seq<byte>, tiles: nat, img: Image, h: Header): (r: Option<Image>)
    requires Fits(img, h)
    ensures r.Some? ==> Fits(r.value, h)
    decreases |file|
  {
    if tiles == 0 then Some(img)
    else if |file| < 8 then None
    else
      var (size, body) := (SizeField(file), file[8..]);
      if size > |body| then None
      else if IsTag(file) then
        match ReadTile(body, size, img, h)
        case None => None
        case Some(p) => ReadTiles(p.rest, tiles - 1, p.img, h)
      else if !Skips(file, h) then None
      else ReadTiles(Skipped(body, AlignChunk(size)), tiles, img, h)
  }

  function SizeField(file: seq<byte>): (n: nat)
    requires |file| >= 8
    ensures n < TWO32
  {
    Num32(file[4], file[5], file[6], file[7])
  }

  function Skipped(file: seq<byte>, n: nat): (rest: seq<byte>)
    ensures |rest| <= |file|
  {
    if n <= |file| then file[n..] else []
  }
}
