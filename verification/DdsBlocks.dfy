/** Images that are compressed in blocks of 4 by 4 pixels, and the image they stand for. */
module DdsBlocks {
  import opened Bytes

  const BLOCK := 4

  datatype Compression = DXT1 | DXT2 | DXT3 | DXT4 | DXT5 | BC4 | BC5 | BC6HU | BC6HS | BC7

  /** The bytes of a block. */
  function BlockSize(cmp: Compression): (n: nat)
    ensures n > 0
  {
    if cmp == DXT1 || cmp == BC4 then 8 else 16
  }

  function ChannelCount(cmp: Compression, isNormal: bool): (n: nat)
    ensures n > 0
  {
    if cmp == DXT5 then (if isNormal then 3 else 4)
    else if cmp == BC5 then (if isNormal then 3 else 2)
    else if cmp == BC4 then 1
    else if cmp == BC6HU || cmp == BC6HS then 3
    else 4
  }

  /** The bytes of a pixel; two formats have channels of two bytes. */
  function PixelBytes(cmp: Compression, isNormal: bool): (n: nat)
    ensures n > 0
  {
    if cmp == BC6HU || cmp == BC6HS then 2 * ChannelCount(cmp, isNormal) else ChannelCount(cmp, isNormal)
  }

  /** The number of blocks that cover n pixels. */
  function Blocks(n: nat): (b: nat)
    ensures n <= BLOCK * b < n + BLOCK
  {
    (n + BLOCK - 1) / BLOCK
  }

  /** The bytes of all blocks. */
  function StorageRequirements(width: nat, height: nat, cmp: Compression): nat {
    Area(BlockSize(cmp), Area(Blocks(width), Blocks(height)))
  }

  /** Decoding a block, whatever its bytes are. */
  type Decoder = seq<byte> -> seq<byte>

  /** A compressed image. */
  datatype Source = Source(width: nat, height: nat, cmp: Compression, isNormal: bool, data: seq<byte>, decode: Decoder) {
    function Pixel(): (n: nat)
      ensures n > 0
    {
      PixelBytes(cmp, isNormal)
    }

    function Columns(): nat {
      Blocks(width)
    }

    function Rows(): nat {
      Blocks(height)
    }
  }

  /** Blocks decode to sixteen pixels, row by row, and there are enough of them. */
  ghost predicate Proper(s: Source) {
    && (forall block :: |s.decode(block)| == Area(s.Pixel(), BLOCK * BLOCK))
    && |s.data| == StorageRequirements(s.width, s.height, s.cmp)
  }

  // ----- The blocks.

  /** The place of a block. */
  datatype Place = Place(col: nat, row: nat)

  predicate Inside(p: Place, s: Source) {
    p.col < s.Columns() && p.row < s.Rows()
  }

  /** The number of a block, counted row by row. */
  function Number(s: Source, p: Place): nat {
    Area(s.Columns(), p.row) + p.col
  }

  /** Where the bytes of a block start. */
  function BlockOffset(s: Source, p: Place): nat {
    Area(BlockSize(s.cmp), Number(s, p))
  }

  lemma BlockInside(s: Source, p: Place)
    requires Inside(p, s)
    ensures BlockOffset(s, p) + BlockSize(s.cmp) <= StorageRequirements(s.width, s.height, s.cmp)
  {
    RowFits(s.Columns(), p.row, s.Rows());
    RowFits(BlockSize(s.cmp), Number(s, p), Area(s.Columns(), s.Rows()));
  }

  function BlockAt(s: Source, p: Place): (block: seq<byte>)
    requires Proper(s) && Inside(p, s)
    ensures |block| == Area(s.Pixel(), BLOCK * BLOCK)
  {
    BlockInside(s, p);
    s.decode(s.data[BlockOffset(s, p)..BlockOffset(s, p) + BlockSize(s.cmp)])
  }

  // ----- The image.

  function Part(bytes: seq<byte>, from: nat, n: nat): (part: seq<byte>)
    requires from + n <= |bytes|
    ensures |part| == n
  {
    bytes[from..from + n]
  }

  lemma PartInPart(bytes: seq<byte>, from: nat, n: nat, a: nat, m: nat, at: nat)
    requires from + n <= |bytes| && a + m <= n && at == from + a
    ensures Part(Part(bytes, from, n), a, m) == Part(bytes, at, m)
  {
    PartOfPart(bytes, from, from + n, a, a + m);
  }

  /** The bytes of pixel k of some pixels. */
  function PixelAt(bytes: seq<byte>, size: nat, k: nat): seq<byte>
    requires Area(size, k) + size <= |bytes|
  {
    Part(bytes, Area(size, k), size)
  }

  lemma PixelInside(size: nat, k: nat, n: nat)
    requires k < n
    ensures Area(size, k) + size <= Area(size, n)
  {
    RowFits(size, k, n);
  }

  /** Pixel (x, y) of the image: pixel (x % 4, y % 4) of block (x / 4, y / 4). */
  function PixelOf(s: Source, x: nat, y: nat): seq<byte>
    requires Proper(s) && x < s.width && y < s.height
  {
    InsideBlock(x, s.width);
    InsideBlock(y, s.height);
    PixelInside(s.Pixel(), BLOCK * (y % BLOCK) + x % BLOCK, BLOCK * BLOCK);
    PixelAt(BlockAt(s, Place(x / BLOCK, y / BLOCK)), s.Pixel(), BLOCK * (y % BLOCK) + x % BLOCK)
  }

  lemma InsideBlock(x: nat, width: nat)
    requires x < width
    ensures x / BLOCK < Blocks(width) && x % BLOCK < BLOCK
  {
  }

  predicate InBlock(x: nat, y: nat, p: Place) {
    BLOCK * p.col <= x < BLOCK * p.col + BLOCK && BLOCK * p.row <= y < BLOCK * p.row + BLOCK
  }

  lemma BlockOf(x: nat, col: nat)
    requires BLOCK * col <= x < BLOCK * col + BLOCK
    ensures x / BLOCK == col && x % BLOCK == x - BLOCK * col
  {
  }

  /** A pixel of a block is the pixel of the image that it stands for. */
  lemma PixelInBlock(s: Source, p: Place, x: nat, y: nat)
    requires Proper(s) && Inside(p, s) && x < s.width && y < s.height && InBlock(x, y, p)
    ensures Area(s.Pixel(), BLOCK * (y - BLOCK * p.row) + (x - BLOCK * p.col)) + s.Pixel() <= |BlockAt(s, p)|
    ensures PixelAt(BlockAt(s, p), s.Pixel(), BLOCK * (y - BLOCK * p.row) + (x - BLOCK * p.col)) == PixelOf(s, x, y)
  {
    BlockOf(x, p.col);
    BlockOf(y, p.row);
    PixelInside(s.Pixel(), BLOCK * (y - BLOCK * p.row) + (x - BLOCK * p.col), BLOCK * BLOCK);
  }
}
