/** Writing one frame: control extension, descriptor, local palette and LZW-compressed indices. */
module GifFrameWriter {
  import opened Bytes
  import opened Files
  import opened GifPixels
  import opened GifLzwSpec
  import opened GifLzwStream
  import opened GifBlocks
  import opened GifBitWriter
  import opened GifLzwWriter
  import opened GifViewer
  import opened GifMedianSplit
  import opened GifPalettes

  // ----- The bytes in front of the compressed indices.

  function Lo(n: nat): byte {
    (n % 256) as byte
  }

  function Hi(n: nat): byte {
    (n / 256 % 256) as byte
  }

  lemma U16LoHi(n: nat)
    ensures U16(Lo(n), Hi(n)) == n % 65536
  {
  }

  /** Disposal method 1, with a transparent index, which is 0. */
  function GraphicControl(delay: nat): seq<byte> {
    [0x21, 0xf9, 0x04, 0x05, Lo(delay), Hi(delay), TRANS_INDEX, 0]
  }

  function Descriptor(left: nat, top: nat, width: nat, height: nat, depth: nat): seq<byte>
    requires Depth(depth)
  {
    [0x2c, Lo(left), Hi(left), Lo(top), Hi(top), Lo(width), Hi(width), Lo(height), Hi(height),
     Packed(depth)]
  }

  /** A local color table of 2^depth entries, not interlaced. */
  function Packed(depth: nat): byte
    requires Depth(depth)
  {
    (0x80 + depth - 1) as byte
  }

  lemma PackedReadBack(depth: nat)
    requires Depth(depth)
    ensures HasTable(Packed(depth)) && !Interlaced(Packed(depth)) && Entries(Packed(depth)) == Pow2(depth)
  {
    var packed := 0x80 + depth - 1;
    assert packed / 128 == 1 && packed / 64 == 2 && packed % 8 == depth - 1;
  }

  /** The first n table entries; entry 0 stands for transparency and is written black. */
  function Table(color: seq<Rgb>, n: nat): seq<Rgb>
    requires n <= |color|
  {
    seq(n, i requires 0 <= i < n => if i == 0 then Rgb(0, 0, 0) else color[i])
  }

  function TableBytes(table: seq<Rgb>): (bytes: seq<byte>)
    ensures |bytes| == 3 * |table|
  {
    if table == [] then [] else
      var n := |table| - 1;
      TableBytes(table[..n]) + [table[n].r, table[n].g, table[n].b]
  }

  lemma {:induction false} TableBytesAt(table: seq<Rgb>, i: nat)
    requires i < |table|
    ensures Entry(TableBytes(table), i) == table[i]
  {
    var n := |table| - 1;
    if i < n {
      TableBytesAt(table[..n], i);
    }
  }

  lemma TableReadBack(table: seq<Rgb>, rest: seq<byte>)
    ensures ReadTable(TableBytes(table) + rest, |table|) == table
  {
    forall i | 0 <= i < |table|
      ensures Entry(TableBytes(table) + rest, i) == table[i]
    {
      TableBytesAt(table, i);
    }
  }

  method GifWritePalette(pal: GifPalette, f: Sink)
    requires Depth(pal.bitDepth) && |pal.color| == 256
    modifies f
    ensures Pow2(pal.bitDepth) <= 256
    ensures f.data == old(f.data) + TableBytes(Table(pal.color, Pow2(pal.bitDepth)))
  {
    Pow2Small(pal.bitDepth);
    f.Write([0, 0, 0]);
    assert Table(pal.color, 1)[..0] == [];
    for ii := 1 to Pow2(pal.bitDepth)
      invariant f.data == old(f.data) + TableBytes(Table(pal.color, ii))
    {
      assert Table(pal.color, ii + 1)[..ii] == Table(pal.color, ii);
      Assoc(old(f.data), TableBytes(Table(pal.color, ii)), [pal.color[ii].r, pal.color[ii].g, pal.color[ii].b]);
      f.Write([pal.color[ii].r, pal.color[ii].g, pal.color[ii].b]);
    }
  }

  // ----- What the viewer makes of the bytes.

  /** The indices after the minimum code size are the ones that were encoded. */
  lemma IndicesReadBack(depth: nat, pixels: seq<byte>, blocks: seq<seq<byte>>, pad: seq<bool>, rest: seq<byte>)
    requires Depth(depth) && Indices(depth, pixels) && pixels != [] && Sized(blocks)
    requires BytesBits(Flatten(blocks)) == ImageBits(depth, pixels) + pad
    ensures ReadIndices([depth as byte] + (Blocks(blocks) + ([0] + rest)), |pixels|) == Some((pixels, rest))
  {
    var data := [depth as byte] + (Blocks(blocks) + ([0] + rest));
    assert data[1..] == Blocks(blocks) + ([0] + rest);
    DeblockBlocks(blocks, rest);
    ImageDecodes(depth, pixels, pad);
  }

  lemma ImageReadBack(left: nat, top: nat, width: nat, height: nat, depth: nat, table: seq<Rgb>,
                      indices: seq<byte>, coded: seq<byte>, rest: seq<byte>, control: Control, global: seq<Rgb>)
    requires left < 65536 && top < 65536 && width < 65536 && height < 65536
    requires Depth(depth) && |table| == Pow2(depth)
    requires ReadIndices(coded, Area(width, height)) == Some((indices, rest))
    ensures ReadImage(Descriptor(left, top, width, height, depth) + (TableBytes(table) + coded), control, global)
         == Some((Frame(left, top, width, height, control, table, indices), rest))
  {
    var data := Descriptor(left, top, width, height, depth) + (TableBytes(table) + coded);
    DescriptorReadBack(left, top, width, height, depth, TableBytes(table) + coded);
    assert data[10..] == TableBytes(table) + coded;
    assert AfterTable(data) == coded;
    TableReadBack(table, coded);
  }

  lemma DescriptorReadBack(left: nat, top: nat, width: nat, height: nat, depth: nat, rest: seq<byte>)
    requires left < 65536 && top < 65536 && width < 65536 && height < 65536 && Depth(depth)
    ensures var data := Descriptor(left, top, width, height, depth) + rest;
      && U16(data[1], data[2]) == left && U16(data[3], data[4]) == top
      && U16(data[5], data[6]) == width && U16(data[7], data[8]) == height
      && HasTable(data[9]) && !Interlaced(data[9]) && Entries(data[9]) == Pow2(depth)
  {
    var data := Descriptor(left, top, width, height, depth) + rest;
    U16ReadBack(left, data[1], data[2]);
    U16ReadBack(top, data[3], data[4]);
    U16ReadBack(width, data[5], data[6]);
    U16ReadBack(height, data[7], data[8]);
    PackedReadBack(depth);
  }

  lemma U16ReadBack(n: nat, lo: byte, hi: byte)
    requires n < 65536 && lo == Lo(n) && hi == Hi(n)
    ensures U16(lo, hi) == n
  {
  }

  /** A viewer that meets the bytes of a frame sees that frame, and goes on behind it. */
  ghost predicate Shows(chunk: seq<byte>, frame: Frame) {
    forall rest, global {:trigger ReadBlocks(rest, NO_CONTROL, global)} ::
      ReadBlocks(chunk + rest, NO_CONTROL, global) == Then([frame], ReadBlocks(rest, NO_CONTROL, global))
  }

  function ControlFor(delay: nat): Control {
    Control(1, Some(TRANS_INDEX), delay % 65536)
  }

  lemma ControlReadBack(delay: nat, rest: seq<byte>, global: seq<Rgb>)
    ensures ReadBlocks(GraphicControl(delay) + rest, NO_CONTROL, global) == ReadBlocks(rest, ControlFor(delay), global)
  {
    var data := GraphicControl(delay) + rest;
    assert data[8..] == rest;
    U16LoHi(delay);
    assert ControlOf(5, Lo(delay), Hi(delay), TRANS_INDEX) == ControlFor(delay);
  }

  /** The bytes of a frame, followed by rest. */
  function FrameBytes(delay: nat, left: nat, top: nat, width: nat, height: nat, depth: nat, table: seq<Rgb>,
                      blocks: seq<seq<byte>>, rest: seq<byte>): seq<byte>
    requires Depth(depth) && Sized(blocks)
  {
    GraphicControl(delay) + (Descriptor(left, top, width, height, depth)
      + (TableBytes(table) + ([depth as byte] + (Blocks(blocks) + ([0] + rest)))))
  }

  lemma FrameBytesThen(delay: nat, left: nat, top: nat, width: nat, height: nat, depth: nat, table: seq<Rgb>,
                       blocks: seq<seq<byte>>, rest: seq<byte>)
    requires Depth(depth) && Sized(blocks)
    ensures FrameBytes(delay, left, top, width, height, depth, table, blocks, []) + rest
         == FrameBytes(delay, left, top, width, height, depth, table, blocks, rest)
  {
    Nest(GraphicControl(delay), Descriptor(left, top, width, height, depth), TableBytes(table),
         [depth as byte], Blocks(blocks), [0], rest);
  }

  lemma Nest<T>(a: seq<T>, b: seq<T>, c: seq<T>, d: seq<T>, e: seq<T>, z: seq<T>, rest: seq<T>)
    ensures a + (b + (c + (d + (e + (z + []))))) + rest == a + (b + (c + (d + (e + (z + rest)))))
  {
    assert z + [] == z;
    Assoc(e, z, rest);
    Assoc(d, e + z, rest);
    Assoc(c, d + (e + z), rest);
    Assoc(b, c + (d + (e + z)), rest);
    Assoc(a, b + (c + (d + (e + z))), rest);
  }

  lemma NestAfter<T>(p: seq<T>, a: seq<T>, b: seq<T>, c: seq<T>, d: seq<T>, e: seq<T>, z: seq<T>)
    ensures p + a + b + c + d + e + z == p + (a + (b + (c + (d + (e + (z + []))))))
  {
    assert z + [] == z;
    Assoc(p + a + b + c + d, e, z);
    Assoc(p + a + b + c, d, e + z);
    Assoc(p + a + b, c, d + (e + z));
    Assoc(p + a, b, c + (d + (e + z)));
    Assoc(p, a, b + (c + (d + (e + z))));
  }

  lemma FrameReadBack(delay: nat, left: nat, top: nat, width: nat, height: nat, depth: nat, table: seq<Rgb>,
                      pixels: seq<byte>, blocks: seq<seq<byte>>, pad: seq<bool>)
    requires left < 65536 && top < 65536 && width < 65536 && height < 65536
    requires Depth(depth) && |table| == Pow2(depth) && Sized(blocks)
    requires Indices(depth, pixels) && pixels != [] && |pixels| == Area(width, height)
    requires BytesBits(Flatten(blocks)) == ImageBits(depth, pixels) + pad
    ensures Shows(FrameBytes(delay, left, top, width, height, depth, table, blocks, []),
                  Frame(left, top, width, height, ControlFor(delay), table, pixels))
  {
    var frame := Frame(left, top, width, height, ControlFor(delay), table, pixels);
    var chunk := FrameBytes(delay, left, top, width, height, depth, table, blocks, []);
    forall rest, global
      ensures ReadBlocks(chunk + rest, NO_CONTROL, global) == Then([frame], ReadBlocks(rest, NO_CONTROL, global))
    {
      FrameBytesThen(delay, left, top, width, height, depth, table, blocks, rest);
      var coded := [depth as byte] + (Blocks(blocks) + ([0] + rest));
      IndicesReadBack(depth, pixels, blocks, pad, rest);
      ImageReadBack(left, top, width, height, depth, table, pixels, coded, rest, ControlFor(delay), global);
      var image := Descriptor(left, top, width, height, depth) + (TableBytes(table) + coded);
      ControlReadBack(delay, image, global);
      ImageBlock(image, ControlFor(delay), global, frame, rest);
    }
  }

  lemma ImageBlock(data: seq<byte>, control: Control, global: seq<Rgb>, frame: Frame, rest: seq<byte>)
    requires data != [] && data[0] == 0x2c
    requires ReadImage(data, control, global) == Some((frame, rest))
    ensures ReadBlocks(data, control, global) == Then([frame], ReadBlocks(rest, NO_CONTROL, global))
  {
  }

  lemma SliceGrows<T>(s: seq<T>, from: nat, to: nat, next: nat)
    requires from <= to < |s| && next == to + 1
    ensures s[from..next] == s[from..to] + [s[to]]
  {
  }

  /** The pixels of one row of the image. */
  method WriteRow(encoder: GifLzwEncoder, image: array<Pixel>, ghost pixels: seq<byte>, row: nat, next: nat)
    requires encoder.Encoded()
    requires pixels == Alphas(image[..]) && Indices(encoder.depth, pixels)
    requires row <= next <= |pixels| && encoder.done == pixels[..row]
    modifies encoder, encoder.codetree, encoder.stat, encoder.stat.chunk, encoder.f
    ensures encoder.Encoded() && encoder.done == pixels[..next]
    ensures encoder.stat.start == old(encoder.stat.start)
  {
    var ii := row;
    while ii < next
      invariant row <= ii <= next
      invariant encoder.Encoded() && encoder.done == pixels[..ii]
      invariant encoder.stat.start == old(encoder.stat.start)
    {
      var jj := ii + 1;
      SliceGrows(pixels, 0, ii, jj);
      encoder.PushNext(image[ii].a);
      ii := jj;
    }
  }

  lemma NextRowInside(width: nat, y: nat, below: nat, height: nat)
    requires below == y + 1 <= height
    ensures Area(width, y) + width == Area(width, below) <= Area(width, height)
  {
    RowsInside(width, below, height);
  }

  lemma AllRows(pixels: seq<byte>, width: nat, y: nat, height: nat)
    requires y == height && |pixels| == Area(width, height)
    ensures pixels[..Area(width, y)] == pixels
  {
  }

  method WriteRows(encoder: GifLzwEncoder, image: array<Pixel>, ghost pixels: seq<byte>, width: nat, height: nat)
    requires encoder.Encoded() && encoder.done == []
    requires pixels == Alphas(image[..]) && Indices(encoder.depth, pixels) && |pixels| == Area(width, height)
    modifies encoder, encoder.codetree, encoder.stat, encoder.stat.chunk, encoder.f
    ensures encoder.Encoded() && encoder.done == pixels
    ensures encoder.stat.start == old(encoder.stat.start)
  {
    var yy, row := 0, 0;
    while yy < height
      invariant encoder.stat.start == old(encoder.stat.start)
      invariant yy <= height && row == Area(width, yy) <= |pixels|
      invariant encoder.Encoded() && encoder.done == pixels[..row]
    {
      var (next, below) := (row + width, yy + 1);
      NextRowInside(width, yy, below, height);
      WriteRow(encoder, image, pixels, row, next);
      yy, row := below, next;
    }
    AllRows(pixels, width, yy, height);
  }

  /** The compressed indices of an image, as sub-blocks. */
  method WriteIndices(f: Sink, image: array<Pixel>, width: nat, height: nat, depth: nat)
    returns (ghost blocks: seq<seq<byte>>, ghost pad: seq<bool>)
    requires Depth(depth) && image.Length == Area(width, height) > 0
    requires Indices(depth, Alphas(image[..]))
    modifies f
    ensures Sized(blocks) && f.data == old(f.data) + Blocks(blocks)
    ensures BytesBits(Flatten(blocks)) == ImageBits(depth, Alphas(image[..])) + pad
    ensures |pad| < 8 && forall i :: 0 <= i < |pad| ==> !pad[i]
  {
    ghost var pixels := Alphas(image[..]);
    RunSynced(depth, pixels);
    var encoder := new GifLzwEncoder(f, depth);
    WriteRows(encoder, image, pixels, width, height);
    pad := encoder.Finish();
    blocks := encoder.stat.blocks;
  }

  method GifWriteLzwImage(f: Sink, image: array<Pixel>, left: nat, top: nat, width: nat, height: nat, delay: nat,
                          pal: GifPalette)
    returns (ghost chunk: seq<byte>)
    requires Depth(pal.bitDepth) && |pal.color| == 256
    requires left < 65536 && top < 65536 && width < 65536 && height < 65536
    requires image.Length == Area(width, height) > 0 && Indices(pal.bitDepth, Alphas(image[..]))
    modifies f
    ensures Pow2(pal.bitDepth) <= 256
    ensures f.data == old(f.data) + chunk
    ensures Shows(chunk, Frame(left, top, width, height, ControlFor(delay),
                               Table(pal.color, Pow2(pal.bitDepth)), Alphas(image[..])))
  {
    ghost var start := f.data;
    f.Write(GraphicControl(delay));
    f.Write(Descriptor(left, top, width, height, pal.bitDepth));
    GifWritePalette(pal, f);
    f.Put(pal.bitDepth as byte);
    ghost var blocks, pad;
    blocks, pad := WriteIndices(f, image, width, height, pal.bitDepth);
    f.Put(0);
    ghost var table := Table(pal.color, Pow2(pal.bitDepth));
    NestAfter(start, GraphicControl(delay), Descriptor(left, top, width, height, pal.bitDepth),
              TableBytes(table), [pal.bitDepth as byte], Blocks(blocks), [0]);
    chunk := FrameBytes(delay, left, top, width, height, pal.bitDepth, table, blocks, []);
    FrameReadBack(delay, left, top, width, height, pal.bitDepth, table, Alphas(image[..]), blocks, pad);
  }
}
