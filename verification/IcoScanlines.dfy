/** Writing the rows of a new image into its bitmap, in any order. */
module IcoScanlines {
  import opened Bytes
  import opened IcoFormat
  import opened IcoReadBack
  import opened IcoAppend
  import opened IcoWriter

  // ----- Overwriting.

  lemma OverNext(s: seq<byte>, at: nat, a: seq<byte>, b: seq<byte>)
    requires at + |a| + |b| <= |s|
    ensures Over(Over(s, at, a), at + |a|, b) == Over(s, at, a + b)
  {
  }

  /** What would be overwritten by itself may be left alone. */
  lemma OverSame(s: seq<byte>, at: nat, a: seq<byte>, b: seq<byte>)
    requires at + |a| + |b| <= |s| && s[at + |a|..at + |a| + |b|] == b
    ensures Over(s, at, a + b) == Over(s, at, a)
  {
    assert s[at + |a|..] == b + s[at + |a| + |b|..];
    Assoc(s[..at], a, b);
    Assoc(s[..at] + a, b, s[at + |a| + |b|..]);
  }

  lemma OverNothing(s: seq<byte>, at: nat)
    requires at <= |s|
    ensures Over(s, at, []) == s
  {
  }

  /** Overwriting a part overwrites the whole. */
  lemma OverInside(pre: seq<byte>, s: seq<byte>, post: seq<byte>, at: nat, piece: seq<byte>)
    requires at + |piece| <= |s|
    ensures Over(pre + s + post, |pre| + at, piece) == pre + Over(s, at, piece) + post
  {
  }

  // ----- The colors of a row.

  /** What is behind the pixels of a row is zero, whether it has been written or not. */
  lemma XorTail(row: Option<seq<Pixel>>, s: Shape)
    requires Storable(s) && (row.Some? ==> IsRow(row.value, s.width, s.channels))
    ensures var n := PixelBytes(HasAlpha(s.channels), s.width); XorRow(row, s)[n..] == Zeros(XorBytes(s) - n)
  {
  }

  /** The end of row k, from byte n of it on. */
  lemma TailAt(part: seq<byte>, width: nat, k: nat, row: seq<byte>, from: nat, n: nat, to: nat)
    requires Area(width, k) + width <= |part| && Slice(part, width, k) == row && n <= width
    requires from == Area(width, k) + n && to == Area(width, k) + width
    ensures part[from..to] == row[n..]
  {
    PartOfPart(part, Area(width, k), Area(width, k) + width, n, width);
  }

  /** Writing the first bytes of a row is enough if the others are what they should be. */
  lemma RowReplaced(stack: seq<seq<byte>>, width: nat, n: nat, k: nat, data: seq<byte>, pad: seq<byte>)
    requires k < n <= |stack| && AllWide(stack, width) && |data| + |pad| == width && stack[k][|data|..] == pad
    ensures Area(width, k) + |data| <= |Stack(stack, n)|
    ensures Over(Stack(stack, n), Area(width, k), data) == Stack(stack[k := data + pad], n)
  {
    StackReplaced(stack, width, n, k, data + pad);
    StackAt(stack, width, n, k);
    var at := Area(width, k);
    TailAt(Stack(stack, n), width, k, stack[k], at + |data|, |data|, at + |data| + |pad|);
    OverSame(Stack(stack, n), at, data, pad);
  }

  /** Writing the pixels of a row replaces it. */
  lemma XorReplaced(rows: Rows, s: Shape, y: nat, k: nat, row: seq<Pixel>)
    requires Storable(s) && Fits(rows, s) && y < s.height && k == s.height - 1 - y
    requires IsRow(row, s.width, s.channels)
    ensures Fits(rows[y := Some(row)], s)
    ensures Area(XorBytes(s), k) + PixelBytes(HasAlpha(s.channels), s.width) <= |XorPart(rows, s)|
    ensures Over(XorPart(rows, s), Area(XorBytes(s), k), Pixels(row, s.channels, s.width))
         == XorPart(rows[y := Some(row)], s)
  {
    var data := Pixels(row, s.channels, s.width);
    XorTail(rows[y], s);
    assert XorRows(rows, s)[k := XorRow(Some(row), s)] == XorRows(rows[y := Some(row)], s);
    XorRowsWide(rows, s);
    RowReplaced(XorRows(rows, s), XorBytes(s), s.height, k, data, Zeros(XorBytes(s) - |data|));
  }

  // ----- The mask of a row.

  lemma AndTail(row: Option<seq<Pixel>>, s: Shape)
    requires Storable(s) && (row.Some? ==> IsRow(row.value, s.width, s.channels))
    ensures AndRow(row, s)[Octets(s.width)..] == Zeros(AndBytes(s) - Octets(s.width))
  {
  }

  lemma AndReplaced(rows: Rows, s: Shape, y: nat, k: nat, row: seq<Pixel>)
    requires Storable(s) && Fits(rows, s) && y < s.height && k == s.height - 1 - y
    requires IsRow(row, s.width, s.channels) && HasAlpha(s.channels)
    ensures Fits(rows[y := Some(row)], s)
    ensures Area(AndBytes(s), k) + Octets(s.width) <= |AndPart(rows, s)|
    ensures Over(AndPart(rows, s), Area(AndBytes(s), k), MaskBytes(row, s.channels, Octets(s.width)))
         == AndPart(rows[y := Some(row)], s)
  {
    var data := MaskBytes(row, s.channels, Octets(s.width));
    AndTail(rows[y], s);
    assert AndRows(rows, s)[k := AndRow(Some(row), s)] == AndRows(rows[y := Some(row)], s);
    AndRowsWide(rows, s);
    RowReplaced(AndRows(rows, s), AndBytes(s), s.height, k, data, Zeros(AndBytes(s) - |data|));
  }

  /** Without alpha nothing is masked, so the mask need not be written. */
  lemma AndUnchanged(rows: Rows, s: Shape, y: nat, row: seq<Pixel>)
    requires Storable(s) && Fits(rows, s) && y < s.height && IsRow(row, s.width, s.channels) && !HasAlpha(s.channels)
    ensures Fits(rows[y := Some(row)], s) && AndPart(rows[y := Some(row)], s) == AndPart(rows, s)
  {
    assert AndRows(rows[y := Some(row)], s) == AndRows(rows, s);
  }

  // ----- The writer.

  /** A file with one entry and no bitmap yet. */
  function Start(s: Shape): (base: seq<byte>)
    requires Storable(s)
    ensures |base| == HEADER_SIZE + ENTRY_SIZE
  {
    [0, 0, 1, 0, 1, 0] + Entry(s, INFO_SIZE + MaskedBytes(s), HEADER_SIZE + ENTRY_SIZE)
  }

  method FirstEntry(file: File, s: Shape)
    requires file.data == [] && file.pos == 0 && Storable(s)
    modifies file
    ensures file.data == Start(s) && file.pos == |file.data|
  {
    assert Header(1) == [0, 0, 1, 0, 1, 0] == [] + Header(1);
    file.Write(Header(1));
    file.Write(Entry(s, INFO_SIZE + MaskedBytes(s), HEADER_SIZE + ENTRY_SIZE));
    file.Seek(HEADER_SIZE + ENTRY_SIZE);
  }

  class IcoOutput {
    const file: File
    const shape: Shape
    var offset: nat

    /** The file up to the bitmap, the images in it, and the rows written so far. */
    ghost var base: seq<byte>
    ghost var images: seq<Image>
    ghost var rows: Rows

    ghost predicate Valid()
      reads this, file
    {
      && Based(base, images, shape) && Fits(rows, shape) && offset == |base|
      && file.data == base + Dib(rows, shape)
    }

    /** A new file with one image. */
    constructor Create(file: File, shape: Shape)
      requires file.data == [] && file.pos == 0 && Storable(shape)
      requires HEADER_SIZE + ENTRY_SIZE + INFO_SIZE + MaskedBytes(shape) <= MAX_FILE
      modifies file
      ensures Valid() && this.file == file && this.shape == shape && images == [] && rows == NoRows(shape)
    {
      this.file, this.shape := file, shape;
      offset := HEADER_SIZE + ENTRY_SIZE;
      images, rows := [], NoRows(shape);
      base := Start(shape);
      new;
      CreatedBased(shape);
      FirstEntry(file, shape);
      WriteEmpty(file, shape);
    }

    /** One more image in a file that contains some. What the spare bytes are does not matter. */
    constructor Append(file: File, shape: Shape, spare: seq<byte>, ghost images: seq<Image>)
      requires Contains(file.data, images) && Count(file.data) < 32767 && Storable(shape) && |spare| == ENTRY_SIZE
      requires |file.data| + ENTRY_SIZE + INFO_SIZE + MaskedBytes(shape) <= MAX_FILE
      modifies file
      ensures Valid() && this.file == file && this.shape == shape && this.images == images && rows == NoRows(shape)
      ensures Grown(old(file.data), base)
    {
      this.file, this.shape := file, shape;
      this.images, rows := images, NoRows(shape);
      new;
      ghost var was := file.data;
      AddEntry(file, shape, spare);
      offset := |file.data|;
      base := file.data;
      GrownBased(was, base, images, shape);
      file.Seek(offset);
      WriteEmpty(file, shape);
    }

    /** The colors of a row, one pixel at a time. */
    method WriteColors(at: nat, row: seq<Pixel>)
      requires IsRow(row, shape.width, shape.channels) && 1 <= shape.channels <= 4
      requires at + PixelBytes(HasAlpha(shape.channels), shape.width) <= |file.data|
      modifies file
      ensures file.data == Over(old(file.data), at, Pixels(row, shape.channels, shape.width))
    {
      ghost var was := file.data;
      file.Seek(at);
      OverNothing(was, at);
      var x := 0;
      ghost var done := [];
      while x < shape.width
        invariant 0 <= x <= shape.width && done == Pixels(row, shape.channels, x)
        invariant file.pos == at + |done| && file.data == Over(was, at, done)
      {
        var next := x + 1;
        var p := Bgr(row[x], shape.channels);
        PixelsNext(row, shape.channels, x, next);
        WrittenNext(was, at, done, p);
        file.Write(p);
        done := done + p;
        x := next;
      }
    }

    /** The mask of a row, eight pixels at a time. */
    method WriteMask(at: nat, row: seq<Pixel>)
      requires IsRow(row, shape.width, shape.channels) && at + Octets(shape.width) <= |file.data|
      modifies file
      ensures file.data == Over(old(file.data), at, MaskBytes(row, shape.channels, Octets(shape.width)))
    {
      ghost var was := file.data;
      file.Seek(at);
      OverNothing(was, at);
      var j := 0;
      ghost var done := [];
      while j < Octets(shape.width)
        invariant 0 <= j <= Octets(shape.width) && done == MaskBytes(row, shape.channels, j)
        invariant file.pos == at + |done| && file.data == Over(was, at, done)
      {
        var next := j + 1;
        var b := BuildMask(row, 8 * j);
        OctetsNext(row, shape.channels, j, next);
        WrittenNext(was, at, done, [b]);
        file.Write([b]);
        done := done + [b];
        j := next;
      }
    }

    /** Eight bits of the mask, the first one in the highest place. */
    method BuildMask(row: seq<Pixel>, x: nat) returns (m: byte)
      requires IsRow(row, shape.width, shape.channels)
      ensures m == MaskByte(row, shape.channels, x)
    {
      var (n, b) := (0, 0);
      Pow2Table();
      while b < 8 && x + b < shape.width
        invariant 0 <= b <= 8 && n + MaskBits(row, shape.channels, x, b) == MaskBits(row, shape.channels, x, 0)
      {
        n := n + if Masked(row[x + b], shape.channels) then Pow2(7 - b) else 0;
        b := b + 1;
      }
      m := n as byte;
    }

    /** The colors of a row, k rows above the lowest. */
    method WriteXor(k: nat, row: seq<Pixel>, ghost xor: seq<byte>, ghost after: seq<byte>, ghost mask: seq<byte>)
      requires Storable(shape) && offset == |base| && IsRow(row, shape.width, shape.channels)
      requires Area(XorBytes(shape), k) + PixelBytes(HasAlpha(shape.channels), shape.width) <= |xor|
      requires Over(xor, Area(XorBytes(shape), k), Pixels(row, shape.channels, shape.width)) == after
      requires file.data == base + (Info(shape) + xor + mask)
      modifies file
      ensures file.data == base + (Info(shape) + after + mask)
    {
      WriteXorAt(Area(XorBytes(shape), k), row, xor, after, mask);
    }

    method WriteXorAt(at: nat, row: seq<Pixel>, ghost xor: seq<byte>, ghost after: seq<byte>, ghost mask: seq<byte>)
      requires Storable(shape) && offset == |base| && IsRow(row, shape.width, shape.channels)
      requires at + PixelBytes(HasAlpha(shape.channels), shape.width) <= |xor|
      requires Over(xor, at, Pixels(row, shape.channels, shape.width)) == after
      requires file.data == base + (Info(shape) + xor + mask)
      modifies file
      ensures file.data == base + (Info(shape) + after + mask)
    {
      ColorsInside(base, Info(shape), xor, mask, at, Pixels(row, shape.channels, shape.width), after);
      WriteColors(offset + INFO_SIZE + at, row);
    }

    /** The mask of row y. */
    method WriteMaskAt(y: nat, k: nat, row: seq<Pixel>, ghost after: Rows, ghost xor: seq<byte>)
      requires Storable(shape) && Fits(rows, shape) && offset == |base| && HasAlpha(shape.channels)
      requires y < shape.height && k == shape.height - 1 - y && IsRow(row, shape.width, shape.channels)
      requires after == rows[y := Some(row)] && Fits(after, shape) && |xor| == Area(XorBytes(shape), shape.height)
      requires file.data == base + (Info(shape) + xor + AndPart(rows, shape))
      modifies file
      ensures file.data == base + (Info(shape) + xor + AndPart(after, shape))
    {
      AndReplaced(rows, shape, y, k, row);
      WriteMaskOver(Area(AndBytes(shape), k), row, xor, AndPart(rows, shape), AndPart(after, shape));
    }

    method WriteMaskOver(at: nat, row: seq<Pixel>, ghost xor: seq<byte>, ghost mask: seq<byte>, ghost after: seq<byte>)
      requires Storable(shape) && offset == |base| && HasAlpha(shape.channels)
      requires IsRow(row, shape.width, shape.channels) && |xor| == Area(XorBytes(shape), shape.height)
      requires at + Octets(shape.width) <= |mask|
      requires Over(mask, at, MaskBytes(row, shape.channels, Octets(shape.width))) == after
      requires file.data == base + (Info(shape) + xor + mask)
      modifies file
      ensures file.data == base + (Info(shape) + xor + after)
    {
      MaskInside(base, Info(shape), xor, mask, at, MaskBytes(row, shape.channels, Octets(shape.width)), after);
      WriteMask(offset + INFO_SIZE + Area(XorBytes(shape), shape.height) + at, row);
    }

    /** The mask of row y, if there is one. */
    method WriteAnd(y: nat, k: nat, row: seq<Pixel>, ghost after: Rows, ghost xor: seq<byte>)
      requires Storable(shape) && Fits(rows, shape) && offset == |base|
      requires y < shape.height && k == shape.height - 1 - y && IsRow(row, shape.width, shape.channels)
      requires after == rows[y := Some(row)] && Fits(after, shape) && |xor| == Area(XorBytes(shape), shape.height)
      requires file.data == base + (Info(shape) + xor + AndPart(rows, shape))
      modifies file
      ensures file.data == base + (Info(shape) + xor + AndPart(after, shape))
    {
      if HasAlpha(shape.channels) {
        WriteMaskAt(y, k, row, after, xor);
      } else {
        AndUnchanged(rows, shape, y, row);
      }
    }

    /** Row y of the image, whenever it comes. */
    method WriteScanline(y: nat, row: seq<Pixel>)
      requires Valid() && y < shape.height && IsRow(row, shape.width, shape.channels)
      modifies this`rows, file
      ensures Valid() && rows == old(rows)[y := Some(row)] && offset == old(offset)
    {
      var k := shape.height - 1 - y;
      ghost var after := rows[y := Some(row)];
      XorReplaced(rows, shape, y, k, row);
      WriteXor(k, row, XorPart(rows, shape), XorPart(after, shape), AndPart(rows, shape));
      WriteAnd(y, k, row, after, XorPart(after, shape));
      rows := after;
    }

    /** The file contains the earlier images, unharmed, and this one. */
    lemma Result()
      requires Valid()
      ensures Contains(file.data, images + [Image(shape, rows)])
    {
      BasedContains(base, images, Image(shape, rows));
    }

    /**
     * Whatever has been written so far, the file is still the one that the image was appended to, grown: everything
     * that could be found in that file is found in this one.
     */
    lemma StillGrown(was: seq<byte>)
      requires Valid() && Icon(was) && Grown(was, base)
      ensures Grown(was, file.data)
    {
      GrownMore(was, base, Dib(rows, shape));
    }
  }

  lemma WrittenNext(was: seq<byte>, at: nat, done: seq<byte>, piece: seq<byte>)
    requires at + |done| + |piece| <= |was|
    ensures Written(Over(was, at, done), at + |done|, piece) == Over(was, at, done + piece)
  {
    OverNext(was, at, done, piece);
  }

  lemma PixelsNext(row: seq<Pixel>, channels: nat, x: nat, next: nat)
    requires IsRow(row, |row|, channels) && 1 <= channels <= 4 && x < |row| && next == x + 1
    ensures Pixels(row, channels, next) == Pixels(row, channels, x) + Bgr(row[x], channels)
  {
  }

  lemma OctetsNext(row: seq<Pixel>, channels: nat, j: nat, next: nat)
    requires IsRow(row, |row|, channels) && next == j + 1
    ensures MaskBytes(row, channels, next) == MaskBytes(row, channels, j) + [MaskByte(row, channels, 8 * j)]
  {
  }

  lemma ColorsInside(base: seq<byte>, info: seq<byte>, xor: seq<byte>, mask: seq<byte>, at: nat, piece: seq<byte>,
                     xor': seq<byte>)
    requires at + |piece| <= |xor| && Over(xor, at, piece) == xor'
    ensures Over(base + (info + xor + mask), |base| + |info| + at, piece) == base + (info + xor' + mask)
  {
    Assoc(base, info + xor, mask);
    Assoc(base, info, xor);
    OverInside(base + info, xor, mask, at, piece);
    Assoc(base, info, xor');
    Assoc(base, info + xor', mask);
  }

  lemma MaskInside(base: seq<byte>, info: seq<byte>, xor: seq<byte>, mask: seq<byte>, at: nat, piece: seq<byte>,
                   mask': seq<byte>)
    requires at + |piece| <= |mask| && Over(mask, at, piece) == mask'
    ensures Over(base + (info + xor + mask), |base| + |info| + |xor| + at, piece) == base + (info + xor + mask')
  {
    Assoc(base, info + xor, mask);
    OverInside(base + (info + xor), mask, [], at, piece);
    assert base + (info + xor) + mask + [] == base + (info + xor) + mask;
    assert base + (info + xor) + mask' + [] == base + (info + xor) + mask';
    Assoc(base, info + xor, mask');
  }
}
