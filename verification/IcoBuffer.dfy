/** Decoding a bitmap without a palette into a buffer, as far as the bytes of the file go. */
module IcoBuffer {
  import opened Bytes
  import opened IcoFormat
  import opened IcoReadBack

  // ----- One row.

  /** The colors of a row; without an alpha channel the last byte comes later. */
  method ReadColors(scanline: seq<byte>, alpha: bool, width: nat) returns (row: seq<Rgba>)
    requires PixelBytes(alpha, width) <= |scanline|
    ensures |row| == width && forall x :: 0 <= x < width ==> row[x] == ColorAt(scanline, alpha, x)
  {
    row := [];
    var x := 0;
    while x < width
      invariant 0 <= x <= width && |row| == x
      invariant forall k :: 0 <= k < x ==> row[k] == ColorAt(scanline, alpha, k)
    {
      row := row + [ColorAt(scanline, alpha, x)];
      x := x + 1;
    }
  }

  lemma PlaceInOctet(j: nat, b: nat)
    requires b < 8
    ensures (8 * j + 7 - b) / 8 == j && 7 - (8 * j + 7 - b) % 8 == b
  {
  }

  lemma OctetOf(x: nat, j: nat)
    requires 8 * j <= x < 8 * j + 8
    ensures x / 8 == j
  {
  }

  /** The masks of up to eight pixels, the last one first. */
  method MaskOctet(row: seq<Rgba>, scanline: seq<byte>, j: nat) returns (res: seq<Rgba>)
    requires j < |scanline|
    ensures |res| == |row|
    ensures forall x :: 0 <= x < |row| ==>
      res[x] == if 8 * j <= x < 8 * j + 8 then row[x].(a := MaskedIn(scanline[j], 8 * j, x)) else row[x]
  {
    res := row;
    var b := 0;
    while b < 8
      invariant 0 <= b <= 8 && |res| == |row|
      invariant forall x :: 0 <= x < |row| ==>
        res[x] == if 8 * j + 8 - b <= x < 8 * j + 8 then row[x].(a := MaskedIn(scanline[j], 8 * j, x)) else row[x]
    {
      var x := 8 * j + 7 - b;
      if x < |row| {
        res := res[x := res[x].(a := if Bit(scanline[j], b) then 0 else 255)];
      }
      b := b + 1;
    }
  }

  /** The mask of pixel x, from the byte for the pixels from first on. */
  function MaskedIn(octet: byte, first: nat, x: nat): byte
    requires first <= x < first + 8
  {
    if Bit(octet, first + 7 - x) then 0 else 255
  }

  lemma MaskedAtIs(scanline: seq<byte>, j: nat, x: nat)
    requires 8 * j <= x < 8 * j + 8 && j < |scanline|
    ensures x / 8 == j && MaskedAt(scanline, x) == MaskedIn(scanline[j], 8 * j, x)
  {
    OctetOf(x, j);
    PlaceInOctet(j, 8 * j + 7 - x);
  }

  /** A row with the alpha that its mask gives it. */
  function Masked(row: seq<Rgba>, scanline: seq<byte>): (res: seq<Rgba>)
    requires Octets(|row|) <= |scanline|
    ensures |res| == |row|
    ensures forall x :: 0 <= x < |row| ==> x / 8 < |scanline| && res[x] == row[x].(a := MaskedAt(scanline, x))
  {
    OctetsAre(|row|);
    seq(|row|, x requires 0 <= x < |row| => row[x].(a := MaskedAt(scanline, x)))
  }

  /** The masks of a row, eight at a time. */
  method ReadMask(row: seq<Rgba>, scanline: seq<byte>) returns (res: seq<Rgba>)
    requires Octets(|row|) <= |scanline|
    ensures res == Masked(row, scanline)
  {
    res := row;
    var j := 0;
    OctetsAre(|row|);
    while 8 * j < |row|
      invariant 0 <= j && |res| == |row|
      invariant forall x :: 0 <= x < |row| && x < 8 * j ==> x / 8 < |scanline| && res[x] == row[x].(a := MaskedAt(scanline, x))
      invariant forall x :: 0 <= x < |row| && x >= 8 * j ==> res[x] == row[x]
    {
      ghost var before := res;
      res := MaskOctet(res, scanline, j);
      forall x | 8 * j <= x < 8 * j + 8 && x < |row|
        ensures x / 8 < |scanline| && res[x] == row[x].(a := MaskedAt(scanline, x))
      {
        MaskedAtIs(scanline, j, x);
      }
      j := j + 1;
    }
  }

  // ----- The buffer, if there are too few bytes.

  /** A row of the buffer that nothing has been read into. */
  function NoColors(width: nat): (row: seq<Rgba>)
    ensures |row| == width
  {
    seq(width, _ => Rgba(0, 0, 0, 0))
  }

  function Colors(scanline: seq<byte>, alpha: bool, width: nat): (row: seq<Rgba>)
    requires PixelBytes(alpha, width) <= |scanline|
    ensures |row| == width && forall x :: 0 <= x < width ==> row[x] == ColorAt(scanline, alpha, x)
  {
    seq(width, x requires 0 <= x < width => ColorAt(scanline, alpha, x))
  }

  /** Row k of the file is there. */
  predicate HasColors(data: seq<byte>, width: nat, alpha: bool, k: nat) {
    Area(XorWidth(width, alpha), k) + XorWidth(width, alpha) <= |data|
  }

  /** The mask of row k is there; the masks are behind all colors. */
  predicate HasMask(data: seq<byte>, width: nat, height: nat, alpha: bool, k: nat) {
    var start := Area(XorWidth(width, alpha), height);
    start <= |data| && Area(AndWidth(width), k) + AndWidth(width) <= |data| - start
  }

  /** The colors of row k of the file, as far as they have been read. */
  function ColorsOf(data: seq<byte>, width: nat, alpha: bool, k: nat): (row: seq<Rgba>)
    ensures |row| == width
  {
    if HasColors(data, width, alpha, k) then Colors(Slice(data, XorWidth(width, alpha), k), alpha, width)
    else NoColors(width)
  }

  /** Row k of the file as it is in the buffer after reading, whether that succeeded or not. */
  function BufferRow(data: seq<byte>, width: nat, height: nat, alpha: bool, k: nat): (row: seq<Rgba>)
    ensures |row| == width
  {
    var colors := ColorsOf(data, width, alpha, k);
    if !alpha && HasMask(data, width, height, alpha, k) then
      Masked(colors, Slice(data[Area(XorWidth(width, alpha), height)..], AndWidth(width), k))
    else colors
  }

  function Buffer(data: seq<byte>, width: nat, height: nat, alpha: bool): (rows: seq<seq<Rgba>>)
    ensures |rows| == height
  {
    seq(height, y requires 0 <= y < height => BufferRow(data, width, height, alpha, height - 1 - y))
  }

  lemma BufferAt(data: seq<byte>, width: nat, height: nat, alpha: bool, y: nat, k: nat)
    requires y < height && k == height - 1 - y
    ensures Buffer(data, width, height, alpha)[y] == BufferRow(data, width, height, alpha, k)
  {
  }

  lemma RowIs(data: seq<byte>, width: nat, height: nat, alpha: bool, k: nat)
    requires Needed(width, height, alpha) <= |data| && k < height
    ensures BufferRow(data, width, height, alpha, k) == ReadRowAt(data, width, height, alpha, k)
  {
    RowFits(XorWidth(width, alpha), k, height);
    RowFits(AndWidth(width), k, height);
    OctetsAre(width);
  }

  /** With enough bytes the buffer holds the image. */
  lemma BufferIsImage(data: seq<byte>, width: nat, height: nat, alpha: bool)
    requires Needed(width, height, alpha) <= |data|
    ensures Buffer(data, width, height, alpha) == ReadRows(data, width, height, alpha)
  {
    forall y | 0 <= y < height
      ensures Buffer(data, width, height, alpha)[y] == ReadRows(data, width, height, alpha)[y]
    {
      RowOfBuffer(data, width, height, alpha, y, height - 1 - y);
    }
  }

  lemma RowOfBuffer(data: seq<byte>, width: nat, height: nat, alpha: bool, y: nat, k: nat)
    requires Needed(width, height, alpha) <= |data| && y < height && k == height - 1 - y
    ensures Buffer(data, width, height, alpha)[y] == ReadRows(data, width, height, alpha)[y]
  {
    BufferAt(data, width, height, alpha, y, k);
    RowIs(data, width, height, alpha, k);
  }

  // ----- Filling the buffer.

  lemma SliceFits(rowBytes: nat, k: nat, next: nat, height: nat)
    requires next == k + 1 && k < height
    ensures Area(rowBytes, next) == Area(rowBytes, k) + rowBytes <= Area(rowBytes, height)
  {
    RowFits(rowBytes, k, height);
  }

  /** A row that is missing means that those behind it are missing too. */
  lemma NoLaterColors(data: seq<byte>, width: nat, alpha: bool, k: nat, j: nat)
    requires k <= j && !HasColors(data, width, alpha, k)
    ensures !HasColors(data, width, alpha, j)
  {
    RowsInside(XorWidth(width, alpha), k, j);
  }

  lemma NoLaterMask(data: seq<byte>, width: nat, height: nat, alpha: bool, k: nat, j: nat)
    requires k <= j && !HasMask(data, width, height, alpha, k)
    ensures !HasMask(data, width, height, alpha, j)
  {
    RowsInside(AndWidth(width), k, j);
  }

  lemma NoMaskWithoutColors(data: seq<byte>, width: nat, height: nat, alpha: bool, k: nat, j: nat)
    requires k < height && !HasColors(data, width, alpha, k)
    ensures !HasMask(data, width, height, alpha, j)
  {
    RowFits(XorWidth(width, alpha), k, height);
  }

  /** The colors of row y of the buffer, which is stored upside down. */
  function ColorRow(data: seq<byte>, width: nat, height: nat, alpha: bool, y: nat): (row: seq<Rgba>)
    requires y < height
    ensures |row| == width
  {
    ColorsOf(data, width, alpha, height - 1 - y)
  }

  /** The rows of the buffer from there on hold colors. */
  ghost predicate Colored(rows: seq<seq<Rgba>>, data: seq<byte>, width: nat, height: nat, alpha: bool, from: nat) {
    && |rows| == height
    && (forall y {:trigger rows[y]} :: 0 <= y < height ==>
          rows[y] == if y >= from then ColorRow(data, width, height, alpha, y) else NoColors(width))
  }

  lemma ColoredNext(rows: seq<seq<Rgba>>, data: seq<byte>, width: nat, height: nat, alpha: bool, from: nat, y: nat,
                    row: seq<Rgba>)
    requires from == y + 1 <= height && Colored(rows, data, width, height, alpha, from)
    requires row == ColorRow(data, width, height, alpha, y)
    ensures Colored(rows[y := row], data, width, height, alpha, y)
  {
  }

  lemma NoColorRow(data: seq<byte>, width: nat, height: nat, alpha: bool, k: nat, y: nat, j: nat)
    requires y < height && j == height - 1 - y && k <= j && !HasColors(data, width, alpha, k)
    ensures ColorRow(data, width, height, alpha, y) == NoColors(width)
  {
    NoLaterColors(data, width, alpha, k, j);
  }

  /** If row k is missing, all others are as they will stay. */
  lemma ColoredEnds(rows: seq<seq<Rgba>>, data: seq<byte>, width: nat, height: nat, alpha: bool, k: nat, from: nat)
    requires k < height && from == height - k && Colored(rows, data, width, height, alpha, from)
    requires !HasColors(data, width, alpha, k)
    ensures Colored(rows, data, width, height, alpha, 0)
  {
    forall y | 0 <= y < from
      ensures rows[y] == ColorRow(data, width, height, alpha, y)
    {
      NoColorRow(data, width, height, alpha, k, y, height - 1 - y);
    }
  }

  lemma NoMaskEither(data: seq<byte>, width: nat, height: nat, alpha: bool, k: nat)
    requires k < height && !HasColors(data, width, alpha, k)
    ensures NoMasks(data, width, height, alpha) && Area(XorWidth(width, alpha), height) > |data|
  {
    forall j | 0 <= j < height
      ensures !HasMask(data, width, height, alpha, j)
    {
      NoMaskWithoutColors(data, width, height, alpha, k, j);
    }
    RowFits(XorWidth(width, alpha), k, height);
  }

  ghost predicate NoMasks(data: seq<byte>, width: nat, height: nat, alpha: bool) {
    forall k :: 0 <= k < height ==> !HasMask(data, width, height, alpha, k)
  }

  /** The colors, bottom row first, until the bytes run out. */
  method ReadColorRows(data: seq<byte>, width: nat, height: nat, alpha: bool)
    returns (ok: bool, rows: seq<seq<Rgba>>)
    ensures ok <==> Area(XorWidth(width, alpha), height) <= |data|
    ensures Colored(rows, data, width, height, alpha, 0)
    ensures !ok ==> NoMasks(data, width, height, alpha)
  {
    rows := seq(height, _ => NoColors(width));
    var slb := XorWidth(width, alpha);
    var k, pos := 0, 0;
    ghost var from: nat := height;
    while k < height
      invariant 0 <= k <= height && pos == Area(slb, k) <= |data|
      invariant from == height - k && Colored(rows, data, width, height, alpha, from)
    {
      var (next, y) := (k + 1, height - 1 - k);
      SliceFits(slb, k, next, height);
      if |data| < pos + slb {
        ColoredEnds(rows, data, width, height, alpha, k, from);
        NoMaskEither(data, width, height, alpha, k);
        return false, rows;
      }
      var row := ReadColorsAt(data, pos, slb, width, height, alpha, k, y);
      ColoredNext(rows, data, width, height, alpha, from, y, row);
      rows := rows[y := row];
      k, pos, from := next, pos + slb, y;
    }
    ok := true;
  }

  /** The colors of one row, which start at pos. */
  method ReadColorsAt(data: seq<byte>, pos: nat, slb: nat, width: nat, ghost height: nat, alpha: bool, ghost k: nat,
                      ghost y: nat) returns (row: seq<Rgba>)
    requires slb == XorWidth(width, alpha) && pos == Area(slb, k) && pos + slb <= |data|
    requires k < height && y == height - 1 - k
    ensures row == ColorRow(data, width, height, alpha, y)
  {
    row := ReadColors(data[pos..pos + slb], alpha, width);
    ColorsAre(data, width, alpha, k, row);
  }

  lemma ColorsAre(data: seq<byte>, width: nat, alpha: bool, k: nat, row: seq<Rgba>)
    requires HasColors(data, width, alpha, k) && |row| == width
    requires forall x :: 0 <= x < width ==> row[x] == ColorAt(Slice(data, XorWidth(width, alpha), k), alpha, x)
    ensures row == ColorsOf(data, width, alpha, k)
  {
  }

  function MaskedRow(data: seq<byte>, width: nat, height: nat, y: nat): (row: seq<Rgba>)
    requires y < height
    ensures |row| == width
  {
    BufferRow(data, width, height, false, height - 1 - y)
  }

  /** The rows of the buffer from there on have been masked. */
  ghost predicate MaskedUpTo(rows: seq<seq<Rgba>>, data: seq<byte>, width: nat, height: nat, from: nat) {
    && |rows| == height
    && (forall y {:trigger rows[y]} :: 0 <= y < height ==>
          rows[y] == if y >= from then MaskedRow(data, width, height, y)
                     else ColorRow(data, width, height, false, y))
  }

  lemma NotMaskedYet(rows: seq<seq<Rgba>>, data: seq<byte>, width: nat, height: nat)
    requires Colored(rows, data, width, height, false, 0)
    ensures MaskedUpTo(rows, data, width, height, height)
  {
  }

  lemma MaskedNext(rows: seq<seq<Rgba>>, data: seq<byte>, width: nat, height: nat, from: nat, y: nat, row: seq<Rgba>)
    requires from == y + 1 <= height && MaskedUpTo(rows, data, width, height, from)
    requires row == MaskedRow(data, width, height, y)
    ensures MaskedUpTo(rows[y := row], data, width, height, y)
  {
  }

  lemma MaskedEnds(rows: seq<seq<Rgba>>, data: seq<byte>, width: nat, height: nat, k: nat, from: nat)
    requires k <= height && from == height - k && MaskedUpTo(rows, data, width, height, from)
    requires k < height ==> !HasMask(data, width, height, false, k)
    ensures rows == Buffer(data, width, height, false)
  {
    forall y | 0 <= y < height
      ensures rows[y] == Buffer(data, width, height, false)[y]
    {
      MaskedRowIs(rows, data, width, height, k, from, y, height - 1 - y);
    }
  }

  lemma MaskedRowIs(rows: seq<seq<Rgba>>, data: seq<byte>, width: nat, height: nat, k: nat, from: nat, y: nat, j: nat)
    requires k <= height && from == height - k && MaskedUpTo(rows, data, width, height, from)
    requires k < height ==> !HasMask(data, width, height, false, k)
    requires y < height && j == height - 1 - y
    ensures rows[y] == Buffer(data, width, height, false)[y]
  {
    BufferAt(data, width, height, false, y, j);
    RowSoFar(rows, data, width, height, from, y);
    if y < from {
      NotMasked(data, width, height, k, j);
    }
  }

  lemma RowSoFar(rows: seq<seq<Rgba>>, data: seq<byte>, width: nat, height: nat, from: nat, y: nat)
    requires MaskedUpTo(rows, data, width, height, from) && y < height
    ensures rows[y] == if y >= from then MaskedRow(data, width, height, y) else ColorRow(data, width, height, false, y)
  {
  }

  /** Where the masks have ended, the buffer keeps the colors. */
  lemma NotMasked(data: seq<byte>, width: nat, height: nat, k: nat, j: nat)
    requires k <= j && !HasMask(data, width, height, false, k)
    ensures BufferRow(data, width, height, false, j) == ColorsOf(data, width, false, j)
  {
    NoLaterMask(data, width, height, false, k, j);
  }

  lemma MaskIs(data: seq<byte>, width: nat, height: nat, k: nat, colors: seq<Rgba>, row: seq<Rgba>)
    requires HasMask(data, width, height, false, k) && colors == ColorsOf(data, width, false, k) && |row| == width
    requires Octets(width) <= AndWidth(width)
    requires row == Masked(colors, Slice(data[Area(XorWidth(width, false), height)..], AndWidth(width), k))
    ensures row == BufferRow(data, width, height, false, k)
  {
  }

  /** The mask of one row, which starts at pos. */
  method ReadMaskAt(rest: seq<byte>, pos: nat, slb: nat, colors: seq<Rgba>,
                    ghost data: seq<byte>, width: nat, ghost height: nat, ghost k: nat) returns (row: seq<Rgba>)
    requires Area(XorWidth(width, false), height) <= |data| && rest == data[Area(XorWidth(width, false), height)..]
    requires slb == AndWidth(width) && pos == Area(slb, k) && pos + slb <= |rest| && k < height
    requires colors == ColorsOf(data, width, false, k)
    ensures row == BufferRow(data, width, height, false, k)
  {
    OctetsAre(width);
    row := ReadMask(colors, rest[pos..pos + slb]);
    MaskIs(data, width, height, k, colors, row);
  }

  /** The masks, bottom row first, until the bytes run out. */
  method ReadMaskRows(colors: seq<seq<Rgba>>, data: seq<byte>, width: nat, height: nat)
    returns (ok: bool, rows: seq<seq<Rgba>>)
    requires Colored(colors, data, width, height, false, 0) && Area(XorWidth(width, false), height) <= |data|
    ensures ok <==> Needed(width, height, false) <= |data|
    ensures rows == Buffer(data, width, height, false)
  {
    rows := colors;
    var (slb, start) := (AndWidth(width), Area(XorWidth(width, false), height));
    var rest := data[start..];
    var k, pos := 0, 0;
    ghost var from: nat := height;
    NotMaskedYet(rows, data, width, height);
    while k < height
      invariant 0 <= k <= height && pos == Area(slb, k) <= |rest|
      invariant from == height - k && MaskedUpTo(rows, data, width, height, from)
    {
      var (next, y) := (k + 1, height - 1 - k);
      SliceFits(slb, k, next, height);
      if |rest| < pos + slb {
        MaskedEnds(rows, data, width, height, k, from);
        return false, rows;
      }
      RowSoFar(rows, data, width, height, from, y);
      var row := ReadMaskAt(rest, pos, slb, rows[y], data, width, height, k);
      MaskedNext(rows, data, width, height, from, y, row);
      rows := rows[y := row];
      k, pos, from := next, pos + slb, y;
    }
    MaskedEnds(rows, data, width, height, k, from);
    ok := true;
  }

  lemma NoMaskAtAll(rows: seq<seq<Rgba>>, data: seq<byte>, width: nat, height: nat, alpha: bool)
    requires Colored(rows, data, width, height, alpha, 0) && (alpha || NoMasks(data, width, height, alpha))
    ensures rows == Buffer(data, width, height, alpha)
  {
    forall y | 0 <= y < height
      ensures rows[y] == Buffer(data, width, height, alpha)[y]
    {
      NoMaskInRow(rows, data, width, height, alpha, y, height - 1 - y);
    }
  }

  lemma NoMaskInRow(rows: seq<seq<Rgba>>, data: seq<byte>, width: nat, height: nat, alpha: bool, y: nat, j: nat)
    requires Colored(rows, data, width, height, alpha, 0) && (alpha || NoMasks(data, width, height, alpha))
    requires y < height && j == height - 1 - y
    ensures rows[y] == Buffer(data, width, height, alpha)[y]
  {
    BufferAt(data, width, height, alpha, y, j);
    assert alpha || !HasMask(data, width, height, alpha, j);
  }

  /** Decode the bitmap behind a header, as far as it goes. */
  method FillBuffer(data: seq<byte>, width: nat, height: nat, alpha: bool) returns (ok: bool, rows: seq<seq<Rgba>>)
    ensures ok <==> Needed(width, height, alpha) <= |data|
    ensures rows == Buffer(data, width, height, alpha)
  {
    ok, rows := ReadColorRows(data, width, height, alpha);
    if ok && !alpha {
      ok, rows := ReadMaskRows(rows, data, width, height);
    } else {
      NoMaskAtAll(rows, data, width, height, alpha);
    }
  }
}
