/** The buffer of an image, pixel after pixel, and what writing blocks into it does, in whatever order. */
module DdsBuffer {
  import opened Bytes
  import opened DdsBlocks

  /** The number of pixel (x, y) in the buffer, and where its bytes start. */
  function Index(width: nat, x: nat, y: nat): nat {
    Area(width, y) + x
  }

  function Offset(s: Source, x: nat, y: nat): nat {
    Area(s.Pixel(), Index(s.width, x, y))
  }

  predicate Sized(buf: seq<byte>, s: Source) {
    |buf| == Area(s.Pixel(), Area(s.width, s.height))
  }

  lemma IndexInside(width: nat, height: nat, x: nat, y: nat)
    requires x < width && y < height
    ensures Index(width, x, y) < Area(width, height)
  {
    RowFits(width, y, height);
  }

  /** One row further down. */
  lemma OffsetBelow(s: Source, x: nat, y: nat, below: nat)
    requires below == y + 1
    ensures Offset(s, x, below) == Offset(s, x, y) + Area(s.Pixel(), s.width)
  {
    AreaAddHeight(s.Pixel(), Index(s.width, x, y), s.width, Index(s.width, x, below));
  }

  /** Some pixels of a row are inside the buffer. */
  lemma PieceInside(s: Source, x: nat, y: nat, cols: nat)
    requires x + cols <= s.width && y < s.height
    ensures Offset(s, x, y) + Area(s.Pixel(), cols) <= Area(s.Pixel(), Area(s.width, s.height))
  {
    RowFits(s.width, y, s.height);
    AreaAddHeight(s.Pixel(), Index(s.width, x, y), cols, Index(s.width, x, y) + cols);
    RowsInside(s.Pixel(), Index(s.width, x, y) + cols, Area(s.width, s.height));
  }

  // ----- Copying some pixels of a row.

  lemma FoundInPiece(buf: seq<byte>, at: nat, piece: seq<byte>, from: nat, size: nat, start: nat)
    requires at + |piece| <= |buf| && from + size <= |piece| && start == at + from
    ensures Part(Over(buf, at, piece), start, size) == Part(piece, from, size)
  {
  }

  lemma FoundBeside(buf: seq<byte>, at: nat, piece: seq<byte>, size: nat, start: nat)
    requires at + |piece| <= |buf| && start + size <= |buf| && (start + size <= at || at + |piece| <= start)
    ensures Part(Over(buf, at, piece), start, size) == Part(buf, start, size)
  {
  }

  /** Copied pixels are found where they have been copied, the others are as they were. */
  lemma PixelsCopied(buf: seq<byte>, size: nat, first: nat, piece: seq<byte>, cols: nat, k: nat)
    requires |piece| == Area(size, cols) && Area(size, first) + |piece| <= |buf| && Area(size, k) + size <= |buf|
    ensures first <= k < first + cols ==>
      Area(size, k - first) + size <= |piece|
      && PixelAt(Over(buf, Area(size, first), piece), size, k) == PixelAt(piece, size, k - first)
    ensures !(first <= k < first + cols) ==>
      PixelAt(Over(buf, Area(size, first), piece), size, k) == PixelAt(buf, size, k)
  {
    var at := Area(size, first);
    if k < first {
      PixelInside(size, k, first);
      FoundBeside(buf, at, piece, size, Area(size, k));
    } else if k < first + cols {
      AreaAddHeight(size, first, k - first, k);
      PixelInside(size, k - first, cols);
      FoundInPiece(buf, at, piece, Area(size, k - first), size, Area(size, k));
    } else {
      AreaAddHeight(size, first, cols, first + cols);
      RowsInside(size, first + cols, k);
      FoundBeside(buf, at, piece, size, Area(size, k));
    }
  }

  /** Pixels of a row are next to each other, and those of other rows are elsewhere. */
  lemma IndexIn(width: nat, x0: nat, y0: nat, cols: nat, x: nat, y: nat)
    requires x0 + cols <= width && x < width
    ensures Index(width, x0, y0) <= Index(width, x, y) < Index(width, x0, y0) + cols <==> y == y0 && x0 <= x < x0 + cols
  {
    if y < y0 {
      RowFits(width, y, y0);
    } else if y > y0 {
      RowFits(width, y0, y);
    }
  }

  // ----- Writing a block.

  function Cols(s: Source, p: Place): (n: nat)
    requires Inside(p, s)
    ensures 0 < n <= BLOCK && BLOCK * p.col + n <= s.width
  {
    Min(BLOCK, s.width - BLOCK * p.col)
  }

  /** The part of row n of a block that is inside the image. */
  function Piece(s: Source, p: Place, n: nat): (piece: seq<byte>)
    requires Proper(s) && Inside(p, s) && n < BLOCK
    ensures |piece| == Area(s.Pixel(), Cols(s, p))
  {
    AreaAddHeight(s.Pixel(), BLOCK * n, Cols(s, p), BLOCK * n + Cols(s, p));
    RowsInside(s.Pixel(), BLOCK * n + Cols(s, p), BLOCK * BLOCK);
    Part(BlockAt(s, p), Area(s.Pixel(), BLOCK * n), Area(s.Pixel(), Cols(s, p)))
  }

  /** The buffer after the first n rows of a block have been copied; rows below the image are left out. */
  function WriteRows(s: Source, buf: seq<byte>, p: Place, n: nat): (res: seq<byte>)
    requires Proper(s) && Sized(buf, s) && Inside(p, s) && n <= BLOCK
    ensures Sized(res, s)
  {
    if n == 0 then buf
    else
      var before := WriteRows(s, buf, p, n - 1);
      if BLOCK * p.row + n - 1 >= s.height then before else WriteRow(s, before, p, n - 1)
  }

  function WriteRow(s: Source, buf: seq<byte>, p: Place, n: nat): (res: seq<byte>)
    requires Proper(s) && Sized(buf, s) && Inside(p, s) && n < BLOCK && BLOCK * p.row + n < s.height
    ensures Sized(res, s)
  {
    PieceInside(s, BLOCK * p.col, BLOCK * p.row + n, Cols(s, p));
    Over(buf, Offset(s, BLOCK * p.col, BLOCK * p.row + n), Piece(s, p, n))
  }

  function WriteBlock(s: Source, buf: seq<byte>, p: Place): (res: seq<byte>)
    requires Proper(s) && Sized(buf, s) && Inside(p, s)
    ensures Sized(res, s)
  {
    WriteRows(s, buf, p, BLOCK)
  }

  /** Pixel (x, y) of the buffer. */
  function Shown(s: Source, buf: seq<byte>, x: nat, y: nat): seq<byte>
    requires Sized(buf, s) && x < s.width && y < s.height
  {
    IndexInside(s.width, s.height, x, y);
    PixelInside(s.Pixel(), Index(s.width, x, y), Area(s.width, s.height));
    PixelAt(buf, s.Pixel(), Index(s.width, x, y))
  }

  /** The pixels of a part of some pixels. */
  lemma PartOfPixels(bytes: seq<byte>, size: nat, first: nat, cols: nat, k: nat, at: nat)
    requires k < cols && at == first + k && Area(size, first) + Area(size, cols) <= |bytes|
    ensures Area(size, k) + size <= Area(size, cols) && Area(size, at) + size <= |bytes|
    ensures PixelAt(Part(bytes, Area(size, first), Area(size, cols)), size, k) == PixelAt(bytes, size, at)
  {
    PixelInside(size, k, cols);
    AreaAddHeight(size, first, k, at);
    PartInPart(bytes, Area(size, first), Area(size, cols), Area(size, k), size, Area(size, at));
  }

  lemma RowPartFits(s: Source, p: Place, first: nat, cols: nat, n: nat)
    requires Proper(s) && Inside(p, s) && n < BLOCK && first == BLOCK * n && cols == Cols(s, p)
    ensures Area(s.Pixel(), first) + Area(s.Pixel(), cols) <= |BlockAt(s, p)|
    ensures Piece(s, p, n) == Part(BlockAt(s, p), Area(s.Pixel(), first), Area(s.Pixel(), cols))
  {
    AreaAddHeight(s.Pixel(), first, cols, first + cols);
    RowsInside(s.Pixel(), first + cols, BLOCK * BLOCK);
  }

  lemma PixelInRow(s: Source, p: Place, n: nat, k: nat, x: nat, y: nat, at: nat)
    requires Proper(s) && Inside(p, s) && x < s.width && y < s.height && InBlock(x, y, p)
    requires y == BLOCK * p.row + n && x == BLOCK * p.col + k && at == BLOCK * n + k
    ensures Area(s.Pixel(), at) + s.Pixel() <= |BlockAt(s, p)|
    ensures PixelAt(BlockAt(s, p), s.Pixel(), at) == PixelOf(s, x, y)
  {
    PixelInBlock(s, p, x, y);
    assert at == BLOCK * (y - BLOCK * p.row) + (x - BLOCK * p.col);
  }

  /** Pixel k of the part of a row of a block that is inside the image is what it should be. */
  lemma PieceIs(s: Source, p: Place, n: nat, k: nat, x: nat, y: nat)
    requires Proper(s) && Inside(p, s) && n < BLOCK && x < s.width && y < s.height && InBlock(x, y, p)
    requires y == BLOCK * p.row + n && x == BLOCK * p.col + k
    ensures k < Cols(s, p) && Area(s.Pixel(), k) + s.Pixel() <= |Piece(s, p, n)|
    ensures PixelAt(Piece(s, p, n), s.Pixel(), k) == PixelOf(s, x, y)
  {
    var (first, cols) := (BLOCK * n, Cols(s, p));
    RowPartFits(s, p, first, cols, n);
    InCols(s, p, k, x);
    PixelInRow(s, p, n, k, x, y, first + k);
    PartOfPixels(BlockAt(s, p), s.Pixel(), first, cols, k, first + k);
  }

  lemma InCols(s: Source, p: Place, k: nat, x: nat)
    requires Inside(p, s) && x == BLOCK * p.col + k < s.width && k < BLOCK
    ensures k < Cols(s, p)
  {
  }

  lemma RowWrites(s: Source, buf: seq<byte>, p: Place, n: nat, x: nat, y: nat)
    requires Proper(s) && Sized(buf, s) && Inside(p, s) && n < BLOCK && BLOCK * p.row + n < s.height
    requires x < s.width && y < s.height
    ensures Shown(s, WriteRow(s, buf, p, n), x, y)
         == if InBlock(x, y, p) && y == BLOCK * p.row + n then PixelOf(s, x, y) else Shown(s, buf, x, y)
  {
    var piece := Piece(s, p, n);
    RowCopied(s, buf, BLOCK * p.col, BLOCK * p.row + n, piece, Cols(s, p), x, y);
    if InBlock(x, y, p) && y == BLOCK * p.row + n {
      PieceIs(s, p, n, x - BLOCK * p.col, x, y);
    }
  }

  /** Copying pixels to a part of a row sets them and leaves the rest. */
  lemma RowCopied(s: Source, buf: seq<byte>, x0: nat, y0: nat, piece: seq<byte>, cols: nat, x: nat, y: nat)
    requires Sized(buf, s) && x0 + cols <= s.width && y0 < s.height && |piece| == Area(s.Pixel(), cols)
    requires x < s.width && y < s.height
    ensures Offset(s, x0, y0) + |piece| <= |buf|
    ensures y == y0 && x0 <= x < x0 + cols ==>
      Area(s.Pixel(), x - x0) + s.Pixel() <= |piece|
      && Shown(s, Over(buf, Offset(s, x0, y0), piece), x, y) == PixelAt(piece, s.Pixel(), x - x0)
    ensures !(y == y0 && x0 <= x < x0 + cols) ==>
      Shown(s, Over(buf, Offset(s, x0, y0), piece), x, y) == Shown(s, buf, x, y)
  {
    PieceInside(s, x0, y0, cols);
    IndexInside(s.width, s.height, x, y);
    PixelInside(s.Pixel(), Index(s.width, x, y), Area(s.width, s.height));
    IndexIn(s.width, x0, y0, cols, x, y);
    PixelsCopied(buf, s.Pixel(), Index(s.width, x0, y0), piece, cols, Index(s.width, x, y));
  }

  lemma NextRows(s: Source, buf: seq<byte>, p: Place, n: nat, next: nat)
    requires Proper(s) && Sized(buf, s) && Inside(p, s) && next == n + 1 <= BLOCK && BLOCK * p.row + n < s.height
    ensures WriteRows(s, buf, p, next) == WriteRow(s, WriteRows(s, buf, p, n), p, n)
  {
  }

  lemma NoNextRow(s: Source, buf: seq<byte>, p: Place, n: nat, next: nat)
    requires Proper(s) && Sized(buf, s) && Inside(p, s) && next == n + 1 <= BLOCK && BLOCK * p.row + n >= s.height
    ensures WriteRows(s, buf, p, next) == WriteRows(s, buf, p, n)
  {
  }

  lemma {:induction false} RowsWrite(s: Source, buf: seq<byte>, p: Place, n: nat, x: nat, y: nat)
    requires Proper(s) && Sized(buf, s) && Inside(p, s) && n <= BLOCK && x < s.width && y < s.height
    ensures Shown(s, WriteRows(s, buf, p, n), x, y)
         == if InBlock(x, y, p) && y < BLOCK * p.row + n then PixelOf(s, x, y) else Shown(s, buf, x, y)
  {
    if n > 0 {
      var before: nat := n - 1;
      RowsWrite(s, buf, p, before, x, y);
      if BLOCK * p.row + before < s.height {
        NextRows(s, buf, p, before, n);
        RowWrites(s, WriteRows(s, buf, p, before), p, before, x, y);
      } else {
        NoNextRow(s, buf, p, before, n);
      }
    }
  }

  /** A block sets its own pixels to what they should be, and no others. */
  lemma BlockWrites(s: Source, buf: seq<byte>, p: Place, x: nat, y: nat)
    requires Proper(s) && Sized(buf, s) && Inside(p, s) && x < s.width && y < s.height
    ensures Shown(s, WriteBlock(s, buf, p), x, y) == if InBlock(x, y, p) then PixelOf(s, x, y) else Shown(s, buf, x, y)
  {
    RowsWrite(s, buf, p, BLOCK, x, y);
  }

  // ----- Any number of blocks.

  ghost predicate AllInside(order: seq<Place>, s: Source) {
    forall k :: 0 <= k < |order| ==> Inside(order[k], s)
  }

  function WriteAll(s: Source, buf: seq<byte>, order: seq<Place>): (res: seq<byte>)
    requires Proper(s) && Sized(buf, s) && AllInside(order, s)
    ensures Sized(res, s)
  {
    if order == [] then buf
    else WriteBlock(s, WriteAll(s, buf, order[..|order| - 1]), order[|order| - 1])
  }

  lemma WriteAllNext(s: Source, buf: seq<byte>, order: seq<Place>, p: Place)
    requires Proper(s) && Sized(buf, s) && AllInside(order, s) && Inside(p, s)
    ensures AllInside(order + [p], s) && WriteAll(s, buf, order + [p]) == WriteBlock(s, WriteAll(s, buf, order), p)
  {
    assert (order + [p])[..|order|] == order;
  }

  lemma {:induction false} WriteAllBoth(s: Source, buf: seq<byte>, a: seq<Place>, b: seq<Place>)
    requires Proper(s) && Sized(buf, s) && AllInside(a, s) && AllInside(b, s)
    ensures AllInside(a + b, s) && WriteAll(s, buf, a + b) == WriteAll(s, WriteAll(s, buf, a), b)
    decreases |b|
  {
    if b == [] {
      assert a + b == a;
    } else {
      var (init, p) := (b[..|b| - 1], b[|b| - 1]);
      WriteAllBoth(s, buf, a, init);
      WriteAllNext(s, buf, a + init, p);
      assert a + b == (a + init) + [p];
    }
  }

  ghost predicate Done(x: nat, y: nat, order: seq<Place>) {
    exists k :: 0 <= k < |order| && InBlock(x, y, order[k])
  }

  lemma DoneNext(before: seq<Place>, p: Place, x: nat, y: nat)
    ensures Done(x, y, before + [p]) <==> Done(x, y, before) || InBlock(x, y, p)
  {
    var order := before + [p];
    if Done(x, y, before) {
      var k :| 0 <= k < |before| && InBlock(x, y, before[k]);
      assert order[k] == before[k];
    }
    if InBlock(x, y, p) {
      assert order[|before|] == p;
    }
  }

  /** After some blocks, in whatever order, exactly their pixels are what they should be. */
  lemma {:induction false} AnyOrder(s: Source, buf: seq<byte>, order: seq<Place>, x: nat, y: nat)
    requires Proper(s) && Sized(buf, s) && AllInside(order, s) && x < s.width && y < s.height
    ensures Shown(s, WriteAll(s, buf, order), x, y)
         == if Done(x, y, order) then PixelOf(s, x, y) else Shown(s, buf, x, y)
  {
    if order != [] {
      var (before, p) := (order[..|order| - 1], order[|order| - 1]);
      AnyOrder(s, buf, before, x, y);
      BlockWrites(s, WriteAll(s, buf, before), p, x, y);
      DoneNext(before, p, x, y);
      assert order == before + [p];
    }
  }

  /** Every block is there once, and nothing else. */
  ghost predicate Complete(order: seq<Place>, s: Source) {
    forall p: Place :: multiset(order)[p] == if Inside(p, s) then 1 else 0
  }

  lemma AllOfThemInside(order: seq<Place>, s: Source)
    requires Complete(order, s)
    ensures AllInside(order, s)
  {
    forall k | 0 <= k < |order|
      ensures Inside(order[k], s)
    {
      assert order[k] in multiset(order);
    }
  }

  /** What is there once is at one position. */
  lemma OnePosition(order: seq<Place>, j: nat, k: nat)
    requires j < k < |order| && order[j] == order[k]
    ensures multiset(order)[order[j]] >= 2
  {
    assert order == order[..k] + order[k..];
    assert order[..k][j] in multiset(order[..k]) && order[k..][0] in multiset(order[k..]);
  }

  /** A pixel belongs to one block only. */
  lemma OneBlock(p: Place, q: Place, x: nat, y: nat)
    requires InBlock(x, y, p) && InBlock(x, y, q)
    ensures p == q
  {
    BlockOf(x, p.col);
    BlockOf(x, q.col);
    BlockOf(y, p.row);
    BlockOf(y, q.row);
  }

  /** All blocks in any order give the image, whatever was in the buffer, and write each pixel exactly once. */
  lemma AllBlocks(s: Source, buf: seq<byte>, order: seq<Place>, x: nat, y: nat)
    requires Proper(s) && Sized(buf, s) && Complete(order, s) && x < s.width && y < s.height
    ensures AllInside(order, s) && Shown(s, WriteAll(s, buf, order), x, y) == PixelOf(s, x, y)
    ensures exists k :: 0 <= k < |order| && InBlock(x, y, order[k])
                        && forall j :: 0 <= j < |order| && InBlock(x, y, order[j]) ==> j == k
  {
    AllOfThemInside(order, s);
    AnyOrder(s, buf, order, x, y);
    InsideBlock(x, s.width);
    InsideBlock(y, s.height);
    var p := Place(x / BLOCK, y / BLOCK);
    assert Inside(p, s) && p in multiset(order);
    var k :| 0 <= k < |order| && order[k] == p;
    assert InBlock(x, y, order[k]);
    forall j | 0 <= j < |order| && InBlock(x, y, order[j])
      ensures j == k
    {
      OneBlock(order[j], order[k], x, y);
      if j < k {
        OnePosition(order, j, k);
      } else if k < j {
        OnePosition(order, k, j);
      }
    }
  }
}
