/** Images cut into tiles of 64 by 64 pixels, and what copying a tile out of an image and into one does. */
module IffTiles {
  import opened Bytes

  /** The bytes of the channels of a pixel. */
  type Pixel = seq<byte>

  type Image = seq<seq<Pixel>>

  predicate Shape(img: Image, width: nat, height: nat, channels: nat) {
    && |img| == height
    && (forall y :: 0 <= y < height ==> |img[y]| == width)
    && (forall y, x :: 0 <= y < height && 0 <= x < width ==> |img[y][x]| == channels)
  }

  /** Columns left..right of rows top..bottom, the last ones excluded. */
  datatype Rect = Rect(left: nat, top: nat, right: nat, bottom: nat)

  predicate Inside(r: Rect, width: nat, height: nat) {
    r.left < r.right <= width && r.top < r.bottom <= height
  }

  predicate Covers(r: Rect, x: nat, y: nat) {
    r.left <= x < r.right && r.top <= y < r.bottom
  }

  function Width(r: Rect): nat
    requires r.left <= r.right
  {
    r.right - r.left
  }

  function Height(r: Rect): nat
    requires r.top <= r.bottom
  {
    r.bottom - r.top
  }

  function Size(r: Rect): nat
    requires r.left <= r.right && r.top <= r.bottom
  {
    Area(Width(r), Height(r))
  }

  // ----- Copying out and in.

  /** An image that has room for a tile. */
  predicate Contains(img: Image, r: Rect) {
    r.left <= r.right && r.top <= r.bottom <= |img| && forall y :: 0 <= y < |img| ==> r.right <= |img[y]|
  }

  /** The part of row k of a tile. */
  function Piece(img: Image, r: Rect, k: nat): (row: seq<Pixel>)
    requires Contains(img, r) && k < Height(r)
    ensures |row| == Width(r)
  {
    img[r.top + k][r.left..r.right]
  }

  /** The pixels of the first n rows of a tile, row by row. */
  function Rows(img: Image, r: Rect, n: nat): (ps: seq<Pixel>)
    requires Contains(img, r) && n <= Height(r)
    ensures |ps| == Area(Width(r), n)
  {
    if n == 0 then [] else Rows(img, r, n - 1) + Piece(img, r, n - 1)
  }

  function Get(img: Image, r: Rect): (ps: seq<Pixel>)
    requires Contains(img, r)
    ensures |ps| == Size(r)
  {
    Rows(img, r, Height(r))
  }

  /** There is a row k among the pixels. */
  predicate HasRow(ps: seq<Pixel>, width: nat, k: nat) {
    Area(width, k) + width <= |ps|
  }

  /** Row k of some pixels that come row by row. */
  function RowOf(ps: seq<Pixel>, width: nat, k: nat): (row: seq<Pixel>)
    requires HasRow(ps, width, k)
    ensures |row| == width
  {
    ps[Area(width, k)..Area(width, k) + width]
  }

  lemma HasRows(ps: seq<Pixel>, r: Rect, k: nat)
    requires r.left <= r.right && r.top <= r.bottom && |ps| == Size(r) && k < Height(r)
    ensures HasRow(ps, Width(r), k)
  {
    RowFits(Width(r), k, Height(r));
  }

  /** Row y of an image after a tile has been put into it. */
  function NewRow(row: seq<Pixel>, r: Rect, ps: seq<Pixel>, y: nat): (s: seq<Pixel>)
    requires r.left <= r.right <= |row| && r.top <= r.bottom && |ps| == Size(r)
    ensures |s| == |row|
  {
    if r.top <= y < r.bottom then
      HasRows(ps, r, y - r.top);
      Over(row, r.left, RowOf(ps, Width(r), y - r.top))
    else row
  }

  function Put(img: Image, r: Rect, ps: seq<Pixel>): (res: Image)
    requires Contains(img, r) && |ps| == Size(r)
    ensures |res| == |img| && forall y :: 0 <= y < |img| ==> res[y] == NewRow(img[y], r, ps, y)
  {
    seq(|img|, y requires 0 <= y < |img| => NewRow(img[y], r, ps, y))
  }

  lemma {:induction false} RowOfRows(img: Image, r: Rect, n: nat, k: nat)
    requires Contains(img, r) && k < n <= Height(r)
    ensures HasRow(Rows(img, r, n), Width(r), k) && RowOf(Rows(img, r, n), Width(r), k) == Piece(img, r, k)
  {
    if k < n - 1 {
      RowOfRows(img, r, n - 1, k);
      RowOfPrefix(Rows(img, r, n - 1), Piece(img, r, n - 1), Width(r), k);
    }
  }

  lemma RowOfPrefix(ps: seq<Pixel>, qs: seq<Pixel>, width: nat, k: nat)
    requires HasRow(ps, width, k)
    ensures HasRow(ps + qs, width, k) && RowOf(ps + qs, width, k) == RowOf(ps, width, k)
  {
  }

  lemma NewRowOfGet(img: Image, row: seq<Pixel>, r: Rect, k: nat)
    requires Contains(img, r) && k < Height(r) && r.right <= |row|
    ensures NewRow(row, r, Get(img, r), r.top + k) == Over(row, r.left, Piece(img, r, k))
  {
    RowOfRows(img, r, Height(r), k);
  }

  /** Putting back what was there changes nothing. */
  lemma PutGet(img: Image, r: Rect)
    requires Contains(img, r)
    ensures Put(img, r, Get(img, r)) == img
  {
    forall y | 0 <= y < |img|
      ensures NewRow(img[y], r, Get(img, r), y) == img[y]
    {
      RowPutBack(img, r, y);
    }
  }

  lemma RowPutBack(img: Image, r: Rect, y: nat)
    requires Contains(img, r) && y < |img|
    ensures NewRow(img[y], r, Get(img, r), y) == img[y]
  {
    if r.top <= y < r.bottom {
      NewRowOfGet(img, img[y], r, y - r.top);
    }
  }

  lemma OverMiddle(row: seq<Pixel>, left: nat, right: nat, piece: seq<Pixel>)
    requires left <= right <= |row| && |piece| == right - left
    ensures Over(row, left, piece)[left..right] == piece
  {
  }

  lemma PieceOfPut(img: Image, r: Rect, ps: seq<Pixel>, k: nat)
    requires Contains(img, r) && |ps| == Size(r) && k < Height(r) && HasRow(ps, Width(r), k)
    ensures Piece(Put(img, r, ps), r, k) == RowOf(ps, Width(r), k)
  {
    OverMiddle(img[r.top + k], r.left, r.right, RowOf(ps, Width(r), k));
  }

  /** The rows of a tile are those of some pixels. */
  predicate RowsAre(img: Image, r: Rect, ps: seq<Pixel>) {
    && Contains(img, r) && |ps| == Size(r)
    && forall k {:trigger Piece(img, r, k)} :: 0 <= k < Height(r) ==>
         HasRow(ps, Width(r), k) && Piece(img, r, k) == RowOf(ps, Width(r), k)
  }

  /** The first n rows of a tile are the first ones of some pixels. */
  predicate Begins(img: Image, r: Rect, ps: seq<Pixel>, n: nat) {
    Contains(img, r) && n <= Height(r) && Rows(img, r, n) <= ps
  }

  lemma {:induction false} RowsBegin(img: Image, r: Rect, ps: seq<Pixel>, n: nat)
    requires RowsAre(img, r, ps) && n <= Height(r)
    ensures Begins(img, r, ps, n)
  {
    if n > 0 {
      RowsBegin(img, r, ps, n - 1);
      NextRowBegins(img, r, ps, n - 1, n);
    }
  }

  lemma NextRowBegins(img: Image, r: Rect, ps: seq<Pixel>, k: nat, next: nat)
    requires RowsAre(img, r, ps) && next == k + 1 <= Height(r) && Begins(img, r, ps, k)
    ensures Begins(img, r, ps, next)
  {
    RowsNext(img, r, k, next);
    PrefixGrows(Rows(img, r, k), ps, Width(r), k);
  }

  lemma RowsNext(img: Image, r: Rect, k: nat, next: nat)
    requires Contains(img, r) && next == k + 1 <= Height(r)
    ensures Rows(img, r, next) == Rows(img, r, k) + Piece(img, r, k)
  {
  }

  lemma PrefixGrows(rows: seq<Pixel>, ps: seq<Pixel>, width: nat, k: nat)
    requires HasRow(ps, width, k) && rows <= ps && |rows| == Area(width, k)
    ensures rows + RowOf(ps, width, k) <= ps
  {
  }

  lemma PutRowsAre(img: Image, r: Rect, ps: seq<Pixel>)
    requires Contains(img, r) && |ps| == Size(r)
    ensures RowsAre(Put(img, r, ps), r, ps)
  {
    forall k | 0 <= k < Height(r)
      ensures HasRow(ps, Width(r), k) && Piece(Put(img, r, ps), r, k) == RowOf(ps, Width(r), k)
    {
      HasRows(ps, r, k);
      PieceOfPut(img, r, ps, k);
    }
  }

  /** What has been put is found again. */
  lemma GetPut(img: Image, r: Rect, ps: seq<Pixel>)
    requires Contains(img, r) && |ps| == Size(r)
    ensures Get(Put(img, r, ps), r) == ps
  {
    PutRowsAre(img, r, ps);
    RowsBegin(Put(img, r, ps), r, ps, Height(r));
  }

  /** The last pixels put win. */
  lemma PutTwice(img: Image, r: Rect, ps: seq<Pixel>, qs: seq<Pixel>)
    requires Contains(img, r) && |ps| == |qs| == Size(r)
    ensures Put(Put(img, r, ps), r, qs) == Put(img, r, qs)
  {
    forall y | 0 <= y < |img|
      ensures NewRow(NewRow(img[y], r, ps, y), r, qs, y) == NewRow(img[y], r, qs, y)
    {
      NewRowTwice(img[y], r, ps, qs, y);
    }
  }

  lemma NewRowTwice(row: seq<Pixel>, r: Rect, ps: seq<Pixel>, qs: seq<Pixel>, y: nat)
    requires r.left <= r.right <= |row| && r.top <= r.bottom && |ps| == |qs| == Size(r)
    ensures NewRow(NewRow(row, r, ps, y), r, qs, y) == NewRow(row, r, qs, y)
  {
    if r.top <= y < r.bottom {
      HasRows(ps, r, y - r.top);
      HasRows(qs, r, y - r.top);
      OverTwice(row, r.left, RowOf(ps, Width(r), y - r.top), RowOf(qs, Width(r), y - r.top));
    }
  }

  lemma OverTwice(row: seq<Pixel>, at: nat, p: seq<Pixel>, q: seq<Pixel>)
    requires |p| == |q| && at + |p| <= |row|
    ensures Over(Over(row, at, p), at, q) == Over(row, at, q)
  {
  }

  // ----- The grid of tiles.

  const TILE := 64

  /** The number of tiles that a row or column of pixels is cut into. */
  function TileCount(n: nat): (c: nat)
    ensures n > 0 ==> c > 0 && TILE * (c - 1) < n
    ensures n <= TILE * c
  {
    (n + TILE - 1) / TILE
  }

  function Start(t: nat): nat {
    TILE * t
  }

  function End(t: nat, size: nat): nat {
    Min(TILE * t + TILE, size)
  }

  function Span(t: nat, size: nat): (n: nat)
    requires t < TileCount(size)
    ensures n > 0
  {
    End(t, size) - Start(t)
  }

  function Tile(width: nat, height: nat, tx: nat, ty: nat): Rect {
    Rect(Start(tx), Start(ty), End(tx, width), End(ty, height))
  }

  /** Tile tx of row ty comes next in the file, or all rows of tiles are done. */
  predicate Next(width: nat, height: nat, tx: nat, ty: nat) {
    tx <= TileCount(width) && (ty < TileCount(height) || (ty == TileCount(height) && tx == 0))
  }

  lemma TileInside(width: nat, height: nat, tx: nat, ty: nat)
    requires tx < TileCount(width) && ty < TileCount(height)
    ensures Inside(Tile(width, height, tx, ty), width, height)
  {
  }

  /** The number of pixels in the first n tiles of a row or column of tiles. */
  function Reach(n: nat, size: nat): nat
    requires n <= TileCount(size)
  {
    if n == 0 then 0 else End(n - 1, size)
  }

  /** Only the last tile of a row or column may be cut off. */
  lemma ReachNext(t: nat, size: nat)
    requires t < TileCount(size)
    ensures Reach(t + 1, size) == Reach(t, size) + Span(t, size)
  {
  }

  lemma ReachAll(size: nat)
    ensures Reach(TileCount(size), size) == size
  {
  }

  // ----- Rebuilding an image from its tiles.

  /** A tile of a is put into b. */
  function Paste(a: Image, b: Image, r: Rect, width: nat, height: nat, channels: nat): (c: Image)
    requires Shape(a, width, height, channels) && Shape(b, width, height, channels) && Inside(r, width, height)
    ensures Shape(c, width, height, channels)
    ensures forall y, x :: 0 <= y < height && 0 <= x < width ==>
      c[y][x] == if Covers(r, x, y) then a[y][x] else b[y][x]
  {
    PasteRows(a, b, r, width);
    Put(b, r, Get(a, r))
  }

  lemma PasteRows(a: Image, b: Image, r: Rect, width: nat)
    requires |a| == |b| && Contains(a, r) && Contains(b, r)
    requires forall y :: 0 <= y < |a| ==> |a[y]| == |b[y]| == width
    ensures forall y, x :: 0 <= y < |a| && 0 <= x < width ==>
      Put(b, r, Get(a, r))[y][x] == if Covers(r, x, y) then a[y][x] else b[y][x]
  {
    forall y, x | 0 <= y < |a| && 0 <= x < width
      ensures NewRow(b[y], r, Get(a, r), y)[x] == if Covers(r, x, y) then a[y][x] else b[y][x]
    {
      if r.top <= y < r.bottom {
        NewRowOfGet(a, b[y], r, y - r.top);
      }
    }
  }

  /** The pixel is in a tile that comes before. */
  predicate Before(x: nat, y: nat, tx: nat, ty: nat) {
    y < Start(ty) || (y < Start(ty) + TILE && x < Start(tx))
  }

  lemma BeforeNext(width: nat, height: nat, x: nat, y: nat, tx: nat, ty: nat)
    requires x < width && y < height
    ensures Before(x, y, tx + 1, ty) <==> Before(x, y, tx, ty) || Covers(Tile(width, height, tx, ty), x, y)
    ensures Before(x, y, 0, ty + 1) <==> Before(x, y, TileCount(width), ty)
    ensures !Before(x, y, 0, 0)
    ensures Before(x, y, 0, TileCount(height))
  {
  }

  /** The tiles of a that come before are put into b. */
  function Rebuilt(a: Image, b: Image, width: nat, height: nat, channels: nat, tx: nat, ty: nat): (c: Image)
    requires Shape(a, width, height, channels) && Shape(b, width, height, channels) && Next(width, height, tx, ty)
    ensures Shape(c, width, height, channels)
    decreases ty, tx
  {
    if tx > 0 then
      TileInside(width, height, tx - 1, ty);
      var before := Rebuilt(a, b, width, height, channels, tx - 1, ty);
      Paste(a, before, Tile(width, height, tx - 1, ty), width, height, channels)
    else if ty > 0 then Rebuilt(a, b, width, height, channels, TileCount(width), ty - 1)
    else b
  }

  lemma {:induction false} RebuiltSoFar(a: Image, b: Image, width: nat, height: nat, channels: nat, tx: nat, ty: nat,
                                        x: nat, y: nat)
    requires Shape(a, width, height, channels) && Shape(b, width, height, channels) && Next(width, height, tx, ty)
    requires x < width && y < height
    ensures Rebuilt(a, b, width, height, channels, tx, ty)[y][x] == if Before(x, y, tx, ty) then a[y][x] else b[y][x]
    decreases ty, tx
  {
    if tx > 0 {
      RebuiltSoFar(a, b, width, height, channels, tx - 1, ty, x, y);
      OneTileOn(a, b, width, height, channels, tx - 1, tx, ty, x, y);
      BeforeNext(width, height, x, y, tx - 1, ty);
    } else if ty > 0 {
      RebuiltSoFar(a, b, width, height, channels, TileCount(width), ty - 1, x, y);
      BeforeNext(width, height, x, y, 0, ty - 1);
    } else {
      BeforeNext(width, height, x, y, 0, 0);
    }
  }

  lemma OneTileOn(a: Image, b: Image, width: nat, height: nat, channels: nat, tx: nat, next: nat, ty: nat,
                  x: nat, y: nat)
    requires Shape(a, width, height, channels) && Shape(b, width, height, channels)
    requires Next(width, height, tx, ty) && Next(width, height, next, ty) && next == tx + 1
    requires x < width && y < height
    ensures Rebuilt(a, b, width, height, channels, next, ty)[y][x]
         == if Covers(Tile(width, height, tx, ty), x, y) then a[y][x]
            else Rebuilt(a, b, width, height, channels, tx, ty)[y][x]
  {
    TileInside(width, height, tx, ty);
  }

  /** All tiles make the whole image. */
  lemma RebuiltWhole(a: Image, b: Image, width: nat, height: nat, channels: nat)
    requires Shape(a, width, height, channels) && Shape(b, width, height, channels)
    ensures Rebuilt(a, b, width, height, channels, 0, TileCount(height)) == a
  {
    var c := Rebuilt(a, b, width, height, channels, 0, TileCount(height));
    forall y | 0 <= y < height
      ensures c[y] == a[y]
    {
      forall x | 0 <= x < width
        ensures c[y][x] == a[y][x]
      {
        RebuiltSoFar(a, b, width, height, channels, 0, TileCount(height), x, y);
        BeforeNext(width, height, x, y, 0, 0);
      }
    }
  }
}
