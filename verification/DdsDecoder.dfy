/** Decoding the blocks of an image in chunks of block rows that run in any order. */
module DdsDecoder {
  import opened Bytes
  import opened DdsBlocks
  import opened DdsBuffer

  // ----- Chunks.

  /** The block rows from begin to just before end. */
  datatype Chunk = Chunk(begin: nat, end: nat)

  /** Block rows that one task decodes at least. */
  const MIN_ITEMS := 8

  function Max(a: int, b: int): int {
    if a < b then b else a
  }

  function ChunkSize(rows: nat, maxThreads: nat): (size: int)
    ensures rows > 0 ==> size > 0
  {
    if maxThreads == 1 then rows else Max(MIN_ITEMS, rows / Max(1, 2 * maxThreads))
  }

  /** Chunks of the given size, the last one possibly smaller. */
  function Chunked(begin: nat, end: nat, size: int): seq<Chunk>
    requires begin < end ==> size > 0
    decreases end - begin
  {
    if begin >= end then [] else [Chunk(begin, Min(end, begin + size))] + Chunked(begin + size, end, size)
  }

  /** How many of the chunks have the block row. */
  function Times(chunks: seq<Chunk>, row: nat): nat {
    if chunks == [] then 0 else (if chunks[0].begin <= row < chunks[0].end then 1 else 0) + Times(chunks[1..], row)
  }

  /** Every block row is in exactly one of the chunks. */
  ghost predicate Splits(chunks: seq<Chunk>, rows: nat) {
    forall row: nat :: Times(chunks, row) == if row < rows then 1 else 0
  }

  lemma {:induction false} ChunkedSplits(begin: nat, end: nat, size: int, row: nat)
    requires begin < end ==> size > 0
    ensures Times(Chunked(begin, end, size), row) == if begin <= row < end then 1 else 0
    decreases end - begin
  {
    if begin < end {
      ChunkedSplits(begin + size, end, size, row);
    }
  }

  lemma {:induction false} TimesBoth(a: seq<Chunk>, b: seq<Chunk>, row: nat)
    ensures Times(a + b, row) == Times(a, row) + Times(b, row)
  {
    if a == [] {
      assert a + b == b;
    } else {
      TimesBoth(a[1..], b, row);
      assert (a + b)[1..] == a[1..] + b;
    }
  }

  /** Lists with the same elements still have the same elements without one of them. */
  lemma Without(a: seq<Chunk>, b: seq<Chunk>, k: nat)
    requires a != [] && multiset(a) == multiset(b) && k < |b| && b[k] == a[0]
    ensures multiset(a[1..]) == multiset(b[..k] + b[k + 1..])
  {
    WithoutOne(a, 0);
    assert a[..0] + a[1..] == a[1..];
    WithoutOne(b, k);
  }

  lemma WithoutOne(b: seq<Chunk>, k: nat)
    requires k < |b|
    ensures multiset(b[..k] + b[k + 1..]) == multiset(b) - multiset{b[k]}
  {
    assert b == b[..k] + ([b[k]] + b[k + 1..]);
  }

  lemma TimesWithout(b: seq<Chunk>, k: nat, row: nat)
    requires k < |b|
    ensures Times(b, row) == Times([b[k]], row) + Times(b[..k] + b[k + 1..], row)
  {
    TimesBoth(b[..k], b[k + 1..], row);
    TimesBoth([b[k]], b[k + 1..], row);
    TimesBoth(b[..k], [b[k]] + b[k + 1..], row);
    assert b == b[..k] + ([b[k]] + b[k + 1..]);
  }

  /** The order of the chunks does not matter. */
  lemma {:induction false} TimesInAnyOrder(a: seq<Chunk>, b: seq<Chunk>, row: nat)
    requires multiset(a) == multiset(b)
    ensures Times(a, row) == Times(b, row)
  {
    if a == [] {
      assert b == [];
    } else {
      assert a[0] in multiset(b);
      var k :| 0 <= k < |b| && b[k] == a[0];
      Without(a, b, k);
      TimesInAnyOrder(a[1..], b[..k] + b[k + 1..], row);
      TimesWithout(b, k, row);
    }
  }

  /** However many threads there are, their tasks split the rows, in any order. */
  lemma TasksSplit(rows: nat, maxThreads: nat, order: seq<Chunk>)
    requires multiset(order) == multiset(Chunked(0, rows, ChunkSize(rows, maxThreads)))
    ensures Splits(order, rows)
  {
    forall row: nat
      ensures Times(order, row) == if row < rows then 1 else 0
    {
      ChunkedSplits(0, rows, ChunkSize(rows, maxThreads), row);
      TimesInAnyOrder(order, Chunked(0, rows, ChunkSize(rows, maxThreads)), row);
    }
  }

  /** Chunks of a split end where the image ends, unless they are empty. */
  lemma {:induction false} EndsInside(chunks: seq<Chunk>, rows: nat, k: nat)
    requires Splits(chunks, rows) && k < |chunks| && chunks[k].begin < chunks[k].end
    ensures chunks[k].end <= rows
  {
    var row := chunks[k].end - 1;
    assert chunks == chunks[..k] + ([chunks[k]] + chunks[k + 1..]);
    TimesBoth(chunks[..k], [chunks[k]] + chunks[k + 1..], row);
    assert Times(chunks, row) == if row < rows then 1 else 0;
  }

  // ----- The blocks of chunks.

  /** The first blocks of a row. */
  function RowPlaces(row: nat, cols: nat): (places: seq<Place>)
    ensures |places| == cols
  {
    if cols == 0 then [] else RowPlaces(row, cols - 1) + [Place(cols - 1, row)]
  }

  /** All blocks of some rows. */
  function ChunkPlaces(columns: nat, begin: nat, end: nat): seq<Place>
    requires begin <= end
    decreases end
  {
    if begin == end then [] else ChunkPlaces(columns, begin, end - 1) + RowPlaces(end - 1, columns)
  }

  lemma RowOfChunk(columns: nat, begin: nat, row: nat, next: nat)
    requires begin <= row && next == row + 1
    ensures ChunkPlaces(columns, begin, next) == ChunkPlaces(columns, begin, row) + RowPlaces(row, columns)
  {
  }

  /** The blocks of some chunks, in the order in which the chunks run. */
  function PlacesOf(columns: nat, chunks: seq<Chunk>): seq<Place> {
    if chunks == [] then []
    else PlacesOf(columns, chunks[..|chunks| - 1]) + PlacesOfChunk(columns, chunks[|chunks| - 1])
  }

  function PlacesOfChunk(columns: nat, chunk: Chunk): seq<Place> {
    if chunk.begin < chunk.end then ChunkPlaces(columns, chunk.begin, chunk.end) else []
  }

  /** How often a block occurs. */
  function Count(order: seq<Place>, p: Place): nat {
    if order == [] then 0 else (if order[0] == p then 1 else 0) + Count(order[1..], p)
  }

  lemma {:induction false} CountBoth(a: seq<Place>, b: seq<Place>, p: Place)
    ensures Count(a + b, p) == Count(a, p) + Count(b, p)
  {
    if a == [] {
      assert a + b == b;
    } else {
      CountBoth(a[1..], b, p);
      assert (a + b)[1..] == a[1..] + b;
    }
  }

  lemma {:induction false} CountIs(order: seq<Place>, p: Place)
    ensures Count(order, p) == multiset(order)[p]
  {
    if order != [] {
      CountIs(order[1..], p);
      assert order == [order[0]] + order[1..];
    }
  }

  lemma {:induction false} RowHas(row: nat, cols: nat, p: Place)
    ensures Count(RowPlaces(row, cols), p) == if p.row == row && p.col < cols then 1 else 0
  {
    if cols > 0 {
      var before: nat := cols - 1;
      RowHas(row, before, p);
      CountBoth(RowPlaces(row, before), [Place(before, row)], p);
    }
  }

  lemma {:induction false} ChunkHas(columns: nat, begin: nat, end: nat, p: Place)
    requires begin <= end
    ensures Count(ChunkPlaces(columns, begin, end), p) == if begin <= p.row < end && p.col < columns then 1 else 0
    decreases end
  {
    if begin < end {
      var last: nat := end - 1;
      ChunkHas(columns, begin, last, p);
      RowHas(last, columns, p);
      CountBoth(ChunkPlaces(columns, begin, last), RowPlaces(last, columns), p);
    }
  }

  lemma {:induction false} ChunksHave(columns: nat, chunks: seq<Chunk>, p: Place)
    ensures Count(PlacesOf(columns, chunks), p) == if p.col < columns then Times(chunks, p.row) else 0
  {
    if chunks != [] {
      var init, chunk := chunks[..|chunks| - 1], chunks[|chunks| - 1];
      ChunksHave(columns, init, p);
      OneChunkMore(columns, init, chunk, chunks, p);
    }
  }

  lemma OneChunkMore(columns: nat, init: seq<Chunk>, chunk: Chunk, chunks: seq<Chunk>, p: Place)
    requires chunks == init + [chunk] && init == chunks[..|chunks| - 1]
    ensures Count(PlacesOf(columns, chunks), p)
         == Count(PlacesOf(columns, init), p) + if p.col < columns then Times([chunk], p.row) else 0
    ensures Times(chunks, p.row) == Times(init, p.row) + Times([chunk], p.row)
  {
    TimesBoth(init, [chunk], p.row);
    CountBoth(PlacesOf(columns, init), PlacesOfChunk(columns, chunk), p);
    OneChunkHas(columns, chunk, p);
  }

  lemma OneChunkHas(columns: nat, chunk: Chunk, p: Place)
    ensures Count(PlacesOfChunk(columns, chunk), p) == if p.col < columns then Times([chunk], p.row) else 0
  {
    if chunk.begin < chunk.end {
      ChunkHas(columns, chunk.begin, chunk.end, p);
    }
  }

  /** The chunks of a split have every block exactly once. */
  lemma SplitIsComplete(s: Source, chunks: seq<Chunk>)
    requires Splits(chunks, s.Rows())
    ensures Complete(PlacesOf(s.Columns(), chunks), s)
  {
    forall p: Place
      ensures multiset(PlacesOf(s.Columns(), chunks))[p] == if Inside(p, s) then 1 else 0
    {
      ChunksHave(s.Columns(), chunks, p);
      CountIs(PlacesOf(s.Columns(), chunks), p);
    }
  }

  /**
   * The tasks may take turns after every block, in whatever way: every pixel is written once, and it is what it should
   * be.
   */
  lemma AnyInterleaving(s: Source, buf: seq<byte>, chunks: seq<Chunk>, order: seq<Place>, x: nat, y: nat)
    requires Proper(s) && Sized(buf, s) && x < s.width && y < s.height
    requires Splits(chunks, s.Rows()) && multiset(order) == multiset(PlacesOf(s.Columns(), chunks))
    ensures AllInside(order, s) && Shown(s, WriteAll(s, buf, order), x, y) == PixelOf(s, x, y)
    ensures exists k :: 0 <= k < |order| && InBlock(x, y, order[k])
                        && forall j :: 0 <= j < |order| && InBlock(x, y, order[j]) ==> j == k
  {
    SplitIsComplete(s, chunks);
    AllBlocks(s, buf, order, x, y);
  }

  lemma ChunkDoes(columns: nat, begin: nat, end: nat, x: nat, y: nat)
    requires begin <= end && x / BLOCK < columns
    ensures Done(x, y, ChunkPlaces(columns, begin, end)) <==> begin <= y / BLOCK < end
  {
    var (places, p) := (ChunkPlaces(columns, begin, end), Place(x / BLOCK, y / BLOCK));
    ChunkHas(columns, begin, end, p);
    CountIs(places, p);
    if p in places {
      var k :| 0 <= k < |places| && places[k] == p;
      assert InBlock(x, y, places[k]);
    }
    if Done(x, y, places) {
      var k :| 0 <= k < |places| && InBlock(x, y, places[k]);
      OneBlock(places[k], p, x, y);
      assert places[k] in multiset(places);
    }
  }

  lemma ChunkInside(s: Source, begin: nat, end: nat)
    requires begin <= end <= s.Rows()
    ensures AllInside(ChunkPlaces(s.Columns(), begin, end), s)
  {
    var places := ChunkPlaces(s.Columns(), begin, end);
    forall k | 0 <= k < |places|
      ensures Inside(places[k], s)
    {
      assert places[k] in multiset(places);
      CountIs(places, places[k]);
      ChunkHas(s.Columns(), begin, end, places[k]);
    }
  }

  /** A task sets the pixels of its rows to what they should be, and no others. */
  lemma ChunkWrites(s: Source, buf: seq<byte>, begin: nat, end: nat, x: nat, y: nat)
    requires Proper(s) && Sized(buf, s) && begin <= end <= s.Rows() && x < s.width && y < s.height
    ensures AllInside(ChunkPlaces(s.Columns(), begin, end), s)
    ensures Shown(s, WriteAll(s, buf, ChunkPlaces(s.Columns(), begin, end)), x, y)
         == if begin <= y / BLOCK < end then PixelOf(s, x, y) else Shown(s, buf, x, y)
  {
    ChunkInside(s, begin, end);
    InsideBlock(x, s.width);
    AnyOrder(s, buf, ChunkPlaces(s.Columns(), begin, end), x, y);
    ChunkDoes(s.Columns(), begin, end, x, y);
  }

  /** Two tasks never have the same row of pixels. */
  lemma ChunksApart(chunks: seq<Chunk>, rows: nat, j: nat, k: nat, y: nat)
    requires Splits(chunks, rows) && j < k < |chunks| && chunks[j].begin <= y / BLOCK < chunks[j].end
    ensures !(chunks[k].begin <= y / BLOCK < chunks[k].end)
  {
    var row := y / BLOCK;
    assert chunks == chunks[..k] + ([chunks[k]] + chunks[k + 1..]);
    assert chunks[..k] == chunks[..j] + ([chunks[j]] + chunks[j + 1..k]);
    TimesBoth(chunks[..k], [chunks[k]] + chunks[k + 1..], row);
    TimesBoth(chunks[..j], [chunks[j]] + chunks[j + 1..k], row);
    assert Times(chunks, row) <= 1;
  }

  // ----- The tasks.

  method Copy(rgba: array<byte>, dst: nat, block: seq<byte>, src: nat, n: nat)
    requires src + n <= |block| && dst + n <= rgba.Length
    modifies rgba
    ensures rgba[..] == Over(old(rgba[..]), dst, Part(block, src, n))
  {
    forall k | 0 <= k < n {
      rgba[dst + k] := block[src + k];
    }
  }

  /** Rows of a block below the image are left out. */
  lemma {:induction false} BelowImage(s: Source, buf: seq<byte>, p: Place, n: nat)
    requires Proper(s) && Sized(buf, s) && Inside(p, s) && n <= BLOCK && (n < BLOCK ==> BLOCK * p.row + n >= s.height)
    ensures WriteRows(s, buf, p, n) == WriteBlock(s, buf, p)
    decreases BLOCK - n
  {
    if n < BLOCK {
      BelowImage(s, buf, p, n + 1);
    }
  }

  /** Where row n of a decoded block starts. */
  function RowStart(size: nat, n: nat): nat {
    Area(size, BLOCK * n)
  }

  lemma NextSource(size: nat, n: nat, next: nat)
    requires next == n + 1
    ensures RowStart(size, next) == RowStart(size, n) + Area(size, BLOCK)
  {
    AreaAddHeight(size, BLOCK * n, BLOCK, BLOCK * next);
  }

  /** Copy the part of row n of a decoded block that is inside the image. */
  method CopyRow(rgba: array<byte>, s: Source, block: seq<byte>, src: nat, dst: nat, cols: nat,
                 ghost p: Place, ghost n: nat, ghost x: nat, ghost line: nat)
    requires Proper(s) && Sized(rgba[..], s) && Inside(p, s) && n < BLOCK
    requires x == BLOCK * p.col && line == BLOCK * p.row + n < s.height
    requires block == BlockAt(s, p) && src == RowStart(s.Pixel(), n) && cols == Cols(s, p) && dst == Offset(s, x, line)
    modifies rgba
    ensures rgba[..] == WriteRow(s, old(rgba[..]), p, n)
  {
    RowPartFits(s, p, BLOCK * n, cols, n);
    PieceInside(s, x, line, cols);
    Copy(rgba, dst, block, src, Area(s.Pixel(), cols));
  }

  /** Copy the rows of a decoded block to where they belong, but none that start at yend or below. */
  method CopyBlock(rgba: array<byte>, s: Source, block: seq<byte>, x: nat, y: nat, yend: nat, ghost p: Place)
    requires Proper(s) && Sized(rgba[..], s) && Inside(p, s) && x == BLOCK * p.col && y == BLOCK * p.row < yend
    requires block == BlockAt(s, p) && yend <= s.height && (yend < s.height ==> y + BLOCK <= yend)
    modifies rgba
    ensures rgba[..] == WriteBlock(s, old(rgba[..]), p)
  {
    ghost var start := rgba[..];
    var src, dst := 0, Offset(s, x, y);
    var py: nat := 0;
    ghost var line: nat := y;
    while py < BLOCK && y + py < yend
      invariant py <= BLOCK && line == y + py <= yend
      invariant src == RowStart(s.Pixel(), py)
      invariant dst == Offset(s, x, line)
      invariant rgba[..] == WriteRows(s, start, p, py)
    {
      var next: nat := py + 1;
      ghost var below: nat := line + 1;
      CopyRow(rgba, s, block, src, dst, Min(BLOCK, s.width - x), p, py, x, line);
      NextRows(s, start, p, py, next);
      NextSource(s.Pixel(), py, next);
      OffsetBelow(s, x, line, below);
      src := src + Area(s.Pixel(), BLOCK);
      dst := dst + Area(s.Pixel(), s.width);
      py, line := next, below;
    }
    BelowImage(s, start, p, py);
  }

  lemma NextBlock(s: Source, row: nat, col: nat, next: nat)
    requires next == col + 1
    ensures BlockOffset(s, Place(next, row)) == BlockOffset(s, Place(col, row)) + BlockSize(s.cmp)
  {
  }

  /** After the last block of a row comes the first one of the next row. */
  lemma NextRow(s: Source, row: nat, next: nat)
    requires next == row + 1
    ensures BlockOffset(s, Place(s.Columns(), row)) == BlockOffset(s, Place(0, next))
  {
  }

  lemma LastRow(s: Source, row: nat, ybe: nat)
    requires row <= ybe <= s.Rows() && BLOCK * row >= Min(ybe * BLOCK, s.height)
    ensures row == ybe
  {
  }

  /** Decode the blocks of some block rows; their bytes are read in turn. */
  method DecodeChunk(rgba: array<byte>, s: Source, ybb: nat, ybe: nat)
    requires Proper(s) && Sized(rgba[..], s) && ybb <= ybe <= s.Rows()
    modifies rgba
    ensures AllInside(ChunkPlaces(s.Columns(), ybb, ybe), s)
    ensures rgba[..] == WriteAll(s, old(rgba[..]), ChunkPlaces(s.Columns(), ybb, ybe))
  {
    ghost var start := rgba[..];
    var yend := Min(ybe * BLOCK, s.height);
    var src := Area(BlockSize(s.cmp), Area(s.Columns(), ybb));
    var y: nat := ybb * BLOCK;
    ghost var row: nat := ybb;
    ghost var places: seq<Place> := [];
    while y < yend
      invariant y == BLOCK * row && ybb <= row <= ybe
      invariant src == BlockOffset(s, Place(0, row))
      invariant places == ChunkPlaces(s.Columns(), ybb, row)
      invariant AllInside(places, s) && rgba[..] == WriteAll(s, start, places)
    {
      ghost var next: nat := row + 1;
      src, places := DecodeRow(rgba, s, src, y, yend, row, start, places);
      NextRow(s, row, next);
      RowOfChunk(s.Columns(), ybb, row, next);
      row := next;
      y := y + BLOCK;
    }
    LastRow(s, row, ybe);
  }

  /** Decode the block whose bytes start at src. */
  method DecodeBlock(rgba: array<byte>, s: Source, src: nat, x: nat, y: nat, yend: nat, ghost p: Place)
    requires Proper(s) && Sized(rgba[..], s) && Inside(p, s) && x == BLOCK * p.col && y == BLOCK * p.row < yend
    requires src == BlockOffset(s, p) && yend <= s.height && (yend < s.height ==> y + BLOCK <= yend)
    modifies rgba
    ensures rgba[..] == WriteBlock(s, old(rgba[..]), p)
  {
    BlockInside(s, p);
    var block := s.decode(s.data[src..src + BlockSize(s.cmp)]);
    CopyBlock(rgba, s, block, x, y, yend, p);
  }

  lemma NextPlace(row: nat, col: nat, next: nat, before: seq<Place>, done: seq<Place>)
    requires next == col + 1 && done == RowPlaces(row, col)
    ensures RowPlaces(row, next) == done + [Place(col, row)]
    ensures before + (done + [Place(col, row)]) == (before + done) + [Place(col, row)]
  {
    Assoc(before, done, [Place(col, row)]);
  }

  lemma LastColumn(s: Source, col: nat)
    requires col <= s.Columns() && BLOCK * col >= s.width
    ensures col == s.Columns()
  {
  }

  /** Decode the blocks of one block row. */
  method DecodeRow(rgba: array<byte>, s: Source, from: nat, y: nat, yend: nat,
                   ghost row: nat, ghost start: seq<byte>, ghost before: seq<Place>)
    returns (src: nat, ghost places: seq<Place>)
    requires Proper(s) && Sized(start, s) && y == BLOCK * row < yend && from == BlockOffset(s, Place(0, row))
    requires yend <= s.height && (yend < s.height ==> y + BLOCK <= yend)
    requires AllInside(before, s) && rgba[..] == WriteAll(s, start, before)
    modifies rgba
    ensures src == BlockOffset(s, Place(s.Columns(), row)) && places == before + RowPlaces(row, s.Columns())
    ensures AllInside(places, s) && rgba[..] == WriteAll(s, start, places)
  {
    src, places := from, before;
    var x: nat := 0;
    ghost var col: nat := 0;
    ghost var done: seq<Place> := [];
    while x < s.width
      invariant x == BLOCK * col && col <= s.Columns()
      invariant src == BlockOffset(s, Place(col, row))
      invariant done == RowPlaces(row, col)
      invariant places == before + done
      invariant AllInside(places, s)
      invariant rgba[..] == WriteAll(s, start, places)
    {
      ghost var p, next: nat := Place(col, row), col + 1;
      DecodeBlock(rgba, s, src, x, y, yend, p);
      NextBlock(s, row, col, next);
      WriteAllNext(s, start, places, p);
      NextPlace(row, col, next, before, done);
      places, done := places + [p], done + [p];
      src := src + BlockSize(s.cmp);
      x := x + BLOCK;
      col := next;
    }
    LastColumn(s, col);
  }

  /** The tasks that the rows are split into. */
  method ParallelForChunked(rows: nat, maxThreads: nat) returns (tasks: seq<Chunk>)
    ensures tasks == Chunked(0, rows, ChunkSize(rows, maxThreads))
  {
    var size := ChunkSize(rows, maxThreads);
    var begin := 0;
    tasks := [];
    while begin < rows
      invariant 0 <= begin
      invariant tasks + Chunked(begin, rows, size) == Chunked(0, rows, size)
    {
      Assoc(tasks, [Chunk(begin, Min(rows, begin + size))], Chunked(begin + size, rows, size));
      tasks := tasks + [Chunk(begin, Min(rows, begin + size))];
      begin := begin + size;
    }
  }

  /** The tasks in any order: each time one that is left is the next to run. */
  method InSomeOrder(tasks: seq<Chunk>) returns (order: seq<Chunk>)
    ensures multiset(order) == multiset(tasks)
  {
    var todo := tasks;
    order := [];
    while todo != []
      invariant multiset(order) + multiset(todo) == multiset(tasks)
      decreases |todo|
    {
      var k :| 0 <= k < |todo|;
      WithoutOne(todo, k);
      order, todo := order + [todo[k]], todo[..k] + todo[k + 1..];
    }
  }

  /** The image, if each of the tasks for so many threads runs once, one after the other in any order. */
  method DecompressImage(rgba: array<byte>, s: Source, maxThreads: nat)
    requires Proper(s) && Sized(rgba[..], s)
    modifies rgba
    ensures Sized(rgba[..], s)
    ensures forall x: nat, y: nat :: x < s.width && y < s.height ==> Shown(s, rgba[..], x, y) == PixelOf(s, x, y)
  {
    var tasks := ParallelForChunked(s.Rows(), maxThreads);
    var order := InSomeOrder(tasks);
    TasksSplit(s.Rows(), maxThreads, order);
    RunTasks(rgba, s, order);
  }

  method RunTasks(rgba: array<byte>, s: Source, order: seq<Chunk>)
    requires Proper(s) && Sized(rgba[..], s) && Splits(order, s.Rows())
    modifies rgba
    ensures Sized(rgba[..], s)
    ensures forall x: nat, y: nat :: x < s.width && y < s.height ==> Shown(s, rgba[..], x, y) == PixelOf(s, x, y)
  {
    ghost var start := rgba[..];
    ghost var places: seq<Place> := [];
    for k := 0 to |order|
      invariant places == PlacesOf(s.Columns(), order[..k])
      invariant AllInside(places, s) && rgba[..] == WriteAll(s, start, places)
    {
      ghost var now := rgba[..];
      assert order[..k + 1][..k] == order[..k];
      if order[k].begin < order[k].end {
        EndsInside(order, s.Rows(), k);
        DecodeChunk(rgba, s, order[k].begin, order[k].end);
      }
      WriteAllBoth(s, start, places, PlacesOfChunk(s.Columns(), order[k]));
      places := places + PlacesOfChunk(s.Columns(), order[k]);
    }
    assert order[..|order|] == order;
    SplitIsComplete(s, order);
    forall x: nat, y: nat | x < s.width && y < s.height
      ensures Shown(s, rgba[..], x, y) == PixelOf(s, x, y)
    {
      AllBlocks(s, start, places, x, y);
    }
  }
}
