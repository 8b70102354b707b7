/** What appending an image does to an icon file, and what any number of appends keeps. */
module IcoAppend {
  import opened Bytes
  import opened IcoFormat
  import opened IcoReadBack

  function Count(f: seq<byte>): nat
    requires |f| >= HEADER_SIZE
  {
    Num16(f, 4)
  }

  /** The length and offset fields of entry i. */
  function LengthOf(f: seq<byte>, i: nat): nat
    requires EntryAt(i) + ENTRY_SIZE <= |f|
  {
    Num32(f, EntryAt(i) + 8)
  }

  function OffsetOf(f: seq<byte>, i: nat): nat
    requires EntryAt(i) + ENTRY_SIZE <= |f|
  {
    Num32(f, EntryAt(i) + 12)
  }

  /** The data of entry i is behind the directory and inside the file. */
  predicate Placed(f: seq<byte>, i: nat)
    requires |f| >= HEADER_SIZE && EntryAt(i) + ENTRY_SIZE <= |f|
  {
    EntryAt(Count(f)) <= OffsetOf(f, i) && OffsetOf(f, i) + LengthOf(f, i) <= |f|
  }

  const MAX_FILE := 0x7fff_ffff

  /** A header and a directory with at least one entry, which may point anywhere. */
  predicate Directory(f: seq<byte>) {
    HEADER_SIZE <= |f| <= MAX_FILE && f[..4] == [0, 0, 1, 0] && 1 <= Count(f) && EntryAt(Count(f)) <= |f|
  }

  /** An icon file with at least one subimage. */
  ghost predicate Icon(f: seq<byte>) {
    Directory(f) && forall i :: 0 <= i < Count(f) ==> Placed(f, i)
  }

  /** What entry i points to, up to the end of the file; the length in the entry may be 0, as it is for PNG images. */
  function Blob(f: seq<byte>, i: nat): seq<byte>
    requires |f| >= HEADER_SIZE && EntryAt(i) + ENTRY_SIZE <= |f| && Placed(f, i)
  {
    f[OffsetOf(f, i)..]
  }

  /** Entry i has this length and points to these bytes. */
  predicate HasBlob(f: seq<byte>, i: nat, length: nat, data: seq<byte>) {
    && |f| >= HEADER_SIZE && EntryAt(i) + ENTRY_SIZE <= |f| && Placed(f, i) && LengthOf(f, i) == length
    && data <= Blob(f, i)
  }

  /** Entry i of f with its offset moved by the size of one entry, cut to 32 bits. */
  predicate Moved(f: seq<byte>, g: seq<byte>, i: nat)
    requires EntryAt(i) + ENTRY_SIZE <= |f| && EntryAt(i) + ENTRY_SIZE <= |g|
  {
    && g[EntryAt(i)..EntryAt(i) + 12] == f[EntryAt(i)..EntryAt(i) + 12]
    && OffsetOf(g, i) == (OffsetOf(f, i) + ENTRY_SIZE) % TWO32
  }

  /** Nothing is cut off offsets into the file. */
  lemma MovedExactly(f: seq<byte>, g: seq<byte>, i: nat)
    requires Icon(f) && i < Count(f) && EntryAt(i) + ENTRY_SIZE <= |f| && EntryAt(i) + ENTRY_SIZE <= |g| && Moved(f, g, i)
    ensures OffsetOf(g, i) == OffsetOf(f, i) + ENTRY_SIZE && Placed(f, i)
  {
    assert Placed(f, i);
  }

  /** The file g is f with room for one more entry, and something added at the end. */
  ghost predicate Grown(f: seq<byte>, g: seq<byte>)
    requires Directory(f)
  {
    var (n, first) := (Count(f), EntryAt(Count(f)));
    && |f| + ENTRY_SIZE <= |g| <= MAX_FILE && n < 32767
    && g[..4] == f[..4] && Num16(g, 4) == n + 1
    && (forall i :: 0 <= i < n ==> Moved(f, g, i))
    && g[first + ENTRY_SIZE..|f| + ENTRY_SIZE] == f[first..]
  }

  lemma EntryInside(i: nat, n: nat)
    requires i < n
    ensures EntryAt(i) + ENTRY_SIZE <= EntryAt(n)
  {
  }

  /** Everything behind the directory is found sixteen bytes further on. */
  lemma DataMoved(f: seq<byte>, g: seq<byte>, from: nat, to: nat)
    requires Icon(f) && Grown(f, g) && EntryAt(Count(f)) <= from <= to <= |f|
    ensures g[from + ENTRY_SIZE..to + ENTRY_SIZE] == f[from..to]
  {
    PartMoved(f, g, EntryAt(Count(f)), |f|, ENTRY_SIZE, from, to);
  }

  lemma PartMoved(f: seq<byte>, g: seq<byte>, first: nat, end: nat, shift: nat, from: nat, to: nat)
    requires first <= from <= to <= end <= |f| && end + shift <= |g|
    requires g[first + shift..end + shift] == f[first..end]
    ensures g[from + shift..to + shift] == f[from..to]
  {
    forall k | 0 <= k < to - from
      ensures g[from + shift..to + shift][k] == f[from..to][k]
    {
      assert g[first + shift..end + shift][from - first + k] == f[first..end][from - first + k];
    }
  }

  lemma LengthKept(f: seq<byte>, g: seq<byte>, i: nat)
    requires EntryAt(i) + ENTRY_SIZE <= |f| && EntryAt(i) + ENTRY_SIZE <= |g| && Moved(f, g, i)
    ensures LengthOf(g, i) == LengthOf(f, i)
  {
    var at := EntryAt(i);
    PartOfPart(g, at, at + 12, 8, 12);
    PartOfPart(f, at, at + 12, 8, 12);
    Num32At(g, at + 8, f[at + 8..at + 8 + 4]);
    Num32At(f, at + 8, f[at + 8..at + 8 + 4]);
  }

  /** An earlier entry still points at the same data, byte for byte, and directory and data stay apart. */
  lemma BlobKept(f: seq<byte>, g: seq<byte>, i: nat)
    requires Icon(f) && Grown(f, g) && i < Count(f)
    ensures EntryAt(i) + ENTRY_SIZE <= |g| && Placed(g, i) && LengthOf(g, i) == LengthOf(f, i)
    ensures EntryAt(i) + ENTRY_SIZE <= |f| && Placed(f, i) && OffsetOf(g, i) == OffsetOf(f, i) + ENTRY_SIZE
    ensures g[OffsetOf(g, i)..|f| + ENTRY_SIZE] == Blob(f, i)
  {
    EntryInside(i, Count(f));
    MovedExactly(f, g, i);
    LengthKept(f, g, i);
    DataMoved(f, g, OffsetOf(f, i), |f|);
    assert f[OffsetOf(f, i)..|f|] == f[OffsetOf(f, i)..];
  }

  lemma PrefixMoved(f: seq<byte>, g: seq<byte>, i: nat, length: nat, data: seq<byte>)
    requires Icon(f) && Grown(f, g) && i < Count(f) && HasBlob(f, i, length, data)
    ensures HasBlob(g, i, length, data)
  {
    BlobKept(f, g, i);
    var (s, t) := (Blob(f, i), Blob(g, i));
    assert t[..|s|] == g[OffsetOf(g, i)..|f| + ENTRY_SIZE];
  }

  /** Any image that could be read before is read as the same image afterwards. */
  lemma EarlierImageKept(f: seq<byte>, g: seq<byte>, i: nat)
    requires Icon(f) && Grown(f, g) && i < Count(f) && ReadImage(f, i).Some?
    ensures ReadImage(g, i) == ReadImage(f, i)
  {
    var d := FindImage(f, i).value;
    FoundMoved(f, g, i);
    RowsMoved(f, g, d.offset, d.offset + ENTRY_SIZE, d.width, d.height, d.bpp == 32);
  }

  lemma FoundMoved(f: seq<byte>, g: seq<byte>, i: nat)
    requires Icon(f) && Grown(f, g) && i < Count(f) && FindImage(f, i).Some?
    ensures var d := FindImage(f, i).value;
      EntryAt(Count(f)) <= d.offset <= |f|
      && FindImage(g, i) == Some(Found(d.width, d.height, d.offset + ENTRY_SIZE, d.bpp))
  {
    EntryInside(i, Count(f));
    MovedExactly(f, g, i);
    SameFields(f, g, i);
    var d := FindImage(f, i).value;
    DataMoved(f, g, d.offset, |f|);
    SameInfo(f, g, d.offset);
  }

  lemma RowsMoved(f: seq<byte>, g: seq<byte>, offset: nat, moved: nat, width: nat, height: nat, alpha: bool)
    requires Icon(f) && Grown(f, g) && EntryAt(Count(f)) <= offset && moved == offset + ENTRY_SIZE
    requires offset + INFO_SIZE + Needed(width, height, alpha) <= |f|
    ensures moved + INFO_SIZE + Needed(width, height, alpha) <= |g|
    ensures ReadRows(g[moved + INFO_SIZE..], width, height, alpha) == ReadRows(f[offset + INFO_SIZE..], width, height, alpha)
  {
    var (data, more) := (f[offset + INFO_SIZE..], g[moved + INFO_SIZE..]);
    DataMoved(f, g, offset + INFO_SIZE, |f|);
    assert more[..|data|] == g[offset + INFO_SIZE + ENTRY_SIZE..|f| + ENTRY_SIZE];
    SameRows(data, more, width, height, alpha);
  }

  lemma SameRows(data: seq<byte>, more: seq<byte>, width: nat, height: nat, alpha: bool)
    requires Needed(width, height, alpha) <= |data| && data <= more
    ensures ReadRows(more, width, height, alpha) == ReadRows(data, width, height, alpha)
  {
    forall y | 0 <= y < height
      ensures ReadRows(more, width, height, alpha)[y] == ReadRows(data, width, height, alpha)[y]
    {
      SameRowOf(data, more, width, height, alpha, y);
    }
  }

  lemma SameRowOf(data: seq<byte>, more: seq<byte>, width: nat, height: nat, alpha: bool, y: nat)
    requires Needed(width, height, alpha) <= |data| && data <= more && y < height
    ensures ReadRows(more, width, height, alpha)[y] == ReadRows(data, width, height, alpha)[y]
  {
    SameRow(data, more, width, height, alpha, height - 1 - y);
  }

  lemma SameRow(data: seq<byte>, more: seq<byte>, width: nat, height: nat, alpha: bool, k: nat)
    requires Needed(width, height, alpha) <= |data| && data <= more && k < height
    ensures ReadRowAt(more, width, height, alpha, k) == ReadRowAt(data, width, height, alpha, k)
  {
    RowFits(XorWidth(width, alpha), k, height);
    RowFits(AndWidth(width), k, height);
    SliceOfStart(more, data, XorWidth(width, alpha), k);
    if !alpha {
      var at := Area(XorWidth(width, alpha), height);
      assert data[at..] <= more[at..];
      SliceOfStart(more[at..], data[at..], AndWidth(width), k);
    }
  }

  lemma SameFields(f: seq<byte>, g: seq<byte>, i: nat)
    requires EntryAt(i) + ENTRY_SIZE <= |f| && EntryAt(i) + ENTRY_SIZE <= |g| && Moved(f, g, i)
    ensures var at := EntryAt(i);
      g[at] == f[at] && g[at + 1] == f[at + 1] && g[at + 3] == f[at + 3] && Num16(g, at + 6) == Num16(f, at + 6)
  {
    var at := EntryAt(i);
    var (s, t) := (f[at..at + 12], g[at..at + 12]);
    assert s[0] == f[at] && s[1] == f[at + 1] && s[3] == f[at + 3] && s[6] == f[at + 6] && s[7] == f[at + 7];
    assert t[0] == g[at] && t[1] == g[at + 1] && t[3] == g[at + 3] && t[6] == g[at + 6] && t[7] == g[at + 7];
  }

  lemma SameInfo(f: seq<byte>, g: seq<byte>, offset: nat)
    requires offset + INFO_SIZE <= |f| && |f| + ENTRY_SIZE <= |g|
    requires g[offset + ENTRY_SIZE..|f| + ENTRY_SIZE] == f[offset..|f|]
    ensures IsPng(g, offset + ENTRY_SIZE) == IsPng(f, offset)
    ensures Num16(g, offset + ENTRY_SIZE + 14) == Num16(f, offset + 14)
  {
    var (s, t) := (f[offset..|f|], g[offset + ENTRY_SIZE..|f| + ENTRY_SIZE]);
    assert forall k :: 0 <= k < INFO_SIZE ==> s[k] == f[offset + k] && t[k] == g[offset + ENTRY_SIZE + k];
    assert f[offset + 1] == s[1] && f[offset + 2] == s[2] && f[offset + 3] == s[3];
    assert g[offset + ENTRY_SIZE + 1] == t[1] && g[offset + ENTRY_SIZE + 2] == t[2] && g[offset + ENTRY_SIZE + 3] == t[3];
    assert f[offset + 14] == s[14] && f[offset + 15] == s[15];
    assert g[offset + ENTRY_SIZE + 14] == t[14] && g[offset + ENTRY_SIZE + 15] == t[15];
  }

  // ----- Any number of images.

  /**
   * An image, of which all rows or only some have been written; or an image that somebody else has stored, in whatever
   * form.
   */
  datatype Image = Image(shape: Shape, rows: Rows) | Foreign(length: nat, data: seq<byte>)

  predicate Proper(m: Image) {
    m.Image? ==> Storable(m.shape) && Fits(m.rows, m.shape)
  }

  /** Entry i points to the bitmap of the image, or to the foreign data. */
  ghost predicate Stores(f: seq<byte>, i: nat, m: Image)
    requires Proper(m)
  {
    if m.Image? then exists offset: nat :: StoresAt(f, i, m, offset) else HasBlob(f, i, m.length, m.data)
  }

  ghost predicate StoresAt(f: seq<byte>, i: nat, m: Image, offset: nat)
    requires Proper(m) && m.Image?
  {
    Points(f, i, m.shape, offset) && Holds(f, offset, m.rows, m.shape)
  }

  /** The file is an icon with exactly these images. */
  ghost predicate Contains(f: seq<byte>, images: seq<Image>) {
    && Icon(f) && Count(f) == |images|
    && forall i :: 0 <= i < |images| ==> Proper(images[i]) && Stores(f, i, images[i])
  }

  /** The images of a file that somebody else has written. */
  function AsTheyAre(f: seq<byte>, n: nat): (images: seq<Image>)
    requires Icon(f) && n <= Count(f)
    ensures |images| == n && forall i :: 0 <= i < n ==> Placed(f, i) && images[i] == Foreign(LengthOf(f, i), Blob(f, i))
  {
    if n == 0 then [] else assert Placed(f, n - 1); AsTheyAre(f, n - 1) + [Foreign(LengthOf(f, n - 1), Blob(f, n - 1))]
  }

  /** So every icon file contains some images. */
  lemma IconContains(f: seq<byte>)
    requires Icon(f)
    ensures Contains(f, AsTheyAre(f, Count(f)))
  {
    var images := AsTheyAre(f, Count(f));
    forall i | 0 <= i < |images|
      ensures Proper(images[i]) && Stores(f, i, images[i])
    {
      EntryInside(i, Count(f));
      assert HasBlob(f, i, LengthOf(f, i), Blob(f, i));
    }
  }

  /** Bytes at the end are just more of what has been added. */
  lemma GrownMore(f: seq<byte>, g: seq<byte>, more: seq<byte>)
    requires Directory(f) && Grown(f, g) && |g| + |more| <= MAX_FILE
    ensures Grown(f, g + more)
  {
    var h := g + more;
    assert h[..|g|] == g && h[..4] == g[..4];
    forall i | 0 <= i < Count(f)
      ensures Moved(f, h, i)
    {
      EntryInside(i, Count(f));
      assert Moved(f, g, i);
      assert h[EntryAt(i)..EntryAt(i) + 12] == g[EntryAt(i)..EntryAt(i) + 12];
    }
    var (from, to) := (EntryAt(Count(f)) + ENTRY_SIZE, |f| + ENTRY_SIZE);
    assert h[from..to] == g[from..to];
  }

  lemma StoredKept(f: seq<byte>, g: seq<byte>, i: nat, m: Image)
    requires Icon(f) && Grown(f, g) && i < Count(f) && Proper(m) && Stores(f, i, m)
    ensures Stores(g, i, m)
  {
    if m.Image? {
      BitmapKept(f, g, i, m);
    } else {
      PrefixMoved(f, g, i, m.length, m.data);
    }
  }

  lemma BitmapKept(f: seq<byte>, g: seq<byte>, i: nat, m: Image)
    requires Icon(f) && Grown(f, g) && i < Count(f) && Proper(m) && m.Image? && Stores(f, i, m)
    ensures Stores(g, i, m)
  {
    var offset: nat :| StoresAt(f, i, m, offset);
    EntryInside(i, Count(f));
    MovedExactly(f, g, i);
    EntryBack(f, i, m.shape, offset);
    DataMoved(f, g, offset, offset + |Dib(m.rows, m.shape)|);
    EntryMoved(f, g, i, m.shape, offset);
    assert StoresAt(g, i, m, offset + ENTRY_SIZE);
  }

  lemma Le32Of(s: seq<byte>, at: nat, n: nat)
    requires at + 4 <= |s| && Num32(s, at) == n
    ensures s[at..at + 4] == Le32(n)
  {
    var (a, b) := (Num16(s, at), Num16(s, at + 2));
    assert n % 65536 == a && n / 65536 == b;
    Le16Of(s, at);
    Le16Of(s, at + 2);
  }

  lemma Le16Of(s: seq<byte>, at: nat)
    requires at + 2 <= |s|
    ensures s[at..at + 2] == Le16(Num16(s, at))
  {
  }

  lemma EntryMoved(f: seq<byte>, g: seq<byte>, i: nat, s: Shape, offset: nat)
    requires Storable(s) && Points(f, i, s, offset) && OffsetOf(f, i) == offset
    requires EntryAt(i) + ENTRY_SIZE <= |g| && Moved(f, g, i) && OffsetOf(g, i) == offset + ENTRY_SIZE
    ensures Points(g, i, s, offset + ENTRY_SIZE)
  {
    var at := EntryAt(i);
    var e := Entry(s, INFO_SIZE + MaskedBytes(s), offset);
    Le32Of(g, at + 12, offset + ENTRY_SIZE);
    assert g[at..at + ENTRY_SIZE] == g[at..at + 12] + g[at + 12..at + 16];
    assert f[at..at + 12] == e[..12];
    assert Entry(s, INFO_SIZE + MaskedBytes(s), offset + ENTRY_SIZE) == e[..12] + Le32(offset + ENTRY_SIZE);
  }

  // ----- A file that ends where the bitmap of a new image begins.

  /** The file up to the bitmap of a new image: the earlier images, and an entry for the new one. */
  ghost predicate Based(base: seq<byte>, images: seq<Image>, s: Shape) {
    && Storable(s) && HEADER_SIZE <= |base| && |base| + INFO_SIZE + MaskedBytes(s) <= MAX_FILE
    && base[..4] == [0, 0, 1, 0] && Count(base) == |images| + 1 && EntryAt(Count(base)) <= |base|
    && Points(base, |images|, s, |base|)
    && forall i :: 0 <= i < |images| ==> Proper(images[i]) && Placed(base, i) && Stores(base, i, images[i])
  }

  lemma LengthBack(f: seq<byte>, i: nat, s: Shape, offset: nat)
    requires Storable(s) && Points(f, i, s, offset) && INFO_SIZE + MaskedBytes(s) < TWO32
    ensures LengthOf(f, i) == INFO_SIZE + MaskedBytes(s)
  {
    var (at, length) := (EntryAt(i), INFO_SIZE + MaskedBytes(s));
    PartOfPart(f, at, at + ENTRY_SIZE, 8, 12);
    assert Entry(s, length, offset)[8..12] == Le32(length);
    Num32At(f, at + 8, Le32(length));
    Le32Back(length);
  }

  /** What an entry says does not depend on what follows. */
  lemma StoredInMore(f: seq<byte>, more: seq<byte>, i: nat, m: Image)
    requires Proper(m) && Stores(f, i, m)
    ensures Stores(f + more, i, m)
  {
    if m.Image? {
      BitmapInMore(f, more, i, m);
    } else {
      BlobInMore(f, more, i, m.length, m.data);
    }
  }

  lemma BlobInMore(f: seq<byte>, more: seq<byte>, i: nat, length: nat, data: seq<byte>)
    requires HasBlob(f, i, length, data)
    ensures HasBlob(f + more, i, length, data)
  {
    var from := OffsetOf(f, i);
    assert (f + more)[from..] == f[from..] + more;
  }

  lemma BitmapInMore(f: seq<byte>, more: seq<byte>, i: nat, m: Image)
    requires Proper(m) && m.Image? && Stores(f, i, m)
    ensures Stores(f + more, i, m)
  {
    var offset: nat :| StoresAt(f, i, m, offset);
    assert (f + more)[..|f|] == f;
    var (at, n) := (EntryAt(i), |Dib(m.rows, m.shape)|);
    assert (f + more)[at..at + ENTRY_SIZE] == f[at..at + ENTRY_SIZE];
    assert (f + more)[offset..offset + n] == f[offset..offset + n];
    assert StoresAt(f + more, i, m, offset);
  }

  lemma PlacedInMore(f: seq<byte>, more: seq<byte>, i: nat)
    requires |f| >= HEADER_SIZE && EntryAt(i) + ENTRY_SIZE <= |f| && Placed(f, i)
    ensures Placed(f + more, i)
  {
  }

  lemma EarlierStored(base: seq<byte>, images: seq<Image>, s: Shape, more: seq<byte>, i: nat)
    requires Based(base, images, s) && i < |images|
    ensures EntryAt(i) + ENTRY_SIZE <= |base + more| && Placed(base + more, i) && Stores(base + more, i, images[i])
  {
    EntryInside(i, Count(base));
    assert Placed(base, i) && Stores(base, i, images[i]);
    PlacedInMore(base, more, i);
    StoredInMore(base, more, i, images[i]);
  }

  lemma SliceBehind(s: seq<byte>, t: seq<byte>)
    ensures (s + t)[|s|..|s| + |t|] == t
  {
  }

  lemma SliceBefore(s: seq<byte>, t: seq<byte>, from: nat, to: nat)
    requires from <= to <= |s|
    ensures (s + t)[from..to] == s[from..to]
  {
  }

  lemma LastStored(base: seq<byte>, images: seq<Image>, m: Image)
    requires m.Image? && Proper(m) && Based(base, images, m.shape)
    ensures var f := base + Dib(m.rows, m.shape);
      EntryAt(|images|) + ENTRY_SIZE <= |f| && Placed(f, |images|) && Stores(f, |images|, m)
  {
    var (f, n, d) := (base + Dib(m.rows, m.shape), |images|, Dib(m.rows, m.shape));
    SliceBehind(base, d);
    SliceBefore(base, d, EntryAt(n), EntryAt(n) + ENTRY_SIZE);
    assert StoresAt(f, n, m, |base|);
    EntryBack(f, n, m.shape, |base|);
    LengthBack(f, n, m.shape, |base|);
  }

  /** With the bitmap the file contains one more image, whichever of its rows have been written. */
  lemma BasedContains(base: seq<byte>, images: seq<Image>, m: Image)
    requires m.Image? && Proper(m) && Based(base, images, m.shape)
    ensures Contains(base + Dib(m.rows, m.shape), images + [m])
  {
    var (f, all) := (base + Dib(m.rows, m.shape), images + [m]);
    SameHeader(base, Dib(m.rows, m.shape));
    forall i | 0 <= i < |all|
      ensures EntryAt(i) + ENTRY_SIZE <= |f| && Placed(f, i) && Proper(all[i]) && Stores(f, i, all[i])
    {
      EachStored(base, images, m, i);
    }
  }

  lemma SameHeader(base: seq<byte>, more: seq<byte>)
    requires |base| >= HEADER_SIZE
    ensures (base + more)[..4] == base[..4] && Count(base + more) == Count(base)
  {
  }

  lemma EachStored(base: seq<byte>, images: seq<Image>, m: Image, i: nat)
    requires m.Image? && Proper(m) && Based(base, images, m.shape) && i <= |images|
    ensures var (f, all) := (base + Dib(m.rows, m.shape), images + [m]);
      EntryAt(i) + ENTRY_SIZE <= |f| && Placed(f, i) && Proper(all[i]) && Stores(f, i, all[i])
  {
    if i < |images| {
      EarlierStored(base, images, m.shape, Dib(m.rows, m.shape), i);
    } else {
      LastStored(base, images, m);
    }
  }

  /** Making room for an entry, and writing it, keeps the earlier images. */
  lemma GrownBased(f: seq<byte>, base: seq<byte>, images: seq<Image>, s: Shape)
    requires Contains(f, images) && Grown(f, base) && |base| == |f| + ENTRY_SIZE
    requires Storable(s) && |base| + INFO_SIZE + MaskedBytes(s) <= MAX_FILE
    requires Points(base, Count(f), s, |base|)
    ensures Based(base, images, s)
  {
    forall i | 0 <= i < |images|
      ensures Placed(base, i) && Stores(base, i, images[i])
    {
      BlobKept(f, base, i);
      StoredKept(f, base, i, images[i]);
    }
  }

  /** A new file. */
  lemma CreatedBased(s: Shape)
    requires Storable(s) && HEADER_SIZE + ENTRY_SIZE + INFO_SIZE + MaskedBytes(s) <= MAX_FILE
    ensures Based([0, 0, 1, 0, 1, 0] + Entry(s, INFO_SIZE + MaskedBytes(s), HEADER_SIZE + ENTRY_SIZE), [], s)
  {
    var (head, e) := ([0, 0, 1, 0, 1, 0], Entry(s, INFO_SIZE + MaskedBytes(s), HEADER_SIZE + ENTRY_SIZE));
    assert (head + e)[..4] == [0, 0, 1, 0];
    assert (head + e)[6..22] == e;
  }

  /** Every complete image that this writer has written is read back from the file. */
  lemma ContainedBack(f: seq<byte>, images: seq<Image>, i: nat)
    requires Contains(f, images) && i < |images| && images[i].Image? && Complete(images[i].rows)
    ensures ReadImage(f, i) == Some(SeenRows(images[i].rows, images[i].shape))
  {
    var m := images[i];
    var offset: nat :| StoresAt(f, i, m, offset);
    ImageBack(f, i, m.rows, m.shape, offset);
  }
}
