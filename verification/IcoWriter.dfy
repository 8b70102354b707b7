/** The icon writer: a new file, or one more image in an existing file, which is rearranged in place. */
module IcoWriter {
  import opened Bytes
  import opened IcoFormat
  import opened IcoReadBack
  import opened IcoAppend

  /** A file that is read and written at any position. */
  class File {
    var data: seq<byte>
    var pos: nat

    constructor (data: seq<byte>)
      ensures this.data == data && pos == 0
    {
      this.data, pos := data, 0;
    }

    method Seek(to: nat)
      modifies this`pos
      ensures pos == to
    {
      pos := to;
    }

    method Read(n: nat) returns (s: seq<byte>)
      requires pos + n <= |data|
      modifies this`pos
      ensures s == data[old(pos)..old(pos) + n] && pos == old(pos) + n
    {
      s := data[pos..pos + n];
      pos := pos + n;
    }

    /** Overwrite what is there, and go on behind the end. */
    method Write(s: seq<byte>)
      requires pos <= |data|
      modifies this
      ensures data == Written(old(data), old(pos), s) && pos == old(pos) + |s|
    {
      data := Written(data, pos, s);
      pos := pos + |s|;
    }
  }

  function Written(data: seq<byte>, at: nat, s: seq<byte>): seq<byte>
    requires at <= |data|
  {
    if at + |s| <= |data| then Over(data, at, s) else data[..at] + s
  }

  // ----- The block move.

  /** The file while its end is being moved: what is behind skip + left has moved. */
  function Moving(was: seq<byte>, spare: seq<byte>, skip: nat, left: nat): seq<byte>
    requires skip + left <= |was| && |spare| == ENTRY_SIZE
  {
    (was + spare)[..skip + left + ENTRY_SIZE] + was[skip + left..]
  }

  lemma MoveStarts(was: seq<byte>, spare: seq<byte>, skip: nat, left: nat)
    requires skip + left == |was| && |spare| == ENTRY_SIZE
    ensures Moving(was, spare, skip, left) == was + spare
  {
  }

  /** One block: read it where it was, write it where it goes. */
  lemma MoveBlock(was: seq<byte>, spare: seq<byte>, skip: nat, left: nat, next: nat, from: nat, end: nat, to: nat)
    requires skip + left <= |was| && |spare| == ENTRY_SIZE && next <= left
    requires from == skip + next && end == skip + left && to == from + ENTRY_SIZE
    ensures var f := Moving(was, spare, skip, left);
      && end <= |f| && to <= |f| && f[from..end] == was[from..end]
      && Written(f, to, f[from..end]) == Moving(was, spare, skip, next)
  {
  }

  lemma MoveEnds(was: seq<byte>, spare: seq<byte>, skip: nat)
    requires skip + ENTRY_SIZE <= |was| && |spare| == ENTRY_SIZE
    ensures Moving(was, spare, skip, 0) == was[..skip + ENTRY_SIZE] + was[skip..]
  {
  }

  /** Make room for another entry by moving the end of the file, half a kilobyte at a time, last block first. */
  method MoveEnd(f: File, skip: nat, spare: seq<byte>)
    requires skip + ENTRY_SIZE <= |f.data| && |spare| == ENTRY_SIZE
    modifies f
    ensures f.data == old(f.data)[..skip + ENTRY_SIZE] + old(f.data)[skip..]
  {
    ghost var was := f.data;
    var len := |f.data|;
    f.Seek(len);
    f.Write(spare);
    var left := len - skip;
    MoveStarts(was, spare, skip, left);
    while left > 0
      invariant 0 <= left <= len - skip && len == |was|
      invariant f.data == Moving(was, spare, skip, left)
    {
      var amount := if left < 512 then left else 512;
      var next := left - amount;
      MoveOneBlock(f, skip + next, amount, was, spare, skip, left, next);
      left := next;
    }
    MoveEnds(was, spare, skip);
  }

  method MoveOneBlock(f: File, from: nat, amount: nat,
                      ghost was: seq<byte>, ghost spare: seq<byte>, ghost skip: nat, ghost left: nat, ghost next: nat)
    requires skip + left <= |was| && |spare| == ENTRY_SIZE && next <= left
    requires from == skip + next && amount == left - next && f.data == Moving(was, spare, skip, left)
    modifies f
    ensures f.data == Moving(was, spare, skip, next)
  {
    MoveBlock(was, spare, skip, left, next, from, from + amount, from + ENTRY_SIZE);
    f.Seek(from);
    var buf := f.Read(amount);
    f.Seek(from + ENTRY_SIZE);
    f.Write(buf);
  }

  // ----- The offsets in the directory.

  /** The first k offsets have been moved, and nothing else has changed. */
  ghost predicate Shifted(was: seq<byte>, now: seq<byte>, k: nat)
    requires EntryAt(k) <= |was|
  {
    && |now| == |was| && now[..HEADER_SIZE] == was[..HEADER_SIZE] && now[EntryAt(k)..] == was[EntryAt(k)..]
    && forall i :: 0 <= i < k ==> EntryAt(i) + ENTRY_SIZE <= |was| && Moved(was, now, i)
  }

  lemma ShiftOne(was: seq<byte>, now: seq<byte>, k: nat, next: nat, at: nat, number: seq<byte>)
    requires next == k + 1 && EntryAt(next) <= |was| && Shifted(was, now, k) && at == EntryAt(k) + 12
    requires number == Le32((OffsetOf(was, k) + ENTRY_SIZE) % TWO32)
    ensures Shifted(was, Over(now, at, number), next)
  {
    var after := Over(now, at, number);
    OverParts(now, at, number, EntryAt(next));
    ThisShifted(was, now, after, k, at, number);
    forall i | 0 <= i < k
      ensures Moved(was, after, i)
    {
      EntryInside(i, k);
      SameEntry(now, after, i, at);
    }
    SameStart(after, now, HEADER_SIZE, at);
    SameEnd(now, was, EntryAt(k), EntryAt(next));
  }

  lemma OverParts(now: seq<byte>, at: nat, number: seq<byte>, end: nat)
    requires end == at + |number| <= |now|
    ensures var after := Over(now, at, number);
      after[..at] == now[..at] && after[at..end] == number && after[end..] == now[end..]
  {
  }

  lemma SameStart(s: seq<byte>, t: seq<byte>, n: nat, at: nat)
    requires n <= at <= |s| == |t| && s[..at] == t[..at]
    ensures s[..n] == t[..n]
  {
    assert s[..n] == s[..at][..n];
  }

  lemma SameEnd(s: seq<byte>, t: seq<byte>, from: nat, at: nat)
    requires from <= at <= |s| == |t| && s[from..] == t[from..]
    ensures s[at..] == t[at..]
  {
    assert s[at..] == s[from..][at - from..];
  }

  /** The entry whose offset has been replaced. */
  lemma ThisShifted(was: seq<byte>, now: seq<byte>, after: seq<byte>, k: nat, at: nat, number: seq<byte>)
    requires at == EntryAt(k) + 12 && at + 4 <= |was| == |now| == |after|
    requires now[EntryAt(k)..] == was[EntryAt(k)..] && after[..at] == now[..at] && after[at..at + 4] == number
    requires number == Le32((OffsetOf(was, k) + ENTRY_SIZE) % TWO32)
    ensures Moved(was, after, k)
  {
    SamePart(now, was, EntryAt(k), EntryAt(k), at);
    assert after[EntryAt(k)..at] == after[..at][EntryAt(k)..at] == now[EntryAt(k)..at];
    Num32At(after, at, number);
    Le32Back((OffsetOf(was, k) + ENTRY_SIZE) % TWO32);
  }

  lemma SamePart(s: seq<byte>, t: seq<byte>, from: nat, a: nat, b: nat)
    requires |s| == |t| && from <= a <= b <= |s| && s[from..] == t[from..]
    ensures s[a..b] == t[a..b]
  {
    PartOfPart(s, from, |s|, a - from, b - from);
    PartOfPart(t, from, |t|, a - from, b - from);
  }

  lemma SameEntry(now: seq<byte>, after: seq<byte>, i: nat, end: nat)
    requires EntryAt(i) + ENTRY_SIZE <= end <= |now| == |after| && after[..end] == now[..end]
    ensures after[EntryAt(i)..EntryAt(i) + 12] == now[EntryAt(i)..EntryAt(i) + 12] && OffsetOf(after, i) == OffsetOf(now, i)
  {
    PartOfPart(after, 0, end, EntryAt(i), EntryAt(i) + 12);
    PartOfPart(now, 0, end, EntryAt(i), EntryAt(i) + 12);
    var at := EntryAt(i) + 12;
    assert after[at] == after[..end][at] == now[at] && after[at + 1] == after[..end][at + 1] == now[at + 1];
    assert after[at + 2] == after[..end][at + 2] == now[at + 2] && after[at + 3] == after[..end][at + 3] == now[at + 3];
  }

  /** Every offset grows by the size of an entry. */
  method MoveOffsets(f: File, n: nat)
    requires EntryAt(n) <= |f.data|
    modifies f
    ensures Shifted(old(f.data), f.data, n)
  {
    ghost var was := f.data;
    f.Seek(HEADER_SIZE + 12);
    var i := 0;
    while i < n
      invariant 0 <= i <= n && EntryAt(n) <= |was| && f.pos == EntryAt(i) + 12
      invariant EntryAt(i) <= |was| && Shifted(was, f.data, i)
    {
      var next := i + 1;
      EntryInside(i, n);
      OffsetUntouched(was, f.data, i);
      var temp := f.Read(4);
      var number := (Num32(temp, 0) + ENTRY_SIZE) % TWO32;
      f.Seek(f.pos - 4);
      ghost var at := f.pos;
      Num32At(f.data, at, temp);
      ShiftOne(was, f.data, i, next, at, Le32(number));
      f.Write(Le32(number));
      f.Seek(f.pos + 12);
      i := next;
    }
  }

  lemma OffsetUntouched(was: seq<byte>, now: seq<byte>, k: nat)
    requires EntryAt(k) + ENTRY_SIZE <= |was| && Shifted(was, now, k)
    ensures OffsetOf(now, k) == OffsetOf(was, k)
  {
    SamePart(now, was, EntryAt(k), EntryAt(k) + 12, EntryAt(k) + 16);
    Num32At(now, EntryAt(k) + 12, now[EntryAt(k) + 12..EntryAt(k) + 16]);
    Num32At(was, EntryAt(k) + 12, now[EntryAt(k) + 12..EntryAt(k) + 16]);
  }

  // ----- Opening a file for one more image.

  /** The header of a file with n images. */
  function Header(n: nat): (s: seq<byte>)
    ensures |s| == HEADER_SIZE
  {
    [0, 0, 1, 0] + Le16(n)
  }

  /** The end of the file has moved, and the header counts one more. */
  ghost predicate Roomy(was: seq<byte>, now: seq<byte>, n: nat)
    requires HEADER_SIZE <= EntryAt(n) <= |was|
  {
    && |now| == |was| + ENTRY_SIZE && now[..HEADER_SIZE] == Header(n + 1)
    && now[HEADER_SIZE..EntryAt(n)] == was[HEADER_SIZE..EntryAt(n)]
    && now[EntryAt(n) + ENTRY_SIZE..] == was[EntryAt(n)..]
  }

  lemma RoomMade(was: seq<byte>, moved: seq<byte>, n: nat)
    requires 0 < n && EntryAt(n) <= |was|
    requires moved == was[..EntryAt(n)] + was[EntryAt(n - 1)..]
    ensures Roomy(was, Over(moved, 0, Header(n + 1)), n)
  {
    var (at, now) := (EntryAt(n), Over(moved, 0, Header(n + 1)));
    assert now[HEADER_SIZE..] == moved[HEADER_SIZE..];
    assert moved[at..] == was[EntryAt(n - 1)..];
    assert moved[at..][ENTRY_SIZE..] == was[EntryAt(n - 1)..][ENTRY_SIZE..] == was[at..];
    assert now[at + ENTRY_SIZE..] == moved[at + ENTRY_SIZE..] == moved[at..][ENTRY_SIZE..];
    assert now[HEADER_SIZE..at] == moved[HEADER_SIZE..at] == was[HEADER_SIZE..at];
  }

  /** With the offsets moved and the new entry written, the file has grown by one entry. */
  lemma EntryMade(was: seq<byte>, room: seq<byte>, shifted: seq<byte>, n: nat, s: Shape, e: seq<byte>, base: seq<byte>)
    requires Directory(was) && n == Count(was) < 32767 && |was| + ENTRY_SIZE <= MAX_FILE
    requires Roomy(was, room, n) && Shifted(room, shifted, n)
    requires Storable(s) && e == Entry(s, INFO_SIZE + MaskedBytes(s), |was| + ENTRY_SIZE)
    requires base == Over(shifted, EntryAt(n), e)
    ensures Grown(was, base) && |base| == |was| + ENTRY_SIZE && Points(base, n, s, |base|)
  {
    var at := EntryAt(n);
    OverParts(shifted, at, e, at + ENTRY_SIZE);
    forall i | 0 <= i < n
      ensures EntryAt(i) + ENTRY_SIZE <= |was| && Moved(was, base, i)
    {
      EachMoved(was, room, shifted, n, base, i);
    }
    SameStart(base, shifted, HEADER_SIZE, at);
    HeaderBack(was, base, n + 1);
    DataBehind(was, room, shifted, base, at);
  }

  /** The header is that of an icon file with so many images. */
  lemma HeaderBack(was: seq<byte>, base: seq<byte>, n: nat)
    requires Directory(was) && |base| >= HEADER_SIZE && base[..HEADER_SIZE] == Header(n) && n < 65536
    ensures base[..4] == was[..4] && Num16(base, 4) == n
  {
    CountBack(base, n);
    assert base[..4] == base[..HEADER_SIZE][..4] == Header(n)[..4] == [0, 0, 1, 0];
  }

  /** The data follows the new entry. */
  lemma DataBehind(was: seq<byte>, room: seq<byte>, shifted: seq<byte>, base: seq<byte>, at: nat)
    requires at <= |was| && |room| == |shifted| == |base| == |was| + ENTRY_SIZE
    requires room[at + ENTRY_SIZE..] == was[at..] && shifted[at..] == room[at..]
    requires base[at + ENTRY_SIZE..] == shifted[at + ENTRY_SIZE..]
    ensures base[at + ENTRY_SIZE..|was| + ENTRY_SIZE] == was[at..]
  {
    SameEnd(shifted, room, at, at + ENTRY_SIZE);
    assert base[at + ENTRY_SIZE..|was| + ENTRY_SIZE] == base[at + ENTRY_SIZE..];
  }

  lemma EachMoved(was: seq<byte>, room: seq<byte>, shifted: seq<byte>, n: nat, base: seq<byte>, i: nat)
    requires Directory(was) && n == Count(was) && |was| + ENTRY_SIZE <= MAX_FILE && i < n
    requires Roomy(was, room, n) && Shifted(room, shifted, n)
    requires |base| == |shifted| && base[..EntryAt(n)] == shifted[..EntryAt(n)]
    ensures EntryAt(i) + ENTRY_SIZE <= |was| && Moved(was, base, i)
  {
    EntryInside(i, n);
    SameEntry(shifted, base, i, EntryAt(n));
    KeptEntry(was, room, i, n);
    assert Moved(room, shifted, i);
  }

  lemma CountBack(f: seq<byte>, n: nat)
    requires |f| >= HEADER_SIZE && f[..HEADER_SIZE] == Header(n) && n < 65536
    ensures Num16(f, 4) == n
  {
    assert f[4] == f[..HEADER_SIZE][4] == Le16(n)[0] && f[5] == f[..HEADER_SIZE][5] == Le16(n)[1];
  }

  lemma KeptEntry(was: seq<byte>, room: seq<byte>, i: nat, n: nat)
    requires i < n && EntryAt(n) <= |was| && Roomy(was, room, n)
    ensures EntryAt(i) + ENTRY_SIZE <= EntryAt(n)
    ensures room[EntryAt(i)..EntryAt(i) + 12] == was[EntryAt(i)..EntryAt(i) + 12]
    ensures OffsetOf(room, i) == OffsetOf(was, i)
  {
    var (at, end) := (EntryAt(i), EntryAt(n));
    PartOfPart(room, HEADER_SIZE, end, at - HEADER_SIZE, at - HEADER_SIZE + 16);
    PartOfPart(was, HEADER_SIZE, end, at - HEADER_SIZE, at - HEADER_SIZE + 16);
    assert room[at..at + 16] == was[at..at + 16];
    PartOfPart(room, at, at + 16, 0, 12);
    PartOfPart(was, at, at + 16, 0, 12);
    PartOfPart(room, at, at + 16, 12, 16);
    PartOfPart(was, at, at + 16, 12, 16);
    Num32At(room, at + 12, room[at + 12..at + 16]);
    Num32At(was, at + 12, room[at + 12..at + 16]);
  }

  /** Room for the entry, the offsets, the count and the entry itself. */
  method AddEntry(f: File, s: Shape, spare: seq<byte>)
    requires Directory(f.data) && Count(f.data) < 32767 && |f.data| + ENTRY_SIZE <= MAX_FILE && |spare| == ENTRY_SIZE
    requires Storable(s)
    modifies f
    ensures Grown(old(f.data), f.data) && |f.data| == |old(f.data)| + ENTRY_SIZE
    ensures Points(f.data, Count(old(f.data)), s, |f.data|)
  {
    ghost var was := f.data;
    f.Seek(0);
    var ico := f.Read(HEADER_SIZE);
    var (subimage, len) := (Num16(ico, 4), |f.data|);
    MoveEnd(f, EntryAt(subimage - 1), spare);
    RoomMade(was, f.data, subimage);
    f.Seek(0);
    f.Write(Header(subimage + 1));
    ghost var room := f.data;
    MoveOffsets(f, subimage);
    ghost var shifted := f.data;
    f.Seek(EntryAt(subimage));
    var e := Entry(s, INFO_SIZE + MaskedBytes(s), len + ENTRY_SIZE);
    f.Write(e);
    EntryMade(was, room, shifted, subimage, s, e, f.data);
  }

  // ----- The bitmap.

  /** No row has been written. */
  function NoRows(s: Shape): (rows: Rows)
    ensures Fits(rows, s) && |rows| == s.height && forall y :: 0 <= y < s.height ==> rows[y] == None
  {
    seq(s.height, _ => None)
  }

  lemma {:induction false} StackOfZeros(rows: seq<seq<byte>>, width: nat, n: nat)
    requires n <= |rows| && forall k :: 0 <= k < |rows| ==> rows[k] == Zeros(width)
    ensures Stack(rows, n) == Zeros(Area(width, n))
  {
    if n > 0 {
      StackOfZeros(rows, width, n - 1);
      ZerosJoin(Area(width, n - 1), width);
    }
  }

  lemma ZerosJoin(a: nat, b: nat)
    ensures Zeros(a) + Zeros(b) == Zeros(a + b)
  {
  }

  /** A bitmap without rows is a header and zeros. */
  lemma EmptyDib(s: Shape)
    requires Storable(s)
    ensures Dib(NoRows(s), s) == Info(s) + Zeros(MaskedBytes(s))
  {
    StackOfZeros(XorRows(NoRows(s), s), XorBytes(s), s.height);
    StackOfZeros(AndRows(NoRows(s), s), AndBytes(s), s.height);
    ZerosJoin(Area(XorBytes(s), s.height), Area(AndBytes(s), s.height));
    Assoc(Info(s), XorPart(NoRows(s), s), AndPart(NoRows(s), s));
  }

  /** The header of a bitmap and zeros, half a kilobyte at a time. */
  method WriteEmpty(f: File, s: Shape)
    requires Storable(s) && f.pos == |f.data|
    modifies f
    ensures f.data == old(f.data) + Dib(NoRows(s), s)
  {
    ghost var was := f.data;
    f.Write(Info(s));
    assert f.data == was + Info(s);
    var (left, done) := (MaskedBytes(s), 0);
    assert f.data == f.data + Zeros(0);
    while left > 0
      invariant 0 <= left <= MaskedBytes(s) && done == MaskedBytes(s) - left
      invariant f.pos == |f.data| && f.data == was + Info(s) + Zeros(done)
    {
      var amount := if left < 512 then left else 512;
      MoreZeros(f.data, was + Info(s), done, amount);
      f.Write(Zeros(amount));
      left, done := left - amount, done + amount;
    }
    EmptyDib(s);
    Assoc(was, Info(s), Zeros(done));
  }

  lemma MoreZeros(data: seq<byte>, start: seq<byte>, done: nat, amount: nat)
    requires data == start + Zeros(done)
    ensures Written(data, |data|, Zeros(amount)) == start + Zeros(done + amount)
  {
    ZerosJoin(done, amount);
    Assoc(start, Zeros(done), Zeros(amount));
  }
}
