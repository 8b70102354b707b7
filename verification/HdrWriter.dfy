/** The scanline writer of Radiance files. */
module HdrWriter {
  import opened Bytes
  import opened Files
  import opened HdrRle
  import opened HdrScanline

  const MINRUNLENGTH := 4

  // ----- The packets written so far.

  /** The first pos bytes of the data are in the file, as packets. */
  ghost predicate Wrote(file: seq<byte>, first: seq<byte>, code: seq<byte>, s: seq<byte>, pos: nat) {
    pos <= |s| && DecodesTo(code, s[..pos], [], |s|) && file == first + code
  }

  lemma WroteMore(file: seq<byte>, first: seq<byte>, code: seq<byte>, s: seq<byte>, pos: nat, next: nat, p: Packet)
    requires Wrote(file, first, code, s, pos) && Valid(p) && pos <= next <= |s| && Values(p) == s[pos..next]
    ensures Wrote(file + Coded(p), first, code + Coded(p), s, next)
  {
    DecodesOn(code, s[..pos], [], |s|, p);
    assert s[..next] == s[..pos] + s[pos..next];
    Assoc(first, code, Coded(p));
  }

  lemma WroteNothing(first: seq<byte>, s: seq<byte>)
    ensures Wrote(first, first, [], s, 0)
  {
    DecodesNothing([], |s|);
    assert s[..0] == [] && first + [] == first;
  }

  lemma WroteAll(file: seq<byte>, first: seq<byte>, code: seq<byte>, s: seq<byte>)
    requires Wrote(file, first, code, s, |s|)
    ensures Codes(code, s) && file == first + code
  {
    assert s[..|s|] == s;
    DecodedWhole(code, s);
  }

  // ----- The search for runs.

  /** The bytes from..to are all the same. */
  predicate Same(s: seq<byte>, from: nat, to: nat)
    requires from <= to <= |s|
  {
    forall k :: from <= k < to ==> s[k] == s[from]
  }

  /** How long the run at beg is, up to 127 bytes. */
  method RunAt(data: array<byte>, start: nat, n: nat, beg: nat, ghost s: seq<byte>) returns (count: nat)
    requires start + n <= data.Length && s == data[start..start + n] && beg < n
    ensures 1 <= count <= 127 && beg + count <= n && Same(s, beg, beg + count)
    ensures count < 127 && beg + count < n ==> s[beg + count] != s[beg]
  {
    count := 1;
    while beg + count < n && count < 127 && data[start + beg] == data[start + beg + count]
      invariant 1 <= count <= 127 && beg + count <= n && Same(s, beg, beg + count)
    {
      count := count + 1;
    }
  }

  /** The next run of at least four bytes, and the length of the run right before it. */
  method NextRun(data: array<byte>, start: nat, n: nat, cur: nat, ghost s: seq<byte>)
    returns (beg: nat, count: nat, before: nat)
    requires start + n <= data.Length && s == data[start..start + n] && cur < n
    ensures cur <= beg <= n && before <= beg - cur && before < MINRUNLENGTH && Same(s, beg - before, beg)
    ensures if beg < n then MINRUNLENGTH <= count <= 127 && beg + count <= n && Same(s, beg, beg + count)
            else count < MINRUNLENGTH
  {
    beg, count, before := cur, 0, 0;
    while count < MINRUNLENGTH && beg < n
      invariant cur <= beg <= n && before <= beg - cur && before < MINRUNLENGTH && Same(s, beg - before, beg)
      invariant count <= 127 && (beg == n ==> count == 1)
      invariant beg < n ==> beg + count <= n && Same(s, beg, beg + count)
      decreases n - beg + if count == 0 then 1 else 0
    {
      beg := beg + count;
      before := count;
      count := 1;
      if beg < n {
        count := RunAt(data, start, n, beg, s);
      }
    }
  }

  // ----- The channel.

  /** Bytes up to beg as they are, at most 128 at a time. */
  method WriteCopies(f: Sink, data: array<byte>, start: nat, cur: nat, beg: nat,
                     ghost s: seq<byte>, ghost first: seq<byte>, ghost code: seq<byte>)
    returns (ghost code': seq<byte>)
    requires start + |s| <= data.Length && s == data[start..start + |s|] && cur <= beg <= |s|
    requires Wrote(f.data, first, code, s, cur)
    modifies f
    ensures Wrote(f.data, first, code', s, beg)
  {
    code' := code;
    var at := cur;
    while at < beg
      invariant cur <= at <= beg && Wrote(f.data, first, code', s, at)
    {
      var count := if beg - at > 128 then 128 else beg - at;
      var next := at + count;
      code' := WriteCopy(f, data, start, at, next, s, first, code');
      at := next;
    }
  }

  lemma PartOf(data: seq<byte>, start: nat, s: seq<byte>, at: nat, next: nat)
    requires start + |s| <= |data| && s == data[start..start + |s|] && at <= next <= |s|
    ensures data[start + at..start + next] == s[at..next]
  {
    forall k | 0 <= k < next - at
      ensures data[start + at..start + next][k] == s[at..next][k]
    {
      assert s[at + k] == data[start + (at + k)];
    }
  }

  method WriteCopy(f: Sink, data: array<byte>, start: nat, cur: nat, next: nat,
                   ghost s: seq<byte>, ghost first: seq<byte>, ghost code: seq<byte>)
    returns (ghost code': seq<byte>)
    requires start + |s| <= data.Length && s == data[start..start + |s|] && cur < next <= |s| && next - cur <= 128
    requires Wrote(f.data, first, code, s, cur)
    modifies f
    ensures Wrote(f.data, first, code', s, next)
  {
    var p := Copy(data[start + cur..start + next]);
    PartOf(data[..], start, s, cur, next);
    assert data[..][start + cur..start + next] == data[start + cur..start + next];
    WroteMore(f.data, first, code, s, cur, next, p);
    f.Write(Coded(p));
    code' := code + Coded(p);
  }

  method WriteRun(f: Sink, count: nat, v: byte, cur: nat, next: nat,
                  ghost s: seq<byte>, ghost first: seq<byte>, ghost code: seq<byte>)
    returns (ghost code': seq<byte>)
    requires cur < next <= |s| && count == next - cur <= 127 && Same(s, cur, next) && v == s[cur]
    requires Wrote(f.data, first, code, s, cur)
    modifies f
    ensures Wrote(f.data, first, code', s, next)
  {
    var p := Run(count, v);
    assert Values(p) == s[cur..next];
    WroteMore(f.data, first, code, s, cur, next, p);
    f.Write(Coded(p));
    code' := code + Coded(p);
  }

  /** The bytes up to the end of the next run, or to the end of the data. */
  method WriteUpToRun(f: Sink, data: array<byte>, start: nat, n: nat, cur: nat,
                      ghost s: seq<byte>, ghost first: seq<byte>, ghost code: seq<byte>)
    returns (next: nat, ghost code': seq<byte>)
    requires start + n <= data.Length && s == data[start..start + n] && cur < n
    requires Wrote(f.data, first, code, s, cur)
    modifies f
    ensures cur < next <= n && Wrote(f.data, first, code', s, next)
  {
    var beg, count, before := NextRun(data, start, n, cur, s);
    code' := code;
    var at := cur;
    if before > 1 && before == beg - cur {
      // the data before the run is a short run itself
      code' := WriteRun(f, before, data[start + cur], cur, beg, s, first, code');
      at := beg;
    }
    code' := WriteCopies(f, data, start, at, beg, s, first, code');
    next := beg;
    if count >= MINRUNLENGTH {
      next := beg + count;
      code' := WriteRun(f, count, data[start + beg], beg, next, s, first, code');
    }
  }

  /** One channel of a scanline. */
  method WriteBytesRle(f: Sink, data: array<byte>, start: nat, n: nat) returns (ghost code: seq<byte>)
    requires start + n <= data.Length
    modifies f
    ensures f.data == old(f.data) + code && Codes(code, data[start..start + n])
  {
    ghost var (s, first) := (data[start..start + n], f.data);
    code := [];
    WroteNothing(f.data, s);
    var cur := 0;
    while cur < n
      invariant cur <= n && Wrote(f.data, first, code, s, cur)
    {
      cur, code := WriteUpToRun(f, data, start, n, cur, s, first, code);
    }
    WroteAll(f.data, first, code, s);
  }

  // ----- A scanline.

  /** The first n bytes of a plane are in the buffer. */
  ghost predicate PlaneSoFar(buffer: seq<byte>, from: nat, ps: seq<Rgbe>, n: nat, c: nat) {
    n <= |ps| && from + n <= |buffer| && forall j :: from <= j < from + n ==> buffer[j] == Component(ps[j - from], c)
  }

  lemma PlaneNext(before: seq<byte>, buffer: seq<byte>, from: nat, ps: seq<Rgbe>, n: nat, next: nat, c: nat)
    requires PlaneSoFar(before, from, ps, n, c) && next == n + 1 <= |ps| && from + next <= |buffer|
    requires buffer[from + n] == Component(ps[n], c) && forall j :: from <= j < from + n ==> buffer[j] == before[j]
    ensures PlaneSoFar(buffer, from, ps, next, c)
  {
  }

  lemma PlaneIs(buffer: seq<byte>, from: nat, ps: seq<Rgbe>, c: nat)
    requires PlaneSoFar(buffer, from, ps, |ps|, c)
    ensures PlaneAt(buffer, from, ps, c)
  {
  }

  /** A pixel has gone to the four planes. */
  ghost predicate Spread(before: seq<byte>, after: seq<byte>, width: nat, i: nat, p: Rgbe) {
    && i < width && |before| == |after| == 4 * width
    && after[i] == p.r && after[width + i] == p.g && after[2 * width + i] == p.b && after[3 * width + i] == p.e
    && forall j {:trigger after[j]} :: 0 <= j < |after| && j != i && j != width + i && j != 2 * width + i && j != 3 * width + i
                                     ==> after[j] == before[j]
  }

  method StorePixel(buffer: array<byte>, width: nat, i: nat, p: Rgbe)
    requires i < width && buffer.Length == 4 * width
    modifies buffer
    ensures Spread(old(buffer[..]), buffer[..], width, i, p)
  {
    buffer[i] := p.r;
    buffer[width + i] := p.g;
    buffer[2 * width + i] := p.b;
    buffer[3 * width + i] := p.e;
  }

  ghost predicate PlanesSoFar(buffer: seq<byte>, width: nat, ps: seq<Rgbe>, n: nat) {
    && PlaneSoFar(buffer, 0, ps, n, 0) && PlaneSoFar(buffer, width, ps, n, 1)
    && PlaneSoFar(buffer, 2 * width, ps, n, 2) && PlaneSoFar(buffer, 3 * width, ps, n, 3)
  }

  lemma Untouched(before: seq<byte>, after: seq<byte>, width: nat, i: nat, p: Rgbe, c: nat, from: nat)
    requires Spread(before, after, width, i, p) && c < 4 && from == c * width
    ensures from + i < |after| && after[from + i] == Component(p, c)
    ensures forall j :: from <= j < from + i ==> after[j] == before[j]
  {
  }

  lemma PlanesNext(before: seq<byte>, after: seq<byte>, width: nat, ps: seq<Rgbe>, n: nat, next: nat)
    requires n < |ps| && next == n + 1
    requires PlanesSoFar(before, width, ps, n) && Spread(before, after, width, n, ps[n])
    ensures PlanesSoFar(after, width, ps, next)
  {
    PlaneOn(before, after, width, ps, n, next, 0, 0);
    PlaneOn(before, after, width, ps, n, next, 1, width);
    PlaneOn(before, after, width, ps, n, next, 2, 2 * width);
    PlaneOn(before, after, width, ps, n, next, 3, 3 * width);
  }

  lemma PlaneOn(before: seq<byte>, after: seq<byte>, width: nat, ps: seq<Rgbe>, n: nat, next: nat, c: nat, from: nat)
    requires n < |ps| && next == n + 1 && c < 4 && from == c * width
    requires PlaneSoFar(before, from, ps, n, c) && Spread(before, after, width, n, ps[n])
    ensures PlaneSoFar(after, from, ps, next, c)
  {
    Untouched(before, after, width, n, ps[n], c, from);
    PlaneNext(before, after, from, ps, n, next, c);
  }

  predicate PlaneAt(buffer: seq<byte>, from: nat, ps: seq<Rgbe>, c: nat) {
    from + |ps| <= |buffer| && buffer[from..from + |ps|] == Plane(ps, c)
  }

  /** The planes of the pixels, one after the other. */
  predicate Split(buffer: seq<byte>, ps: seq<Rgbe>) {
    && PlaneAt(buffer, 0, ps, 0) && PlaneAt(buffer, |ps|, ps, 1)
    && PlaneAt(buffer, 2 * |ps|, ps, 2) && PlaneAt(buffer, 3 * |ps|, ps, 3)
  }

  lemma AllSplit(buffer: seq<byte>, ps: seq<Rgbe>)
    requires PlanesSoFar(buffer, |ps|, ps, |ps|)
    ensures Split(buffer, ps)
  {
    PlaneIs(buffer, 0, ps, 0);
    PlaneIs(buffer, |ps|, ps, 1);
    PlaneIs(buffer, 2 * |ps|, ps, 2);
    PlaneIs(buffer, 3 * |ps|, ps, 3);
  }

  method SplitPlanes(ps: seq<Rgbe>) returns (buffer: array<byte>)
    ensures fresh(buffer) && Split(buffer[..], ps)
  {
    var width := |ps|;
    buffer := new byte[4 * width];
    var i: nat := 0;
    while i < width
      invariant i <= width && PlanesSoFar(buffer[..], width, ps, i)
    {
      ghost var before := buffer[..];
      var next: nat := i + 1;
      StorePixel(buffer, width, i, ps[i]);
      PlanesNext(before, buffer[..], width, ps, i, next);
      i := next;
    }
    AllSplit(buffer[..], ps);
  }

  /** Scanlines that are too short or too long go out pixel by pixel. */
  method WriteFlat(f: Sink, ps: seq<Rgbe>)
    modifies f
    ensures f.data == old(f.data) + Flat(ps, |ps|)
  {
    ghost var first := f.data;
    var i := 0;
    ghost var done := [];
    while i < |ps|
      invariant i <= |ps| && done == Flat(ps, i)
      invariant f.data == first + done
    {
      Assoc(first, done, Bytes4(ps[i]));
      f.Write(Bytes4(ps[i]));
      done := done + Bytes4(ps[i]);
      i := i + 1;
    }
  }

  method WriteCoded(f: Sink, ps: seq<Rgbe>) returns (ghost code: seq<byte>)
    requires Coding(|ps|)
    modifies f
    ensures f.data == old(f.data) + code && Writes(code, ps)
  {
    var width := |ps|;
    ghost var (first, m) := (f.data, Marker(width));
    f.Write(Marker(width));
    var buffer := SplitPlanes(ps);
    ghost var r := WritePlane(f, buffer, ps, 0, 0, first, m);
    ghost var g := WritePlane(f, buffer, ps, 1, width, first, m + r);
    ghost var b := WritePlane(f, buffer, ps, 2, 2 * width, first, m + r + g);
    ghost var e := WritePlane(f, buffer, ps, 3, 3 * width, first, m + r + g + b);
    CodedLine(ps, r, g, b, e);
    code := m + r + g + b + e;
  }

  /** One of the planes. */
  method WritePlane(f: Sink, buffer: array<byte>, ps: seq<Rgbe>, ghost c: nat, start: nat,
                    ghost first: seq<byte>, ghost done: seq<byte>) returns (ghost code: seq<byte>)
    requires PlaneAt(buffer[..], start, ps, c) && f.data == first + done
    modifies f
    ensures Codes(code, Plane(ps, c)) && f.data == first + (done + code)
  {
    assert buffer[start..start + |ps|] == buffer[..][start..start + |ps|];
    code := WriteBytesRle(f, buffer, start, |ps|);
    Assoc(first, done, code);
  }

  /** One scanline; what is written is read back as exactly these pixels. */
  method WriteScanline(f: Sink, ps: seq<Rgbe>) returns (ghost code: seq<byte>)
    modifies f
    ensures f.data == old(f.data) + code && Writes(code, ps)
  {
    if Coding(|ps|) {
      code := WriteCoded(f, ps);
    } else {
      FlatLine(ps);
      code := Flat(ps, |ps|);
      WriteFlat(f, ps);
    }
  }
}
