/** The scanline reader of Radiance files. */
module HdrReader {
  import opened Bytes
  import opened HdrRle
  import opened HdrScanline
  import opened HdrCache
  import opened HdrFiles

  // ----- One channel.

  lemma DecodeStep(done: seq<byte>, file: seq<byte>, at: nat, n: nat, first: byte, body: nat, end: nat)
    requires at + 2 <= |file| && first == file[at] > 0 && body == at + 1 && end == body + Need(first) <= |file|
    requires |done| + Count(first) <= n && |done| < n
    ensures Decode(done, file[at..], n) == Decode(done + Expanded(first, file[body..end]), file[end..], n)
  {
    assert file[at..][1..] == file[body..];
    assert file[body..][..Need(first)] == file[body..end] && file[body..][Need(first)..] == file[end..];
  }

  lemma DecodeFails(done: seq<byte>, file: seq<byte>, at: nat, n: nat, next: nat)
    requires at <= |file| && |done| < n
    requires if |file| < at + 2 then next == |file|
             else if file[at] == 0 || |done| + Count(file[at]) > n then next == at + 2
             else |file| < at + 1 + Need(file[at]) && next == |file|
    ensures Decode(done, file[at..], n) == Failed(file[next..])
  {
    if |file| >= at + 2 {
      assert file[at..][1..] == file[at + 1..] && file[at..][2..] == file[at + 2..];
    }
  }

  /** The bytes of a packet go to the buffer. */
  method Store(file: seq<byte>, first: byte, body: nat, end: nat, buffer: array<byte>, ptr: nat, next: nat,
               ghost was: seq<byte>, ghost plane: seq<byte>, ghost piece: seq<byte>)
    requires first > 0 && end == body + Need(first) <= |file| && next == ptr + Count(first) <= buffer.Length
    requires piece == Expanded(first, file[body..end]) && buffer[..ptr] == was + plane
    modifies buffer
    ensures buffer[..next] == was + (plane + piece)
  {
    ghost var before := buffer[..];
    PieceIs(file, first, body, end, piece);
    if first > 128 {
      forall k | ptr <= k < next {
        buffer[k] := file[body];
      }
    } else {
      forall k | ptr <= k < next {
        buffer[k] := file[body + (k - ptr)];
      }
    }
    Stored(before, buffer[..], ptr, next, piece);
    Assoc(was, plane, piece);
  }

  lemma PieceIs(file: seq<byte>, first: byte, body: nat, end: nat, piece: seq<byte>)
    requires first > 0 && end == body + Need(first) <= |file| && piece == Expanded(first, file[body..end])
    ensures |piece| == Count(first)
    ensures forall k :: 0 <= k < |piece| ==> piece[k] == if first > 128 then file[body] else file[body + k]
  {
  }

  lemma Stored(before: seq<byte>, after: seq<byte>, ptr: nat, next: nat, piece: seq<byte>)
    requires ptr <= next <= |before| == |after| && |piece| == next - ptr
    requires forall k :: 0 <= k < ptr ==> after[k] == before[k]
    requires forall k :: ptr <= k < next ==> after[k] == piece[k - ptr]
    ensures after[..next] == before[..ptr] + piece
  {
  }

  /** One channel, from pos on, goes to the part of the buffer between start and end. */
  method ReadChannel(file: seq<byte>, pos: nat, buffer: array<byte>, start: nat, end: nat,
                     ghost n: nat, ghost goal: Outcome<seq<byte>>)
    returns (ok: bool, next: nat, ghost plane: seq<byte>)
    requires pos <= |file| && start <= end <= buffer.Length && n == end - start && goal == Decode([], file[pos..], n)
    modifies buffer
    ensures next <= |file|
    ensures goal == if ok then Done(plane, file[next..]) else Failed(file[next..])
    ensures ok ==> buffer[..end] == old(buffer[..start]) + plane
  {
    var ptr := start;
    next := pos;
    plane := [];
    ghost var was := buffer[..start];
    while ptr < end
      invariant start <= ptr <= end && next <= |file| && ptr == start + |plane|
      invariant goal == Decode(plane, file[next..], n)
      invariant buffer[..ptr] == was + plane
      decreases |file| - next
    {
      if |file| < next + 2 {
        DecodeFails(plane, file, next, n, |file|);
        return false, |file|, plane;
      }
      var (first, body) := (file[next], next + 1);
      var (ptr', after) := (ptr + Count(first), body + Need(first));
      if first == 0 || ptr' > end {
        DecodeFails(plane, file, next, n, next + 2);
        return false, next + 2, plane;
      }
      if |file| < after {
        DecodeFails(plane, file, next, n, |file|);
        return false, |file|, plane;
      }
      ghost var piece := Expanded(first, file[body..after]);
      DecodeStep(plane, file, next, n, first, body, after);
      Store(file, first, body, after, buffer, ptr, ptr', was, plane, piece);
      plane := plane + piece;
      ptr, next := ptr', after;
    }
    ok := true;
  }

  // ----- A scanline.

  /** The planes one after the other. */
  function Concat(planes: seq<seq<byte>>): seq<byte> {
    if planes == [] then [] else Concat(planes[..|planes| - 1]) + planes[|planes| - 1]
  }

  lemma ConcatNext(planes: seq<seq<byte>>, p: seq<byte>)
    ensures Concat(planes + [p]) == Concat(planes) + p
  {
    assert (planes + [p])[..|planes|] == planes;
  }

  lemma ConcatFour(r: seq<byte>, g: seq<byte>, b: seq<byte>, e: seq<byte>)
    ensures Concat([r, g, b, e]) == r + g + b + e
  {
    assert [r, g, b, e] == [] + [r] + [g] + [b] + [e];
    ConcatNext([], r);
    ConcatNext([] + [r], g);
    ConcatNext([] + [r] + [g], b);
    ConcatNext([] + [r] + [g] + [b], e);
    assert [] + r == r;
  }

  lemma FourParts(r: seq<byte>, g: seq<byte>, b: seq<byte>, e: seq<byte>, w: nat, i: nat)
    requires |r| == |g| == |b| == |e| == w && i < w
    ensures (r + g + b + e)[i] == r[i] && (r + g + b + e)[w + i] == g[i]
    ensures (r + g + b + e)[2 * w + i] == b[i] && (r + g + b + e)[3 * w + i] == e[i]
  {
  }

  /** Pixel i of planes of w bytes. */
  function Gathered(buffer: seq<byte>, w: nat, i: nat): Rgbe
    requires i < w && |buffer| == 4 * w
  {
    Rgbe(buffer[i], buffer[w + i], buffer[2 * w + i], buffer[3 * w + i])
  }

  lemma ZipBuffer(buffer: seq<byte>, planes: seq<seq<byte>>, w: nat, ps: seq<Rgbe>)
    requires |planes| == 4 && (forall p :: p in planes ==> |p| == w) && buffer == Concat(planes) && |ps| == w
    requires |buffer| == 4 * w
    requires forall i {:trigger ps[i]} :: 0 <= i < w ==> ps[i] == Gathered(buffer, w, i)
    ensures ps == ZipAll(planes, w)
  {
    var (r, g, b, e) := (planes[0], planes[1], planes[2], planes[3]);
    assert planes == [r, g, b, e];
    ConcatFour(r, g, b, e);
    forall i | 0 <= i < w
      ensures ps[i] == Rgbe(r[i], g[i], b[i], e[i])
    {
      FourParts(r, g, b, e, w, i);
    }
  }

  lemma ChannelsNext(done: seq<seq<byte>>, file: seq<byte>, width: nat, more: nat, left: nat, o: Outcome<seq<byte>>)
    requires (forall p :: p in done ==> |p| == width) && more == left + 1 && o == ReadPlane(file, width)
    ensures ReadChannels(done, file, width, more)
         == if o.Failed? then Failed(o.rest) else ReadChannels(done + [o.value], o.rest, width, left)
  {
  }

  /** The four channels one after the other. */
  method ReadAllChannels(file: seq<byte>, pos: nat, width: nat, buffer: array<byte>, ghost goal: Outcome<seq<seq<byte>>>)
    returns (ok: bool, next: nat)
    requires pos <= |file| && buffer.Length == Area(width, 4) && goal == ReadChannels([], file[pos..], width, 4)
    modifies buffer
    ensures next <= |file|
    ensures if ok then goal.Done? && goal.rest == file[next..] && buffer[..] == Concat(goal.value)
            else goal == Failed(file[next..])
  {
    var left: nat, start: nat := 4, 0;
    next := pos;
    ghost var planes := [];
    while left > 0
      invariant 0 <= left <= 4 && next <= |file| && start + Area(width, left) == buffer.Length
      invariant forall p :: p in planes ==> |p| == width
      invariant goal == ReadChannels(planes, file[next..], width, left)
      invariant buffer[..start] == Concat(planes)
    {
      var (left', end) := (left - 1, start + width);
      AreaOneLess(width, left, left');
      ghost var (o, was) := (ReadPlane(file[next..], width), planes);
      ghost var plane;
      ChannelsNext(planes, file[next..], width, left, left', o);
      ok, next, plane := ReadChannel(file, next, buffer, start, end, width, o);
      if !ok {
        return;
      }
      ConcatNext(planes, plane);
      planes := planes + [plane];
      left, start := left', end;
    }
    assert buffer[..start] == buffer[..];
    ok := true;
  }

  lemma AreaOneLess(width: nat, more: nat, left: nat)
    requires more == left + 1
    ensures Area(width, more) == Area(width, left) + width
  {
  }

  lemma AreaFour(width: nat)
    ensures Area(width, 4) == 4 * width
  {
    AreaIsProduct(width, 4);
  }

  /** The four channels one after the other, then pixel by pixel. */
  method ReadCoded(file: seq<byte>, pos: nat, width: nat, ghost goal: Outcome<seq<Rgbe>>)
    returns (ok: bool, next: nat, ps: seq<Rgbe>)
    requires pos <= |file| && goal == ReadPlanes(file[pos..], width)
    ensures next <= |file| && goal == if ok then Done(ps, file[next..]) else Failed(file[next..])
  {
    AreaFour(width);
    var buffer := new byte[Area(width, 4)];
    ps := [];
    ghost var o := ReadChannels([], file[pos..], width, 4);
    ok, next := ReadAllChannels(file, pos, width, buffer, o);
    if !ok {
      return;
    }
    ps := ZipPixels(buffer, width, o.value);
  }

  method ZipPixels(buffer: array<byte>, width: nat, ghost planes: seq<seq<byte>>) returns (ps: seq<Rgbe>)
    requires |planes| == 4 && (forall p :: p in planes ==> |p| == width)
    requires buffer.Length == 4 * width && buffer[..] == Concat(planes)
    ensures ps == ZipAll(planes, width)
  {
    var i := 0;
    ps := [];
    while i < width
      invariant 0 <= i <= width && |ps| == i
      invariant forall k {:trigger ps[k]} :: 0 <= k < i ==> ps[k] == Gathered(buffer[..], width, k)
    {
      ps := ps + [Rgbe(buffer[i], buffer[width + i], buffer[2 * width + i], buffer[3 * width + i])];
      i := i + 1;
    }
    ZipBuffer(buffer[..], planes, width, ps);
  }

  /** Pixels that are not coded. */
  method ReadPixels(file: seq<byte>, pos: nat, n: nat, first: seq<Rgbe>, ghost goal: Outcome<seq<Rgbe>>)
    returns (ok: bool, next: nat, ps: seq<Rgbe>)
    requires pos <= |file| && goal == ReadFlat(first, file[pos..], n)
    ensures next <= |file| && goal == if ok then Done(ps, file[next..]) else Failed(file[next..])
  {
    if |file| - pos < 4 * n {
      return false, |file|, [];
    }
    next := pos + 4 * n;
    assert file[pos..][4 * n..] == file[next..];
    var rest := file[pos..next];
    var qs := [];
    var i := 0;
    while i < n
      invariant 0 <= i <= n && |qs| == i
      invariant forall k :: 0 <= k < i ==> qs[k] == Rgbe(rest[4 * k], rest[4 * k + 1], rest[4 * k + 2], rest[4 * k + 3])
    {
      qs := qs + [Rgbe(rest[4 * i], rest[4 * i + 1], rest[4 * i + 2], rest[4 * i + 3])];
      i := i + 1;
    }
    assert qs == Pixels(file[pos..], n);
    return true, next, first + qs;
  }

  /** One scanline, whether it is coded or not. */
  method ReadPixelsRle(file: seq<byte>, pos: nat, width: nat, ghost goal: Outcome<seq<Rgbe>>)
    returns (ok: bool, next: nat, ps: seq<Rgbe>)
    requires pos <= |file| && goal == ReadLine(file[pos..], width)
    ensures next <= |file| && goal == if ok then Done(ps, file[next..]) else Failed(file[next..])
  {
    if !Coding(width) {
      ok, next, ps := ReadPixels(file, pos, width, [], goal);
      return;
    }
    if |file| - pos < 4 {
      return false, |file|, [];
    }
    var body := pos + 4;
    var rgbe := file[pos..body];
    assert file[pos..][4..] == file[body..];
    if rgbe[0] != 2 || rgbe[1] != 2 || rgbe[2] >= 128 {
      ok, next, ps := ReadPixels(file, body, width - 1, [Rgbe(rgbe[0], rgbe[1], rgbe[2], rgbe[3])], goal);
    } else if rgbe[2] as nat * 256 + rgbe[3] as nat != width {
      return false, body, [];
    } else {
      ok, next, ps := ReadCoded(file, body, width, goal);
    }
  }

  // ----- The reader with its cache.

  class HdrInput {
    const file: seq<byte>
    const width: nat
    var nextScanline: nat
    var scanlineOffsets: seq<nat>
    var pos: nat

    function Now(): State
      reads this
    {
      State(nextScanline, scanlineOffsets, pos)
    }

    constructor (file: seq<byte>, width: nat, first: nat)
      ensures this.file == file && this.width == width && Now() == Opened(first)
    {
      this.file, this.width := file, width;
      nextScanline, scanlineOffsets, pos := 0, [first], first;
    }

    /** Scanline y, whatever has been read before. */
    method ReadNativeScanline(y: nat) returns (ok: bool, ps: seq<Rgbe>)
      requires Ok(Now(), file)
      modifies this
      ensures Ok(Now(), file)
      ensures NativeCall(file, width, old(Now()), y) == (Now(), if ok then Some(ps) else None)
    {
      ghost var (read, was) := (LineReader(width), Now());
      LineReaderIs(width, read);
      ok, ps := SeekAndRead(y, read);
      NativeCallIs(file, width, read, was, y);
    }

    method SeekAndRead(y: nat, ghost read: Reader) returns (ok: bool, ps: seq<Rgbe>)
      requires Ok(Now(), file) && Orderly(read) && Is(read, width)
      modifies this
      ensures Ok(Now(), file)
      ensures Call(file, read, old(Now()), y) == (Now(), if ok then Some(ps) else None)
    {
      SeekScanline(y);
      ok, ps := ReadOn(y, read);
    }

    /** Go to scanline y, or to the last one before it whose offset is known. */
    method SeekScanline(y: nat)
      requires Ok(Now(), file)
      modifies this
      ensures Ok(Now(), file) && Now() == Seek(old(Now()), y)
    {
      if nextScanline != y {
        nextScanline := if y < |scanlineOffsets| - 1 then y else |scanlineOffsets| - 1;
        pos := scanlineOffsets[nextScanline];
      }
    }

    /** The scanlines from here to y; the last one counts. */
    method ReadOn(y: nat, ghost read: Reader) returns (ok: bool, ps: seq<Rgbe>)
      requires Ok(Now(), file) && Orderly(read) && Is(read, width)
      modifies this
      ensures Ok(Now(), file)
      ensures ReadUpTo(file, read, old(Now()), y, []) == (Now(), if ok then Some(ps) else None)
    {
      ghost var goal := ReadUpTo(file, read, Now(), y, []);
      ps := [];
      while nextScanline <= y
        invariant Ok(Now(), file)
        invariant goal == ReadUpTo(file, read, Now(), y, ps)
        decreases y + 1 - nextScanline
      {
        ghost var o := read(file[pos..]);
        ghost var (was, got) := (Now(), ps);
        IsAt(read, width, file[pos..]);
        ok, ps := Pass(o);
        ReadUpToNext(file, read, was, y, got, o, Now());
        if !ok {
          return;
        }
      }
      ok := true;
    }

    /** One more scanline; where it ends is remembered if that was not known. */
    method Pass(ghost o: Outcome<seq<Rgbe>>) returns (ok: bool, ps: seq<Rgbe>)
      requires Ok(Now(), file) && o == ReadLine(file[pos..], width)
      modifies this
      ensures |o.rest| <= |file| && Now() == Passed(old(Now()), |file| - |o.rest|)
      ensures if ok then o.Done? && o.value == ps else o.Failed?
    {
      var next;
      ok, next, ps := ReadPixelsRle(file, pos, width, o);
      assert |o.rest| == |file[next..]|;
      Remember(next);
    }

    method Remember(next: nat)
      modifies this
      ensures Now() == Passed(old(Now()), next)
    {
      pos := next;
      nextScanline := nextScanline + 1;
      if nextScanline == |scanlineOffsets| {
        scanlineOffsets := scanlineOffsets + [pos];
      }
    }
  }

  /** The function is the one that reads scanlines of this width. */
  ghost predicate Is(read: Reader, width: nat) {
    forall file {:trigger ReadLine(file, width)} :: read(file) == ReadLine(file, width)
  }

  lemma IsAt(read: Reader, width: nat, rest: seq<byte>)
    requires Is(read, width)
    ensures read(rest) == ReadLine(rest, width)
  {
  }

  lemma LineReaderIs(width: nat, read: Reader)
    requires read == LineReader(width)
    ensures Is(read, width) && Orderly(read)
  {
    LineReaderOrderly(width);
  }

  /** What a call does in a file of scanlines of this width. */
  function NativeCall(file: seq<byte>, width: nat, s: State, y: nat): (r: (State, Option<seq<Rgbe>>))
    requires Ok(s, file)
  {
    LineReaderOrderly(width);
    Call(file, LineReader(width), s, y)
  }

  lemma NativeCallIs(file: seq<byte>, width: nat, read: Reader, s: State, y: nat)
    requires Ok(s, file) && read == LineReader(width) && Orderly(read)
    ensures NativeCall(file, width, s, y) == Call(file, read, s, y)
  {
  }
}
