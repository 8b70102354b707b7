/** The GIF reader: random access to frames over a stream that only moves forward. */
module GifInput {
  import opened Bytes
  import opened GifPixels
  import opened GifReplay

  /** The decoding library: it delivers records in order, and after a failure its position is anyone's guess. */
  class Stream {
    const records: seq<Record>
    ghost var position: Option<nat>

    constructor (records: seq<Record>)
      ensures this.records == records && position == Some(0)
    {
      this.records := records;
      position := Some(0);
    }

    /** The next header. */
    method Header(k: nat) returns (r: Record)
      requires position == Some(k)
      modifies this
      ensures r == if k < |records| then records[k] else NoFrame(DISPOSAL_UNSPECIFIED)
      ensures position == if r.Frame? then old(position) else None
    {
      r := if k < |records| then records[k] else NoFrame(DISPOSAL_UNSPECIFIED);
      position := if r.Frame? then Some(k) else None;
    }

    /** The lines of the frame have been read, or reading them has failed. */
    ghost method Passed(ok: bool)
      requires position.Some?
      modifies this
      ensures position == if ok then Some(old(position).value + 1) else None
    {
      position := if ok then Some(position.value + 1) else None;
    }
  }

  // ----- Drawing.

  lemma LinesNext(canvas: Canvas, f: Image, colors: seq<Rgb>, k: nat, next: nat, c: Canvas)
    requires k < |f.lines| && next == k + 1 && DrawLines(canvas, f, colors, k) == Some(c)
    ensures var (y, line) := (RowOf(f, k), f.lines[k]);
      DrawLines(canvas, f, colors, next)
      == if !(0 <= y < |c|) then Some(c)
         else if !InTable(line, colors) then None
         else Some(c[y := DrawLine(c[y], line, f.left, colors, f.transparent)])
  {
  }

  lemma {:induction false} LinesFailed(canvas: Canvas, f: Image, colors: seq<Rgb>, k: nat, n: nat)
    requires k <= n <= |f.lines| && DrawLines(canvas, f, colors, k) == None
    ensures DrawLines(canvas, f, colors, n) == None
  {
    if k < n {
      LinesFailed(canvas, f, colors, k, n - 1);
    }
  }

  /** One line, pixel by pixel; an index beyond the palette ends it. */
  method DrawPixels(row: seq<Rgba>, line: seq<byte>, left: nat, colors: seq<Rgb>, transparent: Option<byte>)
    returns (ok: bool, drawn: seq<Rgba>)
    ensures ok <==> InTable(line, colors)
    ensures ok ==> drawn == DrawLine(row, line, left, colors, transparent)
  {
    drawn := row;
    var wx := 0;
    while wx < |line|
      invariant 0 <= wx <= |line| && |drawn| == |row|
      invariant forall x :: 0 <= x < wx ==> line[x] as int < |colors|
      invariant forall x :: 0 <= x < |row| ==>
        drawn[x] == if left <= x < left + wx then Shade(line[x - left], colors, transparent) else row[x]
    {
      if line[wx] as int >= |colors| {
        return false, drawn;
      }
      var x := left + wx;
      if x < |row| {
        drawn := drawn[x := Shade(line[wx], colors, transparent)];
      }
      wx := wx + 1;
    }
    ok := true;
  }

  /** The lines of a frame, as they come; a line that cannot be decoded or drawn ends it. */
  method DrawImage(canvas: Canvas, f: Image, colors: seq<Rgb>) returns (ok: bool, drawn: Canvas)
    ensures ok ==> |f.lines| >= f.height && DrawLines(canvas, f, colors, |f.lines|) == Some(drawn)
    ensures !ok ==> |f.lines| < f.height || DrawLines(canvas, f, colors, |f.lines|) == None
  {
    drawn := canvas;
    var wy := 0;
    while wy < |f.lines|
      invariant 0 <= wy <= |f.lines| && DrawLines(canvas, f, colors, wy) == Some(drawn)
    {
      var next := wy + 1;
      LinesNext(canvas, f, colors, wy, next, drawn);
      var y := RowOf(f, wy);
      if 0 <= y < |drawn| {
        var fits, row := DrawPixels(drawn[y], f.lines[wy], f.left, colors, f.transparent);
        if !fits {
          LinesFailed(canvas, f, colors, next, |f.lines|);
          return false, drawn;
        }
        drawn := drawn[y := row];
      }
      wy := next;
    }
    ok := |f.lines| >= f.height;
  }

  // ----- The reader.

  /** What can go wrong outside the file when it is closed and opened again. */
  datatype System = System(closes: bool, opens: bool)

  /** What is known of a frame: the size of the canvas, and whether the frame is interlaced. */
  datatype Spec = Spec(width: nat, height: nat, interlaced: bool)

  /** The spec is that of frame n. */
  predicate Describes(spec: Option<Spec>, records: seq<Record>, width: nat, height: nat, n: nat) {
    n < |records| && records[n].Frame? && spec == Some(Spec(width, height, records[n].image.interlaced))
  }

  /** Row y of the canvas after frame n. */
  predicate IsRow(records: seq<Record>, width: nat, height: nat, n: nat, y: int, row: seq<Rgba>) {
    match Replay(records, width, height, n + 1)
    case None => false
    case Some(s) => 0 <= y < |s.canvas| && row == s.canvas[y]
  }

  class GIFInput {
    const records: seq<Record>
    const width: nat
    const height: nat

    var stream: Stream?
    var subimage: Option<nat>
    var streamSubimage: Option<nat>
    var disposal: nat
    var previousDisposal: nat
    var canvas: Canvas
    var spec: Option<Spec>

    /** A trusted position is the real one, and there the canvas is what the frames before it show. */
    ghost predicate Trusted()
      reads this, stream
    {
      streamSubimage.Some? ==>
        && stream != null && stream.position == streamSubimage
        && (streamSubimage.value > 0 ==>
              Replay(records, width, height, streamSubimage.value) == Some(Shown(canvas, disposal)))
    }

    /** The current subimage is the one before the stream, and the canvas shows it. */
    ghost predicate Valid()
      reads this, stream
    {
      && (stream != null ==> stream.records == records)
      && Trusted()
      && (subimage.Some? ==> streamSubimage == Some(subimage.value + 1))
      && (subimage.Some? ==> Describes(spec, records, width, height, subimage.value))
      && (subimage.None? ==> spec == None)
    }

    constructor (records: seq<Record>, width: nat, height: nat)
      ensures Valid() && subimage == None && streamSubimage == None
      ensures this.records == records && this.width == width && this.height == height && stream == null
    {
      this.records, this.width, this.height := records, width, height;
      stream, subimage, streamSubimage := null, None, None;
      disposal, previousDisposal, canvas, spec := DISPOSAL_UNSPECIFIED, DISPOSAL_UNSPECIFIED, [], None;
    }

    /** The stream is closed if it is behind or lost, and opened if there is none. */
    method Reopen(n: nat, sys: System) returns (ok: bool)
      requires Valid() && subimage == None
      modifies this`stream, this`streamSubimage, this`canvas
      ensures Valid() && (sys.closes && sys.opens ==> ok)
      ensures ok ==> streamSubimage.Some? && streamSubimage.value <= n
      ensures stream == null || stream == old(stream) || fresh(stream)
      ensures !ok ==> streamSubimage == None
    {
      if streamSubimage.None? || streamSubimage.value > n {
        streamSubimage := None;
        if stream != null {
          // closing forgets the stream and the canvas even if it reports an error
          stream, canvas := null, [];
          if !sys.closes {
            return false;
          }
        }
      }
      if stream == null {
        if !sys.opens {
          return false;
        }
        stream := new Stream(records);
        streamSubimage := Some(0);
      }
      return true;
    }

    /** One more frame from the stream, drawn on the canvas. */
    method ReadFrame(k: nat, next: nat) returns (ok: bool)
      requires At(k) && next == k + 1
      modifies this`disposal, this`previousDisposal, this`canvas, this`spec, stream
      ensures ok <==> Replay(records, width, height, next).Some?
      ensures ok ==> At(next) && Describes(spec, records, width, height, k)
    {
      FrameNext(records, width, height, k, next, Shown(canvas, disposal));
      previousDisposal := disposal;
      var r := stream.Header(k);
      if r.NoFrame? {
        disposal := r.disposal;
        return false;
      }
      ok := DrawOn(k, r.image);
    }

    /** A frame is drawn on the canvas, or on a blank one. */
    method DrawOn(k: nat, f: Image) returns (ok: bool)
      requires stream != null && stream.position == Some(k)
      modifies this`disposal, this`canvas, this`spec, stream
      ensures disposal == f.disposal && spec == Some(Spec(width, height, f.interlaced))
      ensures DrawFrame(old(canvas), previousDisposal, f, k, width, height) == if ok then Some(canvas) else None
      ensures stream.position == if ok then Some(k + 1) else None
    {
      disposal, spec := f.disposal, Some(Spec(width, height, f.interlaced));
      if f.colors.None? {
        ok := false;
      } else {
        if k == 0 || previousDisposal == DISPOSE_BACKGROUND {
          canvas := Blank(width, height);
        }
        ok, canvas := DrawImage(canvas, f, f.colors.value);
      }
      stream.Passed(ok);
    }

    /** The stream is at frame k, and the canvas shows the frames before it. */
    ghost predicate At(k: nat)
      reads this, stream
    {
      && stream != null && stream.records == records && stream.position == Some(k)
      && (k > 0 ==> Replay(records, width, height, k) == Some(Shown(canvas, disposal)))
    }

    /** Skip the frames before frame n, drawing them. */
    method SkipTo(from: nat, n: nat) returns (ok: bool)
      requires At(from) && from <= n
      modifies this`disposal, this`previousDisposal, this`canvas, this`spec, stream
      ensures ok ==> At(n)
      ensures !ok ==> Replay(records, width, height, n) == None
    {
      var pos := from;
      while pos < n
        invariant from <= pos <= n && At(pos)
      {
        var next := pos + 1;
        ok := ReadFrame(pos, next);
        if !ok {
          NoneLater(records, width, height, next, n);
          return;
        }
        pos := next;
      }
      ok := true;
    }

    /** Read the frames from here up to frame n. */
    method Advance(from: nat, n: nat, next: nat) returns (ok: bool)
      requires At(from) && from <= n && next == n + 1
      modifies this`disposal, this`previousDisposal, this`canvas, this`spec, stream
      ensures ok <==> Replay(records, width, height, next).Some?
      ensures if ok then At(next) && Describes(spec, records, width, height, n) else spec == None
    {
      ok := SkipTo(from, n);
      if ok {
        ok := ReadFrame(n, next);
      } else {
        NoneLater(records, width, height, n, next);
      }
      if !ok {
        spec := None;
      }
    }

    /** Leave the current frame and go to another one, if need be from the front. */
    method MoveTo(n: nat, next: nat, sys: System) returns (ok: bool)
      requires Valid() && next == n + 1
      modifies this, stream
      ensures Valid() && subimage == if ok then Some(n) else None
      ensures ok ==> Replay(records, width, height, next) == Some(Shown(canvas, disposal))
      ensures sys.closes && sys.opens ==> (ok <==> Replay(records, width, height, next).Some?)
      ensures stream == null || stream == old(stream) || fresh(stream)
    {
      Leave();
      ok := Reopen(n, sys);
      if ok {
        ok := ReachFrame(n, next);
      }
    }

    /** No frame is the current one. */
    method Leave()
      requires Valid()
      modifies this`subimage, this`spec
      ensures Valid() && subimage == None
    {
      subimage, spec := None, None;
    }

    /** Go on to a frame from a position that is trusted. */
    method ReachFrame(n: nat, next: nat) returns (ok: bool)
      requires Valid() && subimage == None && streamSubimage.Some? && streamSubimage.value <= n && next == n + 1
      modifies this`subimage, this`streamSubimage, this`disposal, this`previousDisposal, this`canvas, this`spec, stream
      ensures Valid() && subimage == if ok then Some(n) else None
      ensures ok <==> Replay(records, width, height, next).Some?
      ensures ok ==> Replay(records, width, height, next) == Some(Shown(canvas, disposal))
    {
      var pos := streamSubimage.value;
      assert At(pos);
      streamSubimage := None;
      ok := Advance(pos, n, next);
      if ok {
        Arrive(n, next);
      }
    }

    /** The frame that has just been drawn becomes the current one. */
    method Arrive(n: nat, next: nat)
      requires next == n + 1 && At(next) && Describes(spec, records, width, height, n)
      modifies this`subimage, this`streamSubimage
      ensures Valid() && At(next) && subimage == Some(n)
    {
      subimage, streamSubimage := Some(n), Some(next);
    }

    /**
     * Make a frame the current one. If the system lets it, this succeeds exactly if drawing all frames up to it does,
     * and then the canvas and the disposal method are those of a reader that has done just that. A failure behind
     * the first check leaves no current frame and no spec, and the position of the stream is trusted only where it is
     * known.
     */
    method SeekSubimage(n: int, miplevel: int, sys: System) returns (ok: bool)
      requires Valid()
      modifies this, stream
      ensures Valid()
      ensures n < 0 || miplevel != 0 ==> !ok && subimage == old(subimage) && canvas == old(canvas)
      ensures n < 0 || miplevel != 0 ==> spec == old(spec)
      ensures n >= 0 && miplevel == 0 ==> subimage == if ok then Some(n) else None
      ensures n >= 0 && miplevel == 0 ==> if ok then Describes(spec, records, width, height, n) else spec == None
      ensures ok ==> n >= 0 && Replay(records, width, height, n + 1) == Some(Shown(canvas, disposal))
      ensures n >= 0 && miplevel == 0 && sys.closes && sys.opens ==> (ok <==> Replay(records, width, height, n + 1).Some?)
      ensures stream == null || stream == old(stream) || fresh(stream)
    {
      if n < 0 || miplevel != 0 {
        return false;
      }
      if subimage == Some(n) {
        return true;
      }
      ok := MoveTo(n, n + 1, sys);
    }

    /** A row of a frame, whatever has been read before. */
    method ReadNativeScanline(n: int, miplevel: int, y: int, sys: System) returns (ok: bool, row: seq<Rgba>)
      requires Valid()
      modifies this, stream
      ensures Valid()
      ensures ok ==> n >= 0 && IsRow(records, width, height, n, y, row)
      ensures n >= 0 && miplevel == 0 && sys.closes && sys.opens ==>
        (ok <==> Replay(records, width, height, n + 1).Some? && 0 <= y < height && width > 0)
    {
      row := [];
      ok := SeekSubimage(n, miplevel, sys);
      if !ok {
        return;
      }
      ReplaySized(records, width, height, n + 1);
      if y < 0 || y >= spec.value.height || canvas == [] || canvas[0] == [] {
        return false, [];
      }
      row := canvas[y];
    }
  }

  /** What the next frame does does not depend on the canvas if it is the first. */
  lemma FrameNext(records: seq<Record>, width: nat, height: nat, k: nat, next: nat, s: Shown)
    requires next == k + 1 && (k > 0 ==> Replay(records, width, height, k) == Some(s))
    ensures Replay(records, width, height, next) == DrawNext(records, width, height, k, s)
  {
    if k == 0 {
      FirstFrame(records, width, height, s);
    } else {
      ReplayNext(records, width, height, k, next);
    }
  }
}
