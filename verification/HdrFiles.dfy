/** Radiance files read in any order: those of the writer, and one that is misread. */
module HdrFiles {
  import opened Bytes
  import opened HdrRle
  import opened HdrScanline
  import opened HdrCache

  // ----- The scanlines of Radiance files.

  lemma EndOfEnd(a: seq<byte>, b: seq<byte>, c: seq<byte>)
    requires EndOf(a, b) && EndOf(b, c)
    ensures EndOf(a, c)
  {
    assert c[|c| - |a|..] == c[|c| - |b|..][|b| - |a|..];
  }

  lemma {:induction false} DecodeEnds(out: seq<byte>, file: seq<byte>, n: nat)
    ensures EndOf(Decode(out, file, n).rest, file)
    decreases |file|
  {
    if |out| < n && |file| >= 2 {
      var (first, body) := (file[0], file[1..]);
      var need := Need(first);
      if first != 0 && |out| + Count(first) <= n && |body| >= need {
        DecodeEnds(out + Expanded(first, body[..need]), body[need..], n);
        assert body[need..] == file[1 + need..];
        EndOfEnd(Decode(out, file, n).rest, body[need..], file);
      }
    }
  }

  lemma {:induction false} ChannelsEnd(done: seq<seq<byte>>, file: seq<byte>, width: nat, more: nat)
    requires forall p :: p in done ==> |p| == width
    ensures EndOf(ReadChannels(done, file, width, more).rest, file)
    decreases more
  {
    if more > 0 {
      var o := ReadPlane(file, width);
      DecodeEnds([], file, width);
      if o.Done? {
        ChannelsEnd(done + [o.value], o.rest, width, more - 1);
        EndOfEnd(ReadChannels(done + [o.value], o.rest, width, more - 1).rest, o.rest, file);
      }
    }
  }

  lemma LineEnds(file: seq<byte>, width: nat)
    ensures EndOf(ReadLine(file, width).rest, file)
  {
    if Coding(width) && |file| >= 4 {
      assert EndOf(file[4..], file);
      ChannelsEnd([], file[4..], width, 4);
      if Marked(file) {
        EndOfEnd(ReadLine(file, width).rest, file[4..], file);
      } else {
        assert EndOf(ReadLine(file, width).rest, file[4..]);
        EndOfEnd(ReadLine(file, width).rest, file[4..], file);
      }
    }
  }

  function LineReader(width: nat): Reader {
    file => ReadLine(file, width)
  }

  lemma LineReaderOrderly(width: nat)
    ensures Orderly(LineReader(width))
  {
    forall file
      ensures EndOf(LineReader(width)(file).rest, file)
    {
      LineEnds(file, width);
    }
  }

  /** Eight equal pixels, coded. */
  function EightCoded(): seq<byte> {
    Marker(8) + Eight() + Eight() + Eight() + Eight()
  }

  function Eight(): seq<byte> {
    [136, 7]
  }

  function EightPixels(): (ps: seq<Rgbe>)
    ensures |ps| == 8 && forall i :: 0 <= i < 8 ==> ps[i] == Rgbe(7, 7, 7, 7)
  {
    seq(8, _ => Rgbe(7, 7, 7, 7))
  }

  lemma EightBack()
    ensures Writes(EightCoded(), EightPixels())
  {
    var (p, plane) := (Run(8, 7), Filled(8, 7));
    assert Coded(p) == Eight() && Values(p) == plane;
    OnePacket(p);
    var ps := EightPixels();
    assert Plane(ps, 0) == plane && Plane(ps, 1) == plane && Plane(ps, 2) == plane && Plane(ps, 3) == plane;
    CodedLine(ps, Eight(), Eight(), Eight(), Eight());
  }

  /** A marker with the wrong width, then a proper scanline. */
  function Misleading(): (f: seq<byte>)
    ensures |f| > 4
  {
    [2, 2, 0, 9] + EightCoded()
  }

  /** The first scanline is refused, and the second one is looked for behind its marker. */
  lemma FirstRefused(f: seq<byte>, read: Reader)
    requires f == Misleading() && read == LineReader(8) && Orderly(read)
    ensures Tried(f, read, 0, 0) == Failed(f[4..]) && Tried(f, read, 0, 1) == Done(EightPixels(), [])
  {
    EightBack();
    assert f[0..] == f && f[4..] == EightCoded() && EightCoded() + [] == EightCoded();
    TrailNext(f, read, 0, 0, 1);
  }

  /**
   * There neither scanline can be reached from the front; but if the first one is asked for and refused,
   * then the second one is delivered.
   */
  lemma MisleadingFile()
    ensures Orderly(LineReader(8)) && !Agreeing(Misleading(), LineReader(8), 0)
    ensures LineOf(Misleading()[0..], LineReader(8), 1) == None
    ensures Calls(Misleading(), LineReader(8), Opened(0), [0, 1]).1 == [None, Some(EightPixels())]
  {
    var (f, read) := (Misleading(), LineReader(8));
    LineReaderOrderly(8);
    FirstRefused(f, read);
    Misled(f, read, 0, 0, 1);
    TwoAnswers(f, read, [0, 1]);
  }

  lemma TwoAnswers(f: seq<byte>, read: Reader, ys: seq<nat>)
    requires Orderly(read) && ys == [0, 1] && !Good(f, read, 0, 0)
    ensures Calls(f, read, Opened(0), ys).1 == [None, Answer(f, read, 0, Before(1), 1)]
  {
    AnswerIs(f, read, 0, ys, 0);
    AnswerIs(f, read, 0, ys, 1);
    AnswerWhen(f, read, 0, [], 0);
    assert ys[..0] == [] && ys[..1] == [0] == Before(1);
  }

  // ----- Files of the writer.

  /** A reader finds every scanline that was written, in whatever order they are asked for. */
  lemma WrittenInAnyOrder(codes: seq<seq<byte>>, lines: seq<seq<Rgbe>>, width: nat, header: seq<byte>, ys: seq<nat>,
                          i: nat)
    requires |codes| == |lines| && i < |ys| && ys[i] < |lines|
    requires forall k :: 0 <= k < |codes| ==> |lines[k]| == width && Writes(codes[k], lines[k])
    ensures Orderly(LineReader(width))
    ensures Calls(header + Joined(codes, 0), LineReader(width), Opened(|header|), ys).1[i] == Some(lines[ys[i]])
  {
    LineReaderOrderly(width);
    forall k | 0 <= k < |codes|
      ensures Reads(LineReader(width), codes[k], lines[k])
    {
      assert Writes(codes[k], lines[k]);
    }
    JoinedInAnyOrder(LineReader(width), header, codes, lines, ys, i);
  }
}
