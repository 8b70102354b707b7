/** Scanlines of a Radiance file: how they are written and read, and where they start. */
module HdrScanline {
  import opened Bytes
  import opened HdrRle

  /** The four bytes of a pixel. */
  datatype Rgbe = Rgbe(r: byte, g: byte, b: byte, e: byte)

  function Component(p: Rgbe, c: nat): byte {
    if c == 0 then p.r else if c == 1 then p.g else if c == 2 then p.b else p.e
  }

  function Plane(ps: seq<Rgbe>, c: nat): (s: seq<byte>)
    ensures |s| == |ps| && forall i :: 0 <= i < |ps| ==> s[i] == Component(ps[i], c)
  {
    seq(|ps|, i requires 0 <= i < |ps| => Component(ps[i], c))
  }

  /** The pixels that four planes make up. */
  function Zip(r: seq<byte>, g: seq<byte>, b: seq<byte>, e: seq<byte>): (ps: seq<Rgbe>)
    requires |r| == |g| == |b| == |e|
    ensures |ps| == |r| && forall i :: 0 <= i < |ps| ==> ps[i] == Rgbe(r[i], g[i], b[i], e[i])
  {
    seq(|r|, i requires 0 <= i < |r| => Rgbe(r[i], g[i], b[i], e[i]))
  }

  lemma ZipPlanes(ps: seq<Rgbe>)
    ensures Zip(Plane(ps, 0), Plane(ps, 1), Plane(ps, 2), Plane(ps, 3)) == ps
  {
  }

  // ----- Without run-length coding: pixel by pixel.

  function Bytes4(p: Rgbe): seq<byte> {
    [p.r, p.g, p.b, p.e]
  }

  function Flat(ps: seq<Rgbe>, n: nat): (s: seq<byte>)
    requires n <= |ps|
    ensures |s| == 4 * n
  {
    if n == 0 then [] else Flat(ps, n - 1) + Bytes4(ps[n - 1])
  }

  /** The pixels of a file without run-length coding. */
  function Pixels(file: seq<byte>, n: nat): (ps: seq<Rgbe>)
    requires 4 * n <= |file|
    ensures |ps| == n
    ensures forall i :: 0 <= i < n ==>
      ps[i] == Rgbe(file[4 * i], file[4 * i + 1], file[4 * i + 2], file[4 * i + 3])
  {
    seq(n, i requires 0 <= i < n => Rgbe(file[4 * i], file[4 * i + 1], file[4 * i + 2], file[4 * i + 3]))
  }

  /** The remaining n pixels of a scanline are read at once. */
  function ReadFlat(first: seq<Rgbe>, file: seq<byte>, n: nat): Outcome<seq<Rgbe>> {
    if |file| < 4 * n then Failed([]) else Done(first + Pixels(file, n), file[4 * n..])
  }

  // ----- With run-length coding.

  /** Such scanlines are neither too short nor too long. */
  predicate Coding(width: nat) {
    8 <= width <= 0x7fff
  }

  function ReadPlane(file: seq<byte>, width: nat): (o: Outcome<seq<byte>>)
    ensures o.Done? ==> |o.value| == width
  {
    DecodedExactly([], file, width);
    Decode([], file, width)
  }

  /** Read so many more channels. */
  function ReadChannels(done: seq<seq<byte>>, file: seq<byte>, width: nat, more: nat): (o: Outcome<seq<seq<byte>>>)
    requires forall p :: p in done ==> |p| == width
    ensures o.Done? ==> |o.value| == |done| + more && forall p :: p in o.value ==> |p| == width
    decreases more
  {
    if more == 0 then Done(done, file)
    else
      match ReadPlane(file, width)
      case Failed(rest) => Failed(rest)
      case Done(p, rest) => ReadChannels(done + [p], rest, width, more - 1)
  }

  function ZipAll(planes: seq<seq<byte>>, width: nat): seq<Rgbe>
    requires |planes| == 4 && forall p :: p in planes ==> |p| == width
  {
    assert forall c :: 0 <= c < 4 ==> |planes[c]| == width;
    Zip(planes[0], planes[1], planes[2], planes[3])
  }

  function ReadPlanes(file: seq<byte>, width: nat): Outcome<seq<Rgbe>> {
    match ReadChannels([], file, width, 4)
    case Failed(rest) => Failed(rest)
    case Done(planes, rest) => Done(ZipAll(planes, width), rest)
  }

  predicate Marked(file: seq<byte>)
    requires |file| >= 4
  {
    file[0] == 2 && file[1] == 2 && file[2] < 128
  }

  /** One scanline. A file without the marker of run-length coding is read pixel by pixel. */
  function ReadLine(file: seq<byte>, width: nat): Outcome<seq<Rgbe>> {
    if !Coding(width) then ReadFlat([], file, width)
    else if |file| < 4 then Failed([])
    else if !Marked(file) then ReadFlat([Rgbe(file[0], file[1], file[2], file[3])], file[4..], width - 1)
    else if file[2] as nat * 256 + file[3] as nat != width then Failed(file[4..])
    else ReadPlanes(file[4..], width)
  }

  // ----- Round trips.

  /** Reading x as a scanline gives the pixels, and reads exactly x, whatever follows. */
  ghost predicate Writes(x: seq<byte>, ps: seq<Rgbe>) {
    forall rest :: ReadLine(x + rest, |ps|) == Done(ps, rest)
  }

  function Marker(width: nat): seq<byte>
    requires Coding(width)
  {
    [2, 2, (width / 256) as byte, (width % 256) as byte]
  }

  lemma ChannelBack(done: seq<seq<byte>>, x: seq<byte>, plane: seq<byte>, rest: seq<byte>, more: nat)
    requires Codes(x, plane) && forall p :: p in done ==> |p| == |plane|
    ensures ReadChannels(done, x + rest, |plane|, more + 1) == ReadChannels(done + [plane], rest, |plane|, more)
  {
    assert ReadPlane(x + rest, |plane|) == Done(plane, rest);
  }

  /** Four planes that decode one by one decode together. */
  lemma PlanesBack(ps: seq<Rgbe>, r: seq<byte>, g: seq<byte>, b: seq<byte>, e: seq<byte>, rest: seq<byte>)
    requires Codes(r, Plane(ps, 0)) && Codes(g, Plane(ps, 1)) && Codes(b, Plane(ps, 2)) && Codes(e, Plane(ps, 3))
    ensures ReadPlanes(r + (g + (b + (e + rest))), |ps|) == Done(ps, rest)
  {
    var (p0, p1, p2, p3) := (Plane(ps, 0), Plane(ps, 1), Plane(ps, 2), Plane(ps, 3));
    ChannelBack([], r, p0, g + (b + (e + rest)), 3);
    ChannelBack([] + [p0], g, p1, b + (e + rest), 2);
    ChannelBack([] + [p0] + [p1], b, p2, e + rest, 1);
    ChannelBack([] + [p0] + [p1] + [p2], e, p3, rest, 0);
    ZipPlanes(ps);
  }

  lemma MarkerBack(width: nat, rest: seq<byte>)
    requires Coding(width)
    ensures ReadLine(Marker(width) + rest, width) == ReadPlanes(rest, width)
  {
    var file := Marker(width) + rest;
    assert file[4..] == rest;
  }

  /** The marker and four coded planes are read as the scanline. */
  lemma CodedLine(ps: seq<Rgbe>, r: seq<byte>, g: seq<byte>, b: seq<byte>, e: seq<byte>)
    requires Coding(|ps|)
    requires Codes(r, Plane(ps, 0)) && Codes(g, Plane(ps, 1)) && Codes(b, Plane(ps, 2)) && Codes(e, Plane(ps, 3))
    ensures Writes(Marker(|ps|) + r + g + b + e, ps)
  {
    forall rest
      ensures ReadLine(Marker(|ps|) + r + g + b + e + rest, |ps|) == Done(ps, rest)
    {
      var m := Marker(|ps|);
      PlanesBack(ps, r, g, b, e, rest);
      MarkerBack(|ps|, r + (g + (b + (e + rest))));
      Assoc(m + r + g + b, e, rest);
      Assoc(m + r + g, b, e + rest);
      Assoc(m + r, g, b + (e + rest));
      Assoc(m, r, g + (b + (e + rest)));
    }
  }

  lemma Within(s: seq<byte>, rest: seq<byte>, i: nat, j: nat)
    requires i <= j <= |s|
    ensures (s + rest)[i..j] == s[i..j]
  {
  }

  lemma {:induction false} FlatAt(ps: seq<Rgbe>, n: nat, i: nat)
    requires i < n <= |ps|
    ensures Flat(ps, n)[4 * i..4 * i + 4] == Bytes4(ps[i])
    decreases n
  {
    if i < n - 1 {
      FlatAt(ps, n - 1, i);
      Within(Flat(ps, n - 1), Bytes4(ps[n - 1]), 4 * i, 4 * i + 4);
    }
  }

  lemma PixelAt(file: seq<byte>, n: nat, i: nat, p: Rgbe)
    requires i < n && 4 * n <= |file| && file[4 * i..4 * i + 4] == Bytes4(p)
    ensures Pixels(file, n)[i] == p
  {
    var four := file[4 * i..4 * i + 4];
    assert four[0] == file[4 * i] && four[1] == file[4 * i + 1];
    assert four[2] == file[4 * i + 2] && four[3] == file[4 * i + 3];
  }

  lemma PixelsOfFlat(ps: seq<Rgbe>, n: nat, rest: seq<byte>)
    requires n == |ps|
    ensures Pixels(Flat(ps, n) + rest, n) == ps
  {
    forall i | 0 <= i < n
      ensures Pixels(Flat(ps, n) + rest, n)[i] == ps[i]
    {
      FlatAt(ps, n, i);
      Within(Flat(ps, n), rest, 4 * i, 4 * i + 4);
      PixelAt(Flat(ps, n) + rest, n, i, ps[i]);
    }
  }

  /** So are the pixels of a scanline that may not be coded. */
  lemma FlatLine(ps: seq<Rgbe>)
    requires !Coding(|ps|)
    ensures Writes(Flat(ps, |ps|), ps)
  {
    forall rest
      ensures ReadLine(Flat(ps, |ps|) + rest, |ps|) == Done(ps, rest)
    {
      PixelsOfFlat(ps, |ps|, rest);
      assert [] + ps == ps && (Flat(ps, |ps|) + rest)[4 * |ps|..] == rest;
    }
  }
}
