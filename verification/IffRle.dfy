/** The run-length coding of one channel of a tile in a Maya IFF file. */
module IffRle {
  import opened Bytes

  // ----- Packets: a header byte, then one byte to repeat or several to copy.

  const MAX_COUNT := 128

  // ----- The decoder.

  /** The bytes decoded so far, and what has not been read of the input. */
  datatype Progress = Progress(out: seq<byte>, rest: seq<byte>)

  /** The number of bytes that a packet decodes to, and how many bytes follow its header. */
  function Count(header: byte): (n: nat)
    ensures 1 <= n <= MAX_COUNT
  {
    (if header < 128 then header else header - 128) as int + 1
  }

  function Need(header: byte): nat {
    if header < 128 then Count(header) else 1
  }

  function Expanded(header: byte, data: seq<byte>): (s: seq<byte>)
    requires |data| == Need(header)
    ensures |s| == Count(header)
  {
    if header < 128 then data else Filled(Count(header), data[0])
  }

  /** Decode until there are max bytes or the input runs out; a packet that does not fit ends it. */
  function Uncompress(p: Progress, max: nat): (r: Progress)
    decreases |p.rest|
  {
    if |p.out| >= max || p.rest == [] then p
    else
      var (header, body) := (p.rest[0], p.rest[1..]);
      var need := Need(header);
      if need > |body| || |p.out| + Count(header) > max then p.(rest := body)
      else Uncompress(Progress(p.out + Expanded(header, body[..need]), body[need..]), max)
  }

  /** Never more than max bytes. */
  lemma {:induction false} UncompressedAtMost(p: Progress, max: nat)
    requires |p.out| <= max
    ensures |Uncompress(p, max).out| <= max
    decreases |p.rest|
  {
    if |p.out| < max && p.rest != [] {
      var (header, body) := (p.rest[0], p.rest[1..]);
      var need := Need(header);
      if need <= |body| && |p.out| + Count(header) <= max {
        UncompressedAtMost(Progress(p.out + Expanded(header, body[..need]), body[need..]), max);
      }
    }
  }

  /** One packet is decoded. */
  lemma UncompressOne(out: seq<byte>, header: byte, data: seq<byte>, rest: seq<byte>, max: nat)
    requires |data| == Need(header) && |out| + Count(header) <= max
    ensures Uncompress(Progress(out, [header] + data + rest), max)
         == Uncompress(Progress(out + Expanded(header, data), rest), max)
  {
    var input := [header] + data + rest;
    assert input[1..] == data + rest;
    assert (data + rest)[..|data|] == data && (data + rest)[|data|..] == rest;
  }

  // ----- The encoder.

  /** The length of the run of equal bytes at the start, from count on, up to size. */
  function RunLength(s: seq<byte>, count: nat, size: nat): (n: nat)
    requires 1 <= count <= size <= |s|
    ensures count <= n <= size
    decreases size - count
  {
    if count < size && s[count - 1] == s[count] then RunLength(s, count + 1, size) else count
  }

  lemma {:induction false} RunIs(s: seq<byte>, count: nat, size: nat)
    requires 1 <= count <= size <= |s|
    requires forall k :: 0 <= k < count ==> s[k] == s[0]
    ensures forall k :: 0 <= k < RunLength(s, count, size) ==> s[k] == s[0]
    ensures RunLength(s, count, size) < size ==> s[RunLength(s, count, size)] != s[0]
    decreases size - count
  {
    if count < size && s[count - 1] == s[count] {
      RunIs(s, count + 1, size);
    }
  }

  /** Three equal bytes in a row start at t. */
  predicate Triple(s: seq<byte>, t: nat, size: nat)
    requires size <= |s|
  {
    t + 2 < size && s[t] == s[t + 1] == s[t + 2]
  }

  /** The bytes up to the first three equal ones in a row. */
  function CopyLength(s: seq<byte>, count: nat, size: nat): (n: nat)
    requires count <= size <= |s|
    ensures count <= n <= size
    decreases size - count
  {
    if count == size || Triple(s, count, size) then count else CopyLength(s, count + 1, size)
  }

  lemma {:induction false} CopyIs(s: seq<byte>, count: nat, size: nat)
    requires count <= size <= |s|
    ensures CopyLength(s, count, size) < size ==> Triple(s, CopyLength(s, count, size), size)
    decreases size - count
  {
    if count < size && !Triple(s, count, size) {
      CopyIs(s, count + 1, size);
    }
  }

  lemma {:induction false} CopyLengthIs(s: seq<byte>, count: nat, n: nat, size: nat)
    requires count <= n <= size <= |s|
    requires n < size ==> Triple(s, n, size)
    requires forall t :: count <= t < n ==> !Triple(s, t, size)
    ensures CopyLength(s, count, size) == n
    decreases n - count
  {
    if count < n {
      var next := count + 1;
      CopyLengthIs(s, next, n, size);
    }
  }

  function Cut(n: nat): nat {
    if n < MAX_COUNT then n else MAX_COUNT
  }

  /** The next packet repeats a byte. */
  predicate Repeats(s: seq<byte>) {
    |s| > 1 && s[0] == s[1]
  }

  /** How many bytes the next packet takes. */
  function Taken(s: seq<byte>): (n: nat)
    requires s != []
    ensures 1 <= n <= Cut(|s|)
  {
    if Repeats(s) then RunLength(s, 1, Cut(|s|)) else CopyLength(s, 1, Cut(|s|))
  }

  function Packet(s: seq<byte>): (p: seq<byte>)
    requires s != []
    ensures |p| >= 2
  {
    var n := Taken(s);
    if Repeats(s) then [(n + 127) as byte, s[0]] else [(n - 1) as byte] + s[..n]
  }

  lemma TakenRun(s: seq<byte>)
    requires Repeats(s)
    ensures Taken(s) >= 2 && s[..Taken(s)] == Filled(Taken(s), s[0])
    ensures |s| > 2 && s[1] == s[2] ==> Taken(s) >= 3
  {
    RunIs(s, 1, Cut(|s|));
  }

  function Compress(s: seq<byte>): seq<byte> {
    if s == [] then [] else Packet(s) + Compress(s[Taken(s)..])
  }

  // ----- The decoder undoes the encoder.

  lemma UncompressPacket(out: seq<byte>, s: seq<byte>, rest: seq<byte>, max: nat)
    requires s != [] && |out| + |s| <= max
    ensures Uncompress(Progress(out, Packet(s) + rest), max) == Uncompress(Progress(out + s[..Taken(s)], rest), max)
  {
    var (header, data) := (Packet(s)[0], Packet(s)[1..]);
    if Repeats(s) {
      TakenRun(s);
    }
    assert Packet(s) == [header] + data;
    assert Expanded(header, data) == s[..Taken(s)];
    UncompressOne(out, header, data, rest, max);
  }

  lemma {:induction false} UncompressAll(out: seq<byte>, s: seq<byte>, rest: seq<byte>)
    ensures Uncompress(Progress(out, Compress(s) + rest), |out + s|) == Progress(out + s, rest)
    decreases |s|
  {
    if s == [] {
      assert Compress(s) + rest == rest && out + s == out;
    } else {
      var (head, tail) := (s[..Taken(s)], s[Taken(s)..]);
      assert s == head + tail;
      Assoc(Packet(s), Compress(tail), rest);
      UncompressPacket(out, s, Compress(tail) + rest, |out + s|);
      Assoc(out, head, tail);
      UncompressAll(out + head, tail, rest);
    }
  }

  /** Decoding x gives s, and reads exactly x, whatever follows. */
  ghost predicate Codes(x: seq<byte>, s: seq<byte>) {
    forall rest :: Uncompress(Progress([], x + rest), |s|) == Progress(s, rest)
  }

  /** The round trip, and exactly the compressed bytes are read, whatever follows them. */
  lemma ChannelRoundTrip(s: seq<byte>)
    ensures Codes(Compress(s), s)
  {
    forall rest
      ensures Uncompress(Progress([], Compress(s) + rest), |s|) == Progress(s, rest)
    {
      UncompressAll([], s, rest);
      assert [] + s == s;
    }
  }

  // ----- How long the compressed channel is.

  /** The number of packets of at most 128 bytes that n bytes take. */
  function Packets(n: nat): nat {
    (n + MAX_COUNT - 1) / MAX_COUNT
  }

  /** A packet that ends at three equal bytes is followed by a run that makes up for its header. */
  lemma RunPays(s: seq<byte>)
    requires s != [] && !Repeats(s) && Taken(s) < Cut(|s|)
    ensures Taken(s[Taken(s)..]) >= 3 && |Packet(s[Taken(s)..])| == 2
  {
    var rest := s[Taken(s)..];
    CopyIs(s, 1, Cut(|s|));
    assert rest[0] == rest[1] == rest[2];
    TakenRun(rest);
  }

  /** At most one byte is lost in every 128. */
  lemma {:induction false} CompressedAtMost(s: seq<byte>)
    ensures |Compress(s)| <= |s| + Packets(|s|)
    decreases |s|
  {
    if s != [] {
      var rest := s[Taken(s)..];
      CompressedAtMost(rest);
      if Repeats(s) {
        TakenRun(s);
      } else if Taken(s) < Cut(|s|) {
        RunPays(s);
        CompressedAtMost(rest[Taken(rest)..]);
      }
    }
  }

  /** So twice the room is always enough. */
  lemma {:induction false} CompressedFits(s: seq<byte>)
    ensures |Compress(s)| <= 2 * |s|
    decreases |s|
  {
    if s != [] {
      if Repeats(s) {
        TakenRun(s);
      }
      CompressedFits(s[Taken(s)..]);
    }
  }

  /** No packet of two bytes or more holds more than 128 bytes. */
  lemma {:induction false} CompressedAtLeast(s: seq<byte>)
    ensures |s| <= 64 * |Compress(s)|
    decreases |s|
  {
    if s != [] {
      CompressedAtLeast(s[Taken(s)..]);
    }
  }
}
