/** The run-length coder and decoder as loops over buffers. */
module IffCoder {
  import opened Bytes
  import opened IffRle

  // ----- The encoder. Each method reads on at pos and appends to what out holds before outPos.

  /** A packet that repeats the byte at pos. */
  method CompressDuplicate(input: array<byte>, pos: nat, size: nat, out: array<byte>, outPos: nat)
    returns (next: nat, outNext: nat)
    requires input != out && pos < input.Length && size == Cut(input.Length - pos)
    requires size > 1 && input[pos] == input[pos + 1] && outPos + 2 <= out.Length
    modifies out
    ensures next == pos + Taken(input[pos..]) && outNext == outPos + |Packet(input[pos..])| <= out.Length
    ensures out[..outNext] == old(out[..outPos]) + Packet(input[pos..])
  {
    ghost var s := input[pos..];
    var count := 1;
    while count < size && input[pos + count - 1] == input[pos + count]
      invariant 1 <= count <= size
      invariant forall k :: 0 <= k < count ==> s[k] == s[0]
      invariant RunLength(s, 1, size) == RunLength(s, count, size)
    {
      count := count + 1;
    }
    out[outPos] := (count - 1 + 128) as byte;
    out[outPos + 1] := input[pos];
    next, outNext := pos + count, outPos + 2;
  }

  /** How many bytes come before three equal ones in a row. */
  method VerbatimCount(input: array<byte>, pos: nat, size: nat) returns (count: nat)
    requires pos < input.Length && size == Cut(input.Length - pos)
    requires size > 1 ==> input[pos] != input[pos + 1]
    ensures count == Taken(input[pos..])
  {
    ghost var s := input[pos..];
    count := 1;
    var last: byte := 0;
    while count < size
      invariant 1 <= count <= size
      invariant count > 1 ==> last == s[count - 2]
      invariant forall t :: 1 <= t && t + 2 < count ==> !Triple(s, t, size)
    {
      if input[pos + count - 1] == input[pos + count] {
        if last == input[pos + count - 1] {
          count := count - 2;
          break;
        }
      }
      last := input[pos + count - 1];
      count := count + 1;
    }
    CopyLengthIs(s, 1, count, size);
  }

  /** A packet that copies the bytes up to three equal ones in a row. */
  method CompressVerbatim(input: array<byte>, pos: nat, size: nat, out: array<byte>, outPos: nat)
    returns (next: nat, outNext: nat)
    requires input != out && pos < input.Length && size == Cut(input.Length - pos)
    requires (size > 1 ==> input[pos] != input[pos + 1]) && outPos + 1 + size <= out.Length
    modifies out
    ensures next == pos + Taken(input[pos..]) && outNext == outPos + |Packet(input[pos..])| <= out.Length
    ensures out[..outNext] == old(out[..outPos]) + Packet(input[pos..])
  {
    var count := VerbatimCount(input, pos, size);
    var (header, data) := ((count - 1) as byte, outPos + 1);
    next, outNext := pos + count, data + count;
    CopyPacket(input[pos..], count, header, input[pos..next]);
    Assoc(out[..outPos], [header], input[pos..next]);
    PutByte(out, outPos, data, header);
    ghost var before := out[..data];
    Move(input, pos, count, out, data);
    assert out[..outNext] == before + input[pos..next];
  }

  lemma CopyPacket(s: seq<byte>, count: nat, header: byte, piece: seq<byte>)
    requires s != [] && !Repeats(s) && count == Taken(s)
    requires header as int == count - 1 && |piece| == count && piece <= s
    ensures Packet(s) == [header] + piece
  {
    assert piece == s[..count];
  }

  method Move(input: array<byte>, pos: nat, count: nat, out: array<byte>, outPos: nat)
    requires input != out && pos + count <= input.Length && outPos + count <= out.Length
    modifies out
    ensures out[..outPos] == old(out[..outPos]) && out[outPos + count..] == old(out[outPos + count..])
    ensures out[outPos..outPos + count] == input[pos..pos + count]
  {
    forall k | 0 <= k < count {
      out[outPos + k] := input[pos + k];
    }
  }

  /** One packet. */
  method CompressOne(input: array<byte>, pos: nat, out: array<byte>, outPos: nat, ghost data: seq<byte>)
    returns (next: nat, outNext: nat)
    requires input != out && data == input[..] && pos < input.Length
    requires outPos + 2 * (input.Length - pos) <= out.Length
    modifies out
    ensures next == pos + Taken(data[pos..]) && outPos <= outNext
    ensures next <= input.Length && outNext + 2 * (input.Length - next) <= out.Length
    ensures out[..outNext] == old(out[..outPos]) + Packet(data[pos..])
  {
    assert data[pos..] == input[pos..];
    var max := Cut(input.Length - pos);
    if pos < input.Length - 1 && input[pos] == input[pos + 1] {
      TakenRun(input[pos..]);
      next, outNext := CompressDuplicate(input, pos, max, out, outPos);
    } else {
      next, outNext := CompressVerbatim(input, pos, max, out, outPos);
    }
  }

  /** One channel of a tile. Twice its length is enough room for it. */
  method CompressRleChannel(input: array<byte>, out: array<byte>, start: nat) returns (size: nat)
    requires input != out && start + 2 * input.Length <= out.Length
    modifies out
    ensures start + size <= out.Length && size == |Compress(input[..])| <= 2 * input.Length
    ensures out[..start + size] == old(out[..start]) + Compress(input[..])
  {
    var pos, outPos := 0, start;
    ghost var (s, first, done) := (input[..], out[..start], []);
    while pos < input.Length
      invariant pos <= input.Length && start <= outPos && outPos + 2 * (input.Length - pos) <= out.Length
      invariant done + Compress(s[pos..]) == Compress(s)
      invariant out[..outPos] == first + done
    {
      ghost var packet := Packet(s[pos..]);
      Assoc(first, done, packet);
      var next;
      next, outPos := CompressOne(input, pos, out, outPos, s);
      CompressNext(s, pos, next, done);
      done := done + packet;
      pos := next;
    }
    CompressEnd(s, pos, done);
    CompressedFits(s);
    size := outPos - start;
    assert start + size == outPos;
  }

  lemma CompressEnd(s: seq<byte>, pos: nat, done: seq<byte>)
    requires pos == |s| && done + Compress(s[pos..]) == Compress(s)
    ensures done == Compress(s)
  {
    assert s[pos..] == [] && done + [] == done;
  }

  lemma CompressNext(s: seq<byte>, pos: nat, next: nat, before: seq<byte>)
    requires pos < |s| && next == pos + Taken(s[pos..])
    ensures before + Compress(s[pos..]) == (before + Packet(s[pos..])) + Compress(s[next..])
  {
    assert s[pos..][Taken(s[pos..])..] == s[next..];
    Assoc(before, Packet(s[pos..]), Compress(s[next..]));
  }

  // ----- The decoder.

  /** The packet at pos is decoded. */
  lemma Take(done: seq<byte>, input: seq<byte>, pos: nat, body: nat, next: nat, max: nat)
    requires pos < |input| && body == pos + 1 && next == body + Need(input[pos]) <= |input|
    requires |done| + Count(input[pos]) <= max
    ensures Uncompress(Progress(done, input[pos..]), max)
         == Uncompress(Progress(done + Expanded(input[pos], input[body..next]), input[next..]), max)
  {
    assert input[pos..] == [input[pos]] + input[body..next] + input[next..];
    UncompressOne(done, input[pos], input[body..next], input[next..], max);
  }

  /** A packet that does not fit ends the channel; only its header has been read. */
  lemma Stop(done: seq<byte>, input: seq<byte>, pos: nat, body: nat, max: nat)
    requires pos < |input| && body == pos + 1 && |done| < max
    requires body + Need(input[pos]) > |input| || |done| + Count(input[pos]) > max
    ensures Uncompress(Progress(done, input[pos..]), max) == Progress(done, input[body..])
  {
    assert input[pos..][1..] == input[body..];
  }

  method Fill(value: byte, count: nat, out: array<byte>, outPos: nat)
    requires outPos + count <= out.Length
    modifies out
    ensures out[..outPos] == old(out[..outPos]) && out[outPos + count..] == old(out[outPos + count..])
    ensures out[outPos..outPos + count] == Filled(count, value)
  {
    forall k | 0 <= k < count {
      out[outPos + k] := value;
    }
  }

  /** The first bytes of out come from the data; what is left of it stays as it was. */
  ghost predicate Holds(out: seq<byte>, was: seq<byte>, pos: nat, done: seq<byte>) {
    pos == |done| <= |out| == |was| && out[..pos] == done && out[pos..] == was[pos..]
  }

  lemma HoldsMore(out: seq<byte>, out': seq<byte>, was: seq<byte>, pos: nat, next: nat, done: seq<byte>)
    requires Holds(out, was, pos, done) && |out'| == |out| && pos <= next <= |out|
    requires out'[..pos] == out[..pos] && out'[next..] == out[next..]
    ensures Holds(out', was, next, done + out'[pos..next])
  {
    assert out'[next..] == out[pos..][next - pos..] == was[pos..][next - pos..];
  }

  /** The packet whose data starts at body and ends at end; it fits. */
  method Unpack(input: array<byte>, header: byte, body: nat, end: nat, out: array<byte>, outPos: nat, outNext: nat,
                ghost data: seq<byte>)
    requires input != out && data == input[..] && end == body + Need(header) <= input.Length
    requires outNext == outPos + Count(header) <= out.Length
    modifies out
    ensures out[..outPos] == old(out[..outPos]) && out[outNext..] == old(out[outNext..])
    ensures out[outPos..outNext] == Expanded(header, data[body..end])
  {
    var count := Count(header);
    if header < 128 {
      Move(input, body, count, out, outPos);
    } else {
      Fill(input[body], count, out, outPos);
    }
  }

  /** Decode the packet at inPos, if it fits. */
  method DecodeOne(input: array<byte>, inPos: nat, out: array<byte>, outPos: nat, max: nat,
                   ghost data: seq<byte>, ghost was: seq<byte>, ghost done: seq<byte>)
    returns (inNext: nat, outNext: nat, fits: bool, ghost more: seq<byte>)
    requires input != out && data == input[..] && inPos < input.Length && outPos < max <= out.Length
    requires Holds(out[..], was, outPos, done)
    modifies out
    ensures inPos < inNext <= input.Length && outNext <= max && Holds(out[..], was, outNext, more)
    ensures Uncompress(Progress(done, data[inPos..]), max)
         == if fits then Uncompress(Progress(more, data[inNext..]), max) else Progress(more, data[inNext..])
  {
    var (header, body) := (input[inPos], inPos + 1);
    inNext, outNext := body + Need(header), outPos + Count(header);
    fits := inNext <= input.Length && outNext <= max;
    if fits {
      ghost var before := out[..];
      Take(done, data, inPos, body, inNext, max);
      more := done + Expanded(header, data[body..inNext]);
      Unpack(input, header, body, inNext, out, outPos, outNext, data);
      HoldsMore(before, out[..], was, outPos, outNext, done);
    } else {
      Stop(done, data, inPos, body, max);
      inNext, outNext, more := body, outPos, done;
    }
  }

  /** One channel, from start on. */
  method UncompressRleChannel(input: array<byte>, start: nat, out: array<byte>, max: nat) returns (used: nat)
    requires input != out && start <= input.Length && max <= out.Length
    modifies out
    ensures var p := Uncompress(Progress([], input[start..]), max);
      start + used <= input.Length && p.rest == input[start + used..]
      && Holds(out[..], old(out[..]), |p.out|, p.out)
  {
    var inPos: nat, outPos: nat, fits := start, 0, true;
    ghost var (data, was, done) := (input[..], out[..], []);
    ghost var goal := Uncompress(Progress([], input[start..]), max);
    while fits && outPos < max && inPos < input.Length
      invariant start <= inPos <= input.Length && outPos <= max
      invariant goal == if fits then Uncompress(Progress(done, data[inPos..]), max) else Progress(done, data[inPos..])
      invariant Holds(out[..], was, outPos, done)
      decreases input.Length - inPos
    {
      inPos, outPos, fits, done := DecodeOne(input, inPos, out, outPos, max, data, was, done);
    }
    used := inPos - start;
  }
}
