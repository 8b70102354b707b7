/** The bit packer of the GIF writer: codes go out least significant bit first, in sub-blocks. */
module GifBitWriter {
  import opened Bytes
  import opened Files
  import opened GifLzwSpec
  import opened GifLzwStream
  import opened GifBlocks

  lemma NothingAfter<T>(s: seq<T>, t: seq<T>)
    requires t == []
    ensures s + t == s
  {
  }

  /** The bits are those of the bytes, of which some are in blocks and the others in the chunk, and the pending ones. */
  ghost predicate Holds(written: seq<bool>, payload: seq<byte>, pending: seq<bool>, blocks: seq<seq<byte>>,
                        part: seq<byte>)
  {
    written == BytesBits(payload) + pending && payload == Flatten(blocks) + part
  }

  lemma ByteStored(written: seq<bool>, payload: seq<byte>, pending: seq<bool>, blocks: seq<seq<byte>>, part: seq<byte>,
                   partial: nat)
    requires Holds(written, payload, pending, blocks, part)
    requires |pending| == 8 && partial == Value(pending)
    ensures partial < 256
    ensures Holds(written, payload + [partial as byte], [], blocks, part + [partial as byte])
  {
    ByteComplete(payload, pending);
    Assoc(Flatten(blocks), part, [partial as byte]);
    NothingAfter(BytesBits(payload + [partial as byte]), []);
  }

  lemma ChunkGone(start: seq<byte>, blocks: seq<seq<byte>>, part: seq<byte>, payload: seq<byte>, data: seq<byte>)
    requires Sized(blocks) && 1 <= |part| <= 255
    requires payload == Flatten(blocks) + part && data == start + Blocks(blocks)
    ensures Sized(blocks + [part]) && Flatten(blocks + [part]) == payload
    ensures data + [|part| as byte] + part == start + Blocks(blocks + [part])
  {
    BlocksSnoc(blocks, part);
    Assoc(start, Blocks(blocks), Block(part));
    Assoc(data, [|part| as byte], part);
  }

  /** With the lowest n bits of a number the goal is reached. */
  predicate StillToWrite(written: seq<bool>, rest: nat, n: nat, goal: seq<bool>) {
    written + Bits(rest, n) == goal
  }

  lemma NextBit(written: seq<bool>, rest: nat, n: nat, left: nat, goal: seq<bool>)
    requires n == left + 1 && StillToWrite(written, rest, n, goal)
    ensures StillToWrite(written + [rest % 2 == 1], rest / 2, left, goal)
  {
    Assoc(written, [rest % 2 == 1], Bits(rest / 2, left));
  }

  class GifBitStatus {
    var bitIndex: nat
    var partial: nat
    var chunkIndex: nat
    const chunk: array<byte>

    /** The bits written so far: complete bytes, of which some went out in sub-blocks, and the rest. */
    ghost var written: seq<bool>
    ghost var payload: seq<byte>
    ghost var blocks: seq<seq<byte>>
    ghost var pending: seq<bool>
    ghost var start: seq<byte>

    ghost predicate Packed()
      reads this, chunk
    {
      && chunk.Length == 256
      && bitIndex == |pending| <= 8
      && chunkIndex <= 255
      && partial == Value(pending)
      && Sized(blocks)
      && Holds(written, payload, pending, blocks, chunk[..chunkIndex])
    }

    ghost predicate Valid()
      reads this, chunk
    {
      Packed() && bitIndex < 8
    }

    /** The file holds what it held when the packer started, then the sub-blocks flushed so far. */
    ghost predicate On(f: Sink)
      reads this, chunk, f
    {
      Valid() && f.data == start + Blocks(blocks)
    }

    constructor (f: Sink)
      ensures On(f) && fresh(chunk)
      ensures written == [] && start == f.data && chunkIndex == 0
    {
      chunk := new byte[256];
      bitIndex, partial, chunkIndex := 0, 0, 0;
      written, payload, blocks, pending, start := [], [], [], [], f.data;
    }

    method WriteBit(bit: nat)
      requires Valid() && chunkIndex < 255
      modifies this, chunk
      ensures Valid()
      ensures written == old(written) + [bit % 2 == 1]
      ensures blocks == old(blocks) && start == old(start)
      ensures bitIndex == if old(bitIndex) == 7 then 0 else old(bitIndex) + 1
      ensures chunkIndex == old(chunkIndex) + if bitIndex == 0 then 1 else 0
    {
      var one := bit % 2 == 1;
      ValueSnoc(pending, one);
      Assoc(BytesBits(payload), pending, [one]);
      partial := partial + if one then Pow2(bitIndex) else 0;
      bitIndex := bitIndex + 1;
      pending := pending + [one];
      written := written + [one];
      if bitIndex > 7 {
        StoreByte();
      }
    }

    method Emit(b: byte)
      requires chunkIndex < 255 && chunk.Length == 256
      modifies this`chunkIndex, chunk
      ensures chunkIndex == old(chunkIndex) + 1 <= 255 && chunk[..chunkIndex] == old(chunk[..chunkIndex]) + [b]
    {
      var next := chunkIndex + 1;
      PutByte(chunk, chunkIndex, next, b);
      chunkIndex := next;
    }

    /** Eight bits are complete: they join the chunk as a byte. */
    method StoreByte()
      requires Packed() && bitIndex == 8 && chunkIndex < 255
      modifies this, chunk
      ensures Valid() && bitIndex == 0
      ensures written == old(written) && blocks == old(blocks) && start == old(start)
      ensures chunkIndex == old(chunkIndex) + 1
    {
      ByteStored(written, payload, pending, blocks, chunk[..chunkIndex], partial);
      var done := partial as byte;
      Emit(done);
      payload := payload + [done];
      bitIndex := 0;
      partial := 0;
      pending := [];
    }

    method WriteChunk(f: Sink)
      requires On(f) && bitIndex == 0 && 1 <= chunkIndex
      modifies this, f
      ensures On(f)
      ensures written == old(written) && payload == old(payload) && start == old(start)
      ensures blocks == old(blocks + [chunk[..chunkIndex]])
      ensures bitIndex == 0 && chunkIndex == 0
    {
      ghost var part := chunk[..chunkIndex];
      ChunkGone(start, blocks, part, payload, f.data);
      f.Put(chunkIndex as byte);
      f.Write(chunk[..chunkIndex]);
      blocks := blocks + [part];
      bitIndex := 0;
      partial := 0;
      chunkIndex := 0;
      NothingAfter(payload, chunk[..0]);
    }

    method WriteCode(f: Sink, code: nat, length: nat)
      requires On(f) && chunkIndex < 255
      modifies this, chunk, f
      ensures On(f) && chunkIndex < 255
      ensures written == Append(old(written), Code(code, length))
      ensures start == old(start)
    {
      var rest := code;
      for ii := 0 to length
        invariant On(f) && chunkIndex < 255 && start == old(start)
        invariant StillToWrite(written, rest, length - ii, old(written) + Bits(code, length))
      {
        NextBit(written, rest, length - ii, length - ii - 1, old(written) + Bits(code, length));
        WriteNext(f, rest);
        rest := rest / 2;
      }
      assert written + [] == written;
    }

    /** One bit, and the chunk if it is full. */
    method WriteNext(f: Sink, bit: nat)
      requires On(f) && chunkIndex < 255
      modifies this, chunk, f
      ensures On(f) && chunkIndex < 255 && start == old(start) && written == old(written) + [bit % 2 == 1]
    {
      WriteBit(bit);
      if chunkIndex == 255 {
        WriteChunk(f);
      }
    }

    ghost predicate Flushed(f: Sink, bits: seq<bool>, pad: seq<bool>)
      reads this, f
    {
      && Sized(blocks)
      && f.data == start + Blocks(blocks)
      && BytesBits(Flatten(blocks)) == bits + pad
      && |pad| < 8
      && forall i :: 0 <= i < |pad| ==> !pad[i]
    }

    /** Zero bits complete the last partial byte. */
    method Pad() returns (ghost pad: seq<bool>)
      requires Valid() && chunkIndex < 255
      modifies this, chunk
      ensures Valid() && bitIndex == 0 && start == old(start) && blocks == old(blocks)
      ensures written == old(written) + pad
      ensures |pad| < 8 && forall i :: 0 <= i < |pad| ==> !pad[i]
    {
      pad := [];
      while bitIndex != 0
        invariant Valid() && start == old(start) && blocks == old(blocks)
        invariant bitIndex == 0 || chunkIndex < 255
        invariant written == old(written) + pad
        invariant bitIndex == old(bitIndex) + |pad| || (bitIndex == 0 && old(bitIndex) + |pad| == 8)
        invariant |pad| == 0 || old(bitIndex) > 0
        invariant forall i :: 0 <= i < |pad| ==> !pad[i]
        decreases if bitIndex == 0 then 0 else 8 - bitIndex
      {
        Assoc(old(written), pad, [false]);
        WriteBit(0);
        pad := pad + [false];
      }
    }

    /** The last partial byte is padded and the last chunk goes out. */
    method Flush(f: Sink) returns (ghost pad: seq<bool>)
      requires On(f) && chunkIndex < 255
      modifies this, chunk, f
      ensures start == old(start)
      ensures Flushed(f, old(written), pad)
    {
      pad := Pad();
      if chunkIndex != 0 {
        WriteChunk(f);
      }
      Drained();
    }

    lemma Drained()
      requires Valid() && bitIndex == 0 && chunkIndex == 0
      ensures written == BytesBits(Flatten(blocks))
    {
      assert chunk[..chunkIndex] == [] && Flatten(blocks) + [] == Flatten(blocks);
      assert BytesBits(payload) + [] == BytesBits(payload);
    }
  }
}
