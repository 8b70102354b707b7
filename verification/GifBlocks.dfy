/** Data sub-blocks (sections 15 and 16 of the GIF89a specification) and the bits inside them. */
module GifBlocks {
  import opened Bytes
  import opened GifLzwStream

  function BytesBits(data: seq<byte>): (bits: seq<bool>)
    ensures |bits| == 8 * |data|
  {
    if data == [] then [] else
      var n := |data| - 1;
      BytesBits(data[..n]) + Bits(data[n] as int, 8)
  }

  lemma BytesBitsSnoc(data: seq<byte>, b: byte)
    ensures BytesBits(data + [b]) == BytesBits(data) + Bits(b as int, 8)
  {
    assert (data + [b])[..|data|] == data;
  }

  lemma {:induction false} BitsOfValue(bits: seq<bool>)
    ensures Value(bits) < Pow2(|bits|)
    ensures Bits(Value(bits), |bits|) == bits
  {
    if bits != [] {
      BitsOfValue(bits[1..]);
    }
  }

  /** The eighth bit completes a byte. */
  lemma ByteComplete(payload: seq<byte>, pending: seq<bool>)
    requires |pending| == 8
    ensures Value(pending) < 256
    ensures BytesBits(payload + [Value(pending) as byte]) == BytesBits(payload) + pending
  {
    BitsOfValue(pending);
    Pow2Table();
    BytesBitsSnoc(payload, Value(pending) as byte);
  }

  function Flatten(blocks: seq<seq<byte>>): seq<byte> {
    if blocks == [] then [] else
      var n := |blocks| - 1;
      Flatten(blocks[..n]) + blocks[n]
  }

  function Block(data: seq<byte>): seq<byte>
    requires |data| < 256
  {
    [|data| as byte] + data
  }

  predicate Sized(blocks: seq<seq<byte>>) {
    forall b :: b in blocks ==> 1 <= |b| <= 255
  }

  function Blocks(blocks: seq<seq<byte>>): seq<byte>
    requires Sized(blocks)
  {
    if blocks == [] then [] else
      var n := |blocks| - 1;
      Blocks(blocks[..n]) + Block(blocks[n])
  }

  lemma BlocksSnoc(blocks: seq<seq<byte>>, b: seq<byte>)
    requires Sized(blocks) && 1 <= |b| <= 255
    ensures Sized(blocks + [b])
    ensures Blocks(blocks + [b]) == Blocks(blocks) + Block(b)
    ensures Flatten(blocks + [b]) == Flatten(blocks) + b
  {
    assert (blocks + [b])[..|blocks|] == blocks;
  }

  /** The bytes carried by the sub-blocks up to the block terminator, and what follows it. */
  function Deblock(data: seq<byte>): Option<(seq<byte>, seq<byte>)> {
    if data == [] then None
    else
      var next: nat := 1 + data[0] as int;
      if next == 1 then Some(([], data[1..]))
      else if |data| < next then None
      else match Deblock(data[next..]) {
        case None => None
        case Some((payload, rest)) => Some((data[1..next] + payload, rest))
      }
  }

  /** The reader of sub-blocks undoes the framing, whatever follows the block terminator. */
  lemma DeblockBlocks(blocks: seq<seq<byte>>, rest: seq<byte>)
    requires Sized(blocks)
    ensures Deblock(Blocks(blocks) + ([0] + rest)) == Some((Flatten(blocks), rest))
  {
    assert Deblock([0] + rest) == Some(([], rest));
    DeblockAfter(blocks, [0] + rest, [], rest);
    assert Flatten(blocks) + [] == Flatten(blocks);
  }

  lemma {:induction false} DeblockAfter(blocks: seq<seq<byte>>, tail: seq<byte>, payload: seq<byte>, rest: seq<byte>)
    requires Sized(blocks) && Deblock(tail) == Some((payload, rest))
    ensures Deblock(Blocks(blocks) + tail) == Some((Flatten(blocks) + payload, rest))
  {
    if blocks == [] {
      assert Blocks(blocks) + tail == tail && [] + payload == payload;
    } else {
      var n := |blocks| - 1;
      var last := blocks[n];
      assert last in blocks;
      DeblockOne(last, tail, payload, rest);
      DeblockAfter(blocks[..n], Block(last) + tail, last + payload, rest);
      Assoc(Blocks(blocks[..n]), Block(last), tail);
      Assoc(Flatten(blocks[..n]), last, payload);
    }
  }

  lemma DeblockOne(b: seq<byte>, tail: seq<byte>, payload: seq<byte>, rest: seq<byte>)
    requires 1 <= |b| <= 255 && Deblock(tail) == Some((payload, rest))
    ensures Deblock(Block(b) + tail) == Some((b + payload, rest))
  {
    var data := Block(b) + tail;
    assert data[1..1 + |b|] == b && data[1 + |b|..] == tail;
  }
}
