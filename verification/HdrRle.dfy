/** The run-length coding of one channel of a scanline in a Radiance file. */
module HdrRle {
  import opened Bytes

  // ----- The decoder.

  /** How many bytes a packet decodes to, and how many bytes of the file follow its first byte. */
  function Count(first: byte): nat {
    if first > 128 then first as int - 128 else first as int
  }

  function Need(first: byte): nat {
    if first > 128 then 1 else first as int
  }

  function Expanded(first: byte, data: seq<byte>): (s: seq<byte>)
    requires first > 0 && |data| == Need(first)
    ensures |s| == Count(first)
  {
    if first > 128 then Filled(Count(first), data[0]) else data
  }

  /** What a read delivers, or where the file stands after it has failed. */
  datatype Outcome<T> = Done(value: T, rest: seq<byte>) | Failed(rest: seq<byte>)

  /** Decode until there are n bytes; a packet must not be empty, too long or cut off. */
  function Decode(out: seq<byte>, file: seq<byte>, n: nat): Outcome<seq<byte>>
    decreases |file|
  {
    if |out| >= n then Done(out, file)
    else if |file| < 2 then Failed([])
    else
      var (first, body) := (file[0], file[1..]);
      var need := Need(first);
      if first == 0 || |out| + Count(first) > n then Failed(file[2..])
      else if |body| < need then Failed([])
      else Decode(out + Expanded(first, body[..need]), body[need..], n)
  }

  lemma {:induction false} DecodedExactly(out: seq<byte>, file: seq<byte>, n: nat)
    requires |out| <= n
    ensures Decode(out, file, n).Done? ==> |Decode(out, file, n).value| == n
    decreases |file|
  {
    if |out| < n && |file| >= 2 {
      var (first, body) := (file[0], file[1..]);
      var need := Need(first);
      if first != 0 && |out| + Count(first) <= n && |body| >= need {
        DecodedExactly(out + Expanded(first, body[..need]), body[need..], n);
      }
    }
  }

  // ----- What the encoder writes.

  /** Up to 127 equal bytes, or up to 128 bytes as they are. */
  datatype Packet = Run(count: nat, v: byte) | Copy(data: seq<byte>)

  predicate Valid(p: Packet) {
    match p
    case Run(count, _) => 1 <= count <= 127
    case Copy(data) => 1 <= |data| <= 128
  }

  function Values(p: Packet): seq<byte> {
    match p
    case Run(count, v) => Filled(count, v)
    case Copy(data) => data
  }

  function Coded(p: Packet): seq<byte>
    requires Valid(p)
  {
    match p
    case Run(count, v) => [(128 + count) as byte, v]
    case Copy(data) => [|data| as byte] + data
  }

  lemma DecodeOne(out: seq<byte>, p: Packet, rest: seq<byte>, n: nat)
    requires Valid(p) && |out| + |Values(p)| <= n
    ensures Decode(out, Coded(p) + rest, n) == Decode(out + Values(p), rest, n)
  {
    var (first, data) := (Coded(p)[0], Coded(p)[1..]);
    var input := Coded(p) + rest;
    assert input[1..] == data + rest;
    assert (data + rest)[..|data|] == data && (data + rest)[|data|..] == rest;
    assert Expanded(first, data) == Values(p);
  }

  /** The code adds these values to what has been decoded, whatever follows. */
  ghost predicate DecodesTo(code: seq<byte>, values: seq<byte>, out: seq<byte>, n: nat) {
    forall rest :: Decode(out, code + rest, n) == Decode(out + values, rest, n)
  }

  lemma DecodesOn(code: seq<byte>, values: seq<byte>, out: seq<byte>, n: nat, p: Packet)
    requires DecodesTo(code, values, out, n) && Valid(p) && |out| + |values| + |Values(p)| <= n
    ensures DecodesTo(code + Coded(p), values + Values(p), out, n)
  {
    forall rest
      ensures Decode(out, code + Coded(p) + rest, n) == Decode(out + (values + Values(p)), rest, n)
    {
      Assoc(code, Coded(p), rest);
      Assoc(out, values, Values(p));
      DecodeOne(out + values, p, rest, n);
    }
  }

  lemma DecodesNothing(out: seq<byte>, n: nat)
    ensures DecodesTo([], [], out, n)
  {
    assert forall rest: seq<byte> :: [] + rest == rest;
    assert out + [] == out;
  }

  /** Decoding x for |s| bytes gives s, and reads exactly x, whatever follows. */
  ghost predicate Codes(x: seq<byte>, s: seq<byte>) {
    forall rest :: Decode([], x + rest, |s|) == Done(s, rest)
  }

  lemma DecodedWhole(code: seq<byte>, values: seq<byte>)
    requires DecodesTo(code, values, [], |values|)
    ensures Codes(code, values)
  {
    forall rest
      ensures Decode([], code + rest, |values|) == Done(values, rest)
    {
      assert [] + values == values;
    }
  }

  /** A packet alone. */
  lemma OnePacket(p: Packet)
    requires Valid(p)
    ensures Codes(Coded(p), Values(p))
  {
    DecodesNothing([], |Values(p)|);
    DecodesOn([], [], [], |Values(p)|, p);
    assert [] + Coded(p) == Coded(p) && [] + Values(p) == Values(p);
    DecodedWhole(Coded(p), Values(p));
  }
}
