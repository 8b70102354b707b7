/**
 * LZW codes as a stream of bits, least significant bit first: how a decoder that follows
 * Appendix F of the GIF89a specification reads what the encoder packed.
 */
module GifLzwStream {
  import opened Bytes
  import opened GifLzwSpec

  function Bits(value: nat, width: nat): (bits: seq<bool>)
    ensures |bits| == width
  {
    if width == 0 then [] else [value % 2 == 1] + Bits(value / 2, width - 1)
  }

  function Value(bits: seq<bool>): nat {
    if bits == [] then 0 else (if bits[0] then 1 else 0) + 2 * Value(bits[1..])
  }

  lemma {:induction false} ValueOfBits(value: nat, width: nat)
    requires value < Pow2(width)
    ensures Value(Bits(value, width)) == value
  {
    if width > 0 {
      ValueOfBits(value / 2, width - 1);
      assert Bits(value, width)[1..] == Bits(value / 2, width - 1);
    }
  }

  lemma {:induction false} ValueSnoc(bits: seq<bool>, b: bool)
    ensures Value(bits + [b]) == Value(bits) + if b then Pow2(|bits|) else 0
  {
    if bits != [] {
      ValueSnoc(bits[1..], b);
      assert (bits + [b])[1..] == bits[1..] + [b];
    }
  }

  /** The stream with one more code. */
  function Append(bits: seq<bool>, code: Code): seq<bool> {
    bits + Bits(code.value, code.width)
  }

  function AppendAll(bits: seq<bool>, codes: seq<Code>): seq<bool> {
    if codes == [] then bits else
      var n := |codes| - 1;
      Append(AppendAll(bits, codes[..n]), codes[n])
  }

  function CodeBits(codes: seq<Code>): seq<bool> {
    AppendAll([], codes)
  }

  lemma AppendSnoc(bits: seq<bool>, codes: seq<Code>, code: Code)
    ensures AppendAll(bits, codes + [code]) == Append(AppendAll(bits, codes), code)
  {
    assert (codes + [code])[..|codes|] == codes;
  }

  lemma AppendOne(bits: seq<bool>, c: Code)
    ensures AppendAll(bits, [c]) == Append(bits, c)
  {
    AppendSnoc(bits, [], c);
    assert [] + [c] == [c];
  }

  lemma AppendTwo(bits: seq<bool>, c1: Code, c2: Code)
    ensures AppendAll(bits, [c1, c2]) == Append(Append(bits, c1), c2)
  {
    AppendOne(bits, c1);
    AppendSnoc(bits, [c1], c2);
    assert [c1] + [c2] == [c1, c2];
  }

  lemma {:induction false} AppendConcat(bits: seq<bool>, xs: seq<Code>, ys: seq<Code>)
    ensures AppendAll(bits, xs + ys) == AppendAll(AppendAll(bits, xs), ys)
  {
    if ys == [] {
      assert xs + ys == xs;
    } else {
      var n := |ys| - 1;
      AppendConcat(bits, xs, ys[..n]);
      assert xs + ys == (xs + ys[..n]) + [ys[n]];
      AppendSnoc(bits, xs + ys[..n], ys[n]);
    }
  }

  /** Every code is written in enough bits, and never in more than twelve. */
  predicate Fit(codes: seq<Code>) {
    forall i {:trigger codes[i]} :: 0 <= i < |codes| ==> codes[i].value < Pow2(codes[i].width) && codes[i].width <= 12
  }

  // ----- Decoders that read bits.

  /** The decoder of an image of a known size: it stops once it has that many pixels. */
  function DecodePixels(depth: nat, d: Decoder, bits: seq<bool>, got: seq<byte>, count: nat): Option<seq<byte>>
    requires Depth(depth)
    decreases |bits|
  {
    if |got| == count then Some(got)
    else if |got| > count || d.width == 0 || |bits| < d.width then None
    else match Accept(depth, d, Value(bits[..d.width])) {
      case Data(d', out) => DecodePixels(depth, d', bits[d.width..], got + out, count)
      case _ => None
    }
  }

  /** The decoder that reads up to the end-of-information code. */
  function DecodeToEnd(depth: nat, d: Decoder, bits: seq<bool>, got: seq<byte>): Option<seq<byte>>
    requires Depth(depth)
    decreases |bits|
  {
    if d.width == 0 || |bits| < d.width then None
    else match Accept(depth, d, Value(bits[..d.width])) {
      case Data(d', out) => DecodeToEnd(depth, d', bits[d.width..], got + out)
      case End => Some(got)
      case Bad => None
    }
  }

  // ----- Reading bits amounts to reading codes.

  lemma ReadsCode(code: Code, rest: seq<bool>)
    requires code.value < Pow2(code.width)
    ensures var bits := Bits(code.value, code.width) + rest;
      Value(bits[..code.width]) == code.value && bits[code.width..] == rest
  {
    ValueOfBits(code.value, code.width);
    assert (Bits(code.value, code.width) + rest)[..code.width] == Bits(code.value, code.width);
  }

  lemma PixelsFollowCode(depth: nat, d: Decoder, code: Code, rest: seq<bool>, got: seq<byte>, count: nat)
    requires Depth(depth) && d.width > 0 && code.width == d.width
    requires code.value < Pow2(code.width) && Accept(depth, d, code.value).Data?
    requires |got + Accept(depth, d, code.value).out| <= count
    ensures var Data(d', out) := Accept(depth, d, code.value);
      && d'.width > 0
      && DecodePixels(depth, d, Bits(code.value, code.width) + rest, got, count)
        == DecodePixels(depth, d', rest, got + out, count)
  {
    ReadsCode(code, rest);
    if |got| == count {
      assert got + Accept(depth, d, code.value).out == got;
    }
  }

  lemma {:induction false} PixelsFollowCodes(depth: nat, d: Decoder, codes: seq<Code>, rest: seq<bool>,
                                             got: seq<byte>, count: nat)
    requires Depth(depth) && d.width > 0 && Fit(codes)
    requires DecodeCodes(depth, d, codes).Some?
    requires |got + DecodeCodes(depth, d, codes).value.1| <= count
    ensures var (d', out) := DecodeCodes(depth, d, codes).value;
      && d'.width > 0
      && DecodePixels(depth, d, CodeBits(codes) + rest, got, count)
        == DecodePixels(depth, d', rest, got + out, count)
  {
    if codes == [] {
      assert CodeBits(codes) + rest == rest && got + [] == got;
    } else {
      var init, code := codes[..|codes| - 1], codes[|codes| - 1];
      var (d0, out0) := DecodeCodes(depth, d, init).value;
      var out1 := Accept(depth, d0, code.value).out;
      Assoc(CodeBits(init), Bits(code.value, code.width), rest);
      Assoc(got, out0, out1);
      PixelsFollowCodes(depth, d, init, Bits(code.value, code.width) + rest, got, count);
      PixelsFollowCode(depth, d0, code, rest, got + out0, count);
    }
  }

  lemma {:induction false} EndFollowsCodes(depth: nat, d: Decoder, codes: seq<Code>, rest: seq<bool>, got: seq<byte>)
    requires Depth(depth) && d.width > 0 && Fit(codes)
    requires DecodeCodes(depth, d, codes).Some?
    ensures var (d', out) := DecodeCodes(depth, d, codes).value;
      && d'.width > 0
      && DecodeToEnd(depth, d, CodeBits(codes) + rest, got) == DecodeToEnd(depth, d', rest, got + out)
  {
    if codes == [] {
      assert CodeBits(codes) + rest == rest && got + [] == got;
    } else {
      var init, code := codes[..|codes| - 1], codes[|codes| - 1];
      var (d0, out0) := DecodeCodes(depth, d, init).value;
      var out1 := Accept(depth, d0, code.value).out;
      Assoc(CodeBits(init), Bits(code.value, code.width), rest);
      Assoc(got, out0, out1);
      EndFollowsCodes(depth, d, init, Bits(code.value, code.width) + rest, got);
      ReadsCode(code, rest);
    }
  }

  // ----- The encoder's codes fit their widths.

  lemma FitConcat(xs: seq<Code>, ys: seq<Code>)
    requires Fit(xs) && Fit(ys)
    ensures Fit(xs + ys)
  {
  }

  lemma ClearFits(depth: nat, width: nat)
    requires depth < width <= 12
    ensures Fit([Code(Clear(depth), width)])
  {
    Pow2Grows(depth, width);
  }

  lemma PushFits(depth: nat, e: Encoder, v: byte)
    requires Depth(depth) && EncoderOk(depth, e)
    ensures Fit(Push(depth, e, v).1)
  {
    CodesFit(depth, e);
    var more := Push(depth, e, v).1;
    if |more| == 2 {
      WidthStaysEnough(First(depth) + |e.table|, e.width);
      ClearFits(depth, more[1].width);
    }
  }

  lemma {:induction false} RunFits(depth: nat, pixels: seq<byte>)
    requires Depth(depth) && Indices(depth, pixels)
    ensures Fit(EncodeRun(depth, pixels).1)
  {
    if pixels == [] {
      ClearFits(depth, StartWidth(depth));
    } else {
      var n := |pixels| - 1;
      var (e, codes) := EncodeRun(depth, pixels[..n]);
      RunFits(depth, pixels[..n]);
      if n > 0 {
        RunSynced(depth, pixels[..n]);
        PushFits(depth, e, pixels[n]);
      }
      FitConcat(codes, Push(depth, e, pixels[n]).1);
    }
  }

  lemma LastFits(depth: nat, e: Encoder, codes: seq<Code>)
    requires Depth(depth) && EncoderOk(depth, e) && Fit(codes)
    ensures Fit(codes + [Code(CodeOf(depth, e.table, e.run), e.width)])
  {
    CodesFit(depth, e);
  }

  lemma FooterFits(depth: nat, width: nat)
    requires Depth(depth) && depth < width <= 12
    ensures Fit([Code(Clear(depth), width), Code(EndOfInformation(depth), StartWidth(depth))])
  {
    ClearFits(depth, width);
    EndFits(depth);
    FitConcat([Code(Clear(depth), width)], [Code(EndOfInformation(depth), StartWidth(depth))]);
  }

  /** Every code of an image fits its width, and no width exceeds twelve bits. */
  lemma CodesOfImageFit(depth: nat, pixels: seq<byte>)
    requires Depth(depth) && Indices(depth, pixels) && pixels != []
    ensures Fit(DataCodes(depth, pixels)) && Fit(Footer(depth, pixels))
  {
    var (e, codes) := EncodeRun(depth, pixels);
    RunFits(depth, pixels);
    RunSynced(depth, pixels);
    LastFits(depth, e, codes);
    FooterFits(depth, e.width);
  }

  lemma EndFits(depth: nat)
    requires Depth(depth)
    ensures Fit([Code(EndOfInformation(depth), StartWidth(depth))])
  {
    Pow2Small(depth);
    Pow2Grows(depth, StartWidth(depth));
  }

  // ----- Whole images.

  function ImageBits(depth: nat, pixels: seq<byte>): seq<bool> {
    CodeBits(DataCodes(depth, pixels) + Footer(depth, pixels))
  }

  /** The clear code at the given width, the end-of-information code and what follows. */
  function FooterBits(depth: nat, width: nat, rest: seq<bool>): seq<bool> {
    Bits(Clear(depth), width) + (Bits(EndOfInformation(depth), StartWidth(depth)) + rest)
  }

  lemma ImageBitsSplit(depth: nat, pixels: seq<byte>, rest: seq<bool>)
    ensures ImageBits(depth, pixels) + rest
         == CodeBits(DataCodes(depth, pixels)) + FooterBits(depth, EncodeRun(depth, pixels).0.width, rest)
  {
    var data, footer := CodeBits(DataCodes(depth, pixels)), Footer(depth, pixels);
    AppendConcat([], DataCodes(depth, pixels), footer);
    AppendTwo(data, footer[0], footer[1]);
    var clear, end := Bits(footer[0].value, footer[0].width), Bits(footer[1].value, footer[1].width);
    Assoc(data + clear, end, rest);
    Assoc(data, clear, end + rest);
  }

  /** A decoder that knows the size of the image recovers it, whatever follows the bits. */
  lemma ImageDecodes(depth: nat, pixels: seq<byte>, rest: seq<bool>)
    requires Depth(depth) && Indices(depth, pixels) && pixels != []
    ensures DecodePixels(depth, Reset(depth), ImageBits(depth, pixels) + rest, [], |pixels|) == Some(pixels)
  {
    ImageBitsSplit(depth, pixels, rest);
    CodesOfImageFit(depth, pixels);
    LzwRoundTrip(depth, pixels);
    assert [] + pixels == pixels;
    PixelsFollowCodes(depth, Reset(depth), DataCodes(depth, pixels),
                      FooterBits(depth, EncodeRun(depth, pixels).0.width, rest), [], |pixels|);
  }

  /** The data codes have filled the dictionary up to the last code of the current width. */
  predicate EndsOnBarrier(depth: nat, pixels: seq<byte>) {
    var e := EncodeRun(depth, pixels).0;
    First(depth) + |e.table| == Pow2(e.width)
  }

  /**
   * The writer does not widen the code after the last data code, but a decoder does. So a decoder
   * that reads up to the end-of-information code recovers the image exactly when the image does
   * not end on a width barrier.
   */
  lemma ImageEndsCleanly(depth: nat, pixels: seq<byte>, rest: seq<bool>)
    requires Depth(depth) && Indices(depth, pixels) && pixels != []
    ensures DecodeToEnd(depth, Reset(depth), ImageBits(depth, pixels) + rest, [])
         == if EndsOnBarrier(depth, pixels) then None else Some(pixels)
  {
    ImageBitsSplit(depth, pixels, rest);
    CodesOfImageFit(depth, pixels);
    LzwRoundTrip(depth, pixels);
    assert [] + pixels == pixels;
    EndFollowsCodes(depth, Reset(depth), DataCodes(depth, pixels),
                    FooterBits(depth, EncodeRun(depth, pixels).0.width, rest), []);
    FooterOfImage(depth, pixels, rest);
  }

  lemma FooterOfImage(depth: nat, pixels: seq<byte>, rest: seq<bool>)
    requires Depth(depth) && Indices(depth, pixels) && pixels != []
    ensures var e := EncodeRun(depth, pixels).0;
      DecodeToEnd(depth, Decoder(e.table, e.run, Grown(depth, e)), FooterBits(depth, e.width, rest), pixels)
        == if EndsOnBarrier(depth, pixels) then None else Some(pixels)
  {
    var e := EncodeRun(depth, pixels).0;
    var d := Decoder(e.table, e.run, Grown(depth, e));
    RunSynced(depth, pixels);
    if EndsOnBarrier(depth, pixels) {
      FooterMisread(depth, d, e.width, rest, pixels);
    } else {
      FooterRead(depth, d, rest, pixels);
    }
  }

  lemma FooterRead(depth: nat, d: Decoder, rest: seq<bool>, got: seq<byte>)
    requires Depth(depth) && depth < d.width <= 12
    ensures DecodeToEnd(depth, d, FooterBits(depth, d.width, rest), got) == Some(got)
  {
    var end := Bits(EndOfInformation(depth), StartWidth(depth)) + rest;
    Pow2Grows(depth, d.width);
    Pow2Small(depth);
    ReadsCode(Code(Clear(depth), d.width), end);
    ReadsCode(Code(EndOfInformation(depth), StartWidth(depth)), rest);
    assert DecodeToEnd(depth, Reset(depth), end, got) == Some(got);
    assert got + [] == got;
  }

  lemma FooterMisread(depth: nat, d: Decoder, width: nat, rest: seq<bool>, got: seq<byte>)
    requires Depth(depth) && depth < width && d.width == width + 1 && d.prev != []
    requires First(depth) + |d.table| == Pow2(width)
    ensures DecodeToEnd(depth, d, FooterBits(depth, width, rest), got) == None
  {
    var bits := FooterBits(depth, width, rest);
    Pow2Grows(depth, width);
    Pow2Small(depth);
    assert bits[..width + 1] == Bits(Clear(depth), width) + [true];
    ValueSnoc(Bits(Clear(depth), width), true);
    ValueOfBits(Clear(depth), width);
  }

  /** An image does end on a barrier: three pixels of different colors with four table entries. */
  lemma BarrierExample()
    ensures Indices(2, [0, 1, 2]) && EndsOnBarrier(2, [0, 1, 2])
  {
    Pow2Table();
    assert [0, 1, 2][..2] == [0, 1] && [0, 1][..1] == [0] && [0][..0] == [];
    assert EncodeRun(2, [0]).0 == Encoder([], [0], 3);
    var e := Push(2, Encoder([], [0], 3), 1).0;
    assert [0] + [1] == [0, 1] && e == Encoder([[0, 1]], [1], 3);
    assert EncodeRun(2, [0, 1]).0 == e;
    assert [1] + [2] == [1, 2] && [[0, 1]] + [[1, 2]] == [[0, 1], [1, 2]];
    assert Push(2, e, 2).0 == Encoder([[0, 1], [1, 2]], [2], 3);
  }
}
