/**
 * LZW as Appendix F of the GIF89a specification describes it: a textbook encoder over strings,
 * a decoder over a stream of codes of varying width, and the theorem that one undoes the other.
 */
module GifLzwSpec {
  import opened Bytes

  /** A non-empty run of pixel indices that the dictionary gives a code to. */
  type Phrase = seq<byte>

  datatype Code = Code(value: nat, width: nat)

  const MAX_CODE := 4095

  predicate Depth(depth: nat) {
    2 <= depth <= 8
  }

  predicate Indices(depth: nat, pixels: seq<byte>) {
    forall i :: 0 <= i < |pixels| ==> pixels[i] as int < Pow2(depth)
  }

  // ----- The dictionary: single indices, the two control codes, then the learnt phrases.

  function Clear(depth: nat): nat {
    Pow2(depth)
  }

  function EndOfInformation(depth: nat): nat {
    Pow2(depth) + 1
  }

  /** The code width that every dictionary starts with. */
  function StartWidth(depth: nat): nat {
    depth + 1
  }

  function First(depth: nat): nat {
    Pow2(depth) + 2
  }

  predicate Known(depth: nat, table: seq<Phrase>, code: nat) {
    code < Pow2(depth) || First(depth) <= code < First(depth) + |table|
  }

  function Meaning(depth: nat, table: seq<Phrase>, code: nat): Phrase
    requires Depth(depth) && Known(depth, table, code)
  {
    if code < Pow2(depth) then
      Pow2Table();
      Pow2Small(depth);
      [code as byte]
    else table[code - First(depth)]
  }

  lemma Pow2Small(depth: nat)
    requires Depth(depth)
    ensures 4 <= Pow2(depth) <= 256 && Pow2(depth + 1) == 2 * Pow2(depth) && Pow2(depth) % 2 == 0
  {
    Pow2Table();
    if depth != 8 {
      Pow2Grows(depth, 8);
    }
    if depth != 2 {
      Pow2Grows(2, depth);
    }
  }

  function IndexOf(table: seq<Phrase>, phrase: Phrase): (i: nat)
    requires phrase in table
    ensures i < |table| && table[i] == phrase
    ensures forall j :: 0 <= j < i ==> table[j] != phrase
  {
    if table[0] == phrase then 0 else 1 + IndexOf(table[1..], phrase)
  }

  function CodeOf(depth: nat, table: seq<Phrase>, phrase: Phrase): nat
    requires |phrase| == 1 || phrase in table
  {
    if |phrase| == 1 then phrase[0] as int else First(depth) + IndexOf(table, phrase)
  }

  // ----- The encoder.

  /** The phrases learnt since the last clear code, the run being matched and the code width. */
  datatype Encoder = Encoder(table: seq<Phrase>, run: Phrase, width: nat)

  function Fresh(depth: nat, run: Phrase): Encoder {
    Encoder([], run, StartWidth(depth))
  }

  predicate Runs(e: Encoder) {
    |e.run| <= 1 || e.run in e.table
  }

  /** One more pixel: extend the run, or emit its code, learn the extended run and start over. */
  function Push(depth: nat, e: Encoder, v: byte): (r: (Encoder, seq<Code>))
    requires Runs(e)
    ensures Runs(r.0)
  {
    if e.run == [] || e.run + [v] in e.table then
      (e.(run := e.run + [v]), [])
    else
      var table := e.table + [e.run + [v]];
      var last := Pow2(depth) + 1 + |table|;
      var width := if last >= Pow2(e.width) then e.width + 1 else e.width;
      var code := Code(CodeOf(depth, e.table, e.run), e.width);
      if last == MAX_CODE then
        (Fresh(depth, [v]), [code, Code(Clear(depth), width)])
      else
        (Encoder(table, [v], width), [code])
  }

  function EncodeRun(depth: nat, pixels: seq<byte>): (r: (Encoder, seq<Code>))
    ensures Runs(r.0)
  {
    if pixels == [] then
      (Fresh(depth, []), [Code(Clear(depth), StartWidth(depth))])
    else
      var (e, codes) := EncodeRun(depth, pixels[..|pixels| - 1]);
      var (e', more) := Push(depth, e, pixels[|pixels| - 1]);
      (e', codes + more)
  }

  /** The data codes, in which the last run is emitted without learning anything. */
  function DataCodes(depth: nat, pixels: seq<byte>): seq<Code> {
    var (e, codes) := EncodeRun(depth, pixels);
    if e.run == [] then codes else codes + [Code(CodeOf(depth, e.table, e.run), e.width)]
  }

  /** The closing clear code and end-of-information code. */
  function Footer(depth: nat, pixels: seq<byte>): seq<Code> {
    [Code(Clear(depth), EncodeRun(depth, pixels).0.width), Code(EndOfInformation(depth), StartWidth(depth))]
  }

  // ----- The decoder.

  /** The phrases learnt since the last clear code, the phrase before, if any, and the code width. */
  datatype Decoder = Decoder(table: seq<Phrase>, prev: Phrase, width: nat)

  datatype Event = Data(next: Decoder, out: Phrase) | End | Bad

  function Reset(depth: nat): Decoder {
    Decoder([], [], StartWidth(depth))
  }

  /** Learn one phrase; the code width follows the size of the dictionary, up to 12 bits. */
  function Learn(depth: nat, d: Decoder, entry: Phrase, out: Phrase): Decoder {
    var table := if First(depth) + |d.table| <= MAX_CODE then d.table + [entry] else d.table;
    var grow := First(depth) + |table| == Pow2(d.width) && d.width < 12;
    Decoder(table, out, if grow then d.width + 1 else d.width)
  }

  function Accept(depth: nat, d: Decoder, code: nat): Event
    requires Depth(depth)
  {
    if code == Clear(depth) then Data(Reset(depth), [])
    else if code == EndOfInformation(depth) then End
    else if d.prev == [] then
      if code < Pow2(depth) then
        var out := Meaning(depth, d.table, code);
        Data(Decoder([], out, d.width), out)
      else Bad
    else if Known(depth, d.table, code) then
      var out := Meaning(depth, d.table, code);
      if out == [] then Bad else Data(Learn(depth, d, d.prev + [out[0]], out), out)
    else if code == First(depth) + |d.table| then
      var out := d.prev + [d.prev[0]];
      Data(Learn(depth, d, out, out), out)
    else Bad
  }

  /** Run the decoder over codes that come with their widths; none if a width disagrees. */
  function DecodeCodes(depth: nat, d: Decoder, codes: seq<Code>): Option<(Decoder, seq<byte>)>
    requires Depth(depth)
  {
    if codes == [] then Some((d, []))
    else
      match DecodeCodes(depth, d, codes[..|codes| - 1])
      case None => None
      case Some((d', out)) => DecodeOne(depth, d', out, codes[|codes| - 1])
  }

  function DecodeOne(depth: nat, d: Decoder, out: seq<byte>, code: Code): Option<(Decoder, seq<byte>)>
    requires Depth(depth)
  {
    if code.width != d.width then None
    else match Accept(depth, d, code.value) {
      case Data(d', more) => Some((d', out + more))
      case _ => None
    }
  }

  // ----- What holds between the two after every pixel.

  /** The dictionary holds each phrase once, and learnt a phrase only after its prefix. */
  predicate Dictionary(table: seq<Phrase>) {
    table == [] ||
    var n := |table| - 1;
    var init, last := table[..n], table[n];
    && Dictionary(init)
    && |last| >= 2
    && last !in init
    && (|last| == 2 || last[..|last| - 1] in init)
  }

  predicate EncoderOk(depth: nat, e: Encoder) {
    && Dictionary(e.table)
    && Runs(e)
    && e.run != []
    && depth < e.width <= 12
    && Pow2(depth) + 1 + |e.table| < Pow2(e.width)
    && Pow2(depth) + 1 + |e.table| < MAX_CODE
    && e.run[0] as int < Pow2(depth)
  }

  /** The decoder is one phrase behind, and that phrase starts with the run being matched. */
  predicate Synced(depth: nat, d: Decoder, e: Encoder) {
    && EncoderOk(depth, e)
    && d.width == e.width
    && if d.prev == [] then e.table == d.table == []
       else e.table == d.table + [d.prev + [e.run[0]]]
  }

  lemma CodesFit(depth: nat, e: Encoder)
    requires Depth(depth) && EncoderOk(depth, e)
    ensures CodeOf(depth, e.table, e.run) < Pow2(e.width)
  {
    Pow2Grows(depth, e.width);
  }

  function Grown(depth: nat, e: Encoder): nat {
    if First(depth) + |e.table| == Pow2(e.width) then e.width + 1 else e.width
  }

  /** The decoder's test for a wider code agrees with the encoder's. */
  lemma LearnGrows(depth: nat, d: Decoder, e: Encoder, entry: Phrase)
    requires Depth(depth) && EncoderOk(depth, e)
    requires d.width == e.width && e.table == d.table + [entry]
    ensures Learn(depth, d, entry, e.run) == Decoder(e.table, e.run, Grown(depth, e))
  {
    Pow2Table();
  }

  lemma FirstNeverGrows(depth: nat, e: Encoder)
    requires Depth(depth) && EncoderOk(depth, e) && e.table == []
    ensures Grown(depth, e) == e.width
  {
    Pow2Small(depth);
    if depth + 1 < e.width {
      Pow2Grows(depth + 1, e.width);
    }
  }

  /** Emitting the current run lets the decoder catch up with the encoder's dictionary. */
  lemma EmitCatchesUp(depth: nat, d: Decoder, e: Encoder)
    requires Depth(depth) && Synced(depth, d, e)
    ensures Accept(depth, d, CodeOf(depth, e.table, e.run))
         == Data(Decoder(e.table, e.run, Grown(depth, e)), e.run)
  {
    if d.prev == [] {
      FirstNeverGrows(depth, e);
      assert e.run == [e.run[0]];
    } else {
      LearnGrows(depth, d, e, d.prev + [e.run[0]]);
      if |e.run| == 1 {
        assert e.run == [e.run[0]];
      } else {
        EmitPhrase(depth, d, e);
      }
    }
  }

  lemma EmitPhrase(depth: nat, d: Decoder, e: Encoder)
    requires Depth(depth) && Synced(depth, d, e) && d.prev != [] && |e.run| > 1
    ensures Accept(depth, d, CodeOf(depth, e.table, e.run))
         == Data(Learn(depth, d, d.prev + [e.run[0]], e.run), e.run)
  {
    var i := IndexOf(e.table, e.run);
    if i == |d.table| {
      assert e.run == d.prev + [e.run[0]];
      assert e.run[0] == d.prev[0];
    } else {
      assert e.table[i] == d.table[i] == e.run;
    }
  }

  lemma DictionaryGrows(table: seq<Phrase>, run: Phrase, v: byte)
    requires Dictionary(table) && run != [] && (|run| == 1 || run in table)
    requires run + [v] !in table
    ensures Dictionary(table + [run + [v]])
  {
    assert (table + [run + [v]])[..|table|] == table;
    assert (run + [v])[..|run|] == run;
  }

  lemma DecodeSnoc(depth: nat, d: Decoder, codes: seq<Code>, code: Code)
    requires Depth(depth)
    ensures DecodeCodes(depth, d, codes + [code]) ==
      match DecodeCodes(depth, d, codes)
      case None => None
      case Some((d', out)) => DecodeOne(depth, d', out, code)
  {
    assert (codes + [code])[..|codes|] == codes;
  }

  lemma WidthStaysEnough(size: nat, width: nat)
    requires size <= Pow2(width) && size <= MAX_CODE && width <= 12
    ensures var grown := if size == Pow2(width) then width + 1 else width;
      grown <= 12 && size < Pow2(grown)
  {
    Pow2Table();
  }

  lemma DecodeSingle(depth: nat, d: Decoder, code: Code)
    requires Depth(depth)
    ensures DecodeCodes(depth, d, [code]) == DecodeOne(depth, d, [], code)
  {
    DecodeSnoc(depth, d, [], code);
    assert [] + [code] == [code];
  }

  /** The decoder that reads what Push emits is again one phrase behind. */
  lemma PushKeepsSynced(depth: nat, d: Decoder, e: Encoder, v: byte)
    requires Depth(depth) && Synced(depth, d, e) && v as int < Pow2(depth)
    ensures var (e', more) := Push(depth, e, v);
      var r := DecodeCodes(depth, d, more);
      && r.Some?
      && Synced(depth, r.value.0, e')
      && r.value.1 + e'.run == e.run + [v]
  {
    if e.run + [v] in e.table {
      assert [] + (e.run + [v]) == e.run + [v];
    } else {
      PushEmits(depth, d, e, v);
    }
  }

  lemma PushEmits(depth: nat, d: Decoder, e: Encoder, v: byte)
    requires Depth(depth) && Synced(depth, d, e) && v as int < Pow2(depth)
    requires e.run + [v] !in e.table
    ensures var (e', more) := Push(depth, e, v);
      DecodeCodes(depth, d, more).Some? &&
      var (d', out) := DecodeCodes(depth, d, more).value;
      Synced(depth, d', e') && out == e.run && e'.run == [v]
  {
    var code := Code(CodeOf(depth, e.table, e.run), e.width);
    var d' := Decoder(e.table, e.run, Grown(depth, e));
    assert DecodeCodes(depth, d, [code]) == Some((d', e.run)) by {
      EmitCatchesUp(depth, d, e);
      DecodeSingle(depth, d, code);
      assert [] + e.run == e.run;
    }
    if First(depth) + |e.table| == MAX_CODE {
      ClearResets(depth, d, code, d', e.run, v);
    } else {
      LearnSynced(depth, e, v);
    }
  }

  lemma LearnSynced(depth: nat, e: Encoder, v: byte)
    requires Depth(depth) && EncoderOk(depth, e) && v as int < Pow2(depth)
    requires e.run + [v] !in e.table && First(depth) + |e.table| < MAX_CODE
    ensures Synced(depth, Decoder(e.table, e.run, Grown(depth, e)),
                   Encoder(e.table + [e.run + [v]], [v], Grown(depth, e)))
  {
    DictionaryGrows(e.table, e.run, v);
    WidthStaysEnough(First(depth) + |e.table|, e.width);
  }

  lemma ClearResets(depth: nat, d: Decoder, code: Code, d': Decoder, out: seq<byte>, v: byte)
    requires Depth(depth) && v as int < Pow2(depth)
    requires DecodeCodes(depth, d, [code]) == Some((d', out))
    ensures DecodeCodes(depth, d, [code, Code(Clear(depth), d'.width)]) == Some((Reset(depth), out))
    ensures Synced(depth, Reset(depth), Fresh(depth, [v]))
  {
    var clear := Code(Clear(depth), d'.width);
    DecodeSnoc(depth, d, [code], clear);
    assert [code] + [clear] == [code, clear];
    assert out + [] == out;
    FreshSynced(depth, v);
  }

  lemma FreshSynced(depth: nat, v: byte)
    requires Depth(depth) && v as int < Pow2(depth)
    ensures Synced(depth, Reset(depth), Fresh(depth, [v]))
  {
    Pow2Small(depth);
  }

  lemma {:induction false} DecodeConcat(depth: nat, d: Decoder, xs: seq<Code>, ys: seq<Code>)
    requires Depth(depth) && DecodeCodes(depth, d, xs).Some?
    requires DecodeCodes(depth, DecodeCodes(depth, d, xs).value.0, ys).Some?
    ensures var (d1, out1) := DecodeCodes(depth, d, xs).value;
      var (d2, out2) := DecodeCodes(depth, d1, ys).value;
      DecodeCodes(depth, d, xs + ys) == Some((d2, out1 + out2))
  {
    var (d1, out1) := DecodeCodes(depth, d, xs).value;
    if ys == [] {
      assert xs + ys == xs && out1 + [] == out1;
    } else {
      var init, last := ys[..|ys| - 1], ys[|ys| - 1];
      DecodeConcat(depth, d, xs, init);
      OneCodeMore(depth, d, xs, init, last);
      assert ys == init + [last];
    }
  }

  lemma OneCodeMore(depth: nat, d: Decoder, xs: seq<Code>, init: seq<Code>, last: Code)
    requires Depth(depth) && DecodeCodes(depth, d, xs).Some?
    requires DecodeCodes(depth, DecodeCodes(depth, d, xs).value.0, init + [last]).Some?
    requires DecodeCodes(depth, DecodeCodes(depth, d, xs).value.0, init).Some?
    requires var (d1, out1) := DecodeCodes(depth, d, xs).value;
      var (d2, out2) := DecodeCodes(depth, d1, init).value;
      DecodeCodes(depth, d, xs + init) == Some((d2, out1 + out2))
    ensures var (d1, out1) := DecodeCodes(depth, d, xs).value;
      var (d2, out2) := DecodeCodes(depth, d1, init + [last]).value;
      DecodeCodes(depth, d, xs + (init + [last])) == Some((d2, out1 + out2))
  {
    var (d1, out1) := DecodeCodes(depth, d, xs).value;
    var (d2, out2) := DecodeCodes(depth, d1, init).value;
    DecodeSnoc(depth, d1, init, last);
    DecodeSnoc(depth, d, xs + init, last);
    DecodeOneAppends(depth, d2, out1, out2, last);
    Assoc(xs, init, [last]);
  }

  lemma DecodeOneAppends(depth: nat, d: Decoder, xs: seq<byte>, ys: seq<byte>, code: Code)
    requires Depth(depth) && DecodeOne(depth, d, ys, code).Some?
    ensures var (d', out) := DecodeOne(depth, d, ys, code).value;
      DecodeOne(depth, d, xs + ys, code) == Some((d', xs + out))
  {
    var more := Accept(depth, d, code.value).out;
    assert (xs + ys) + more == xs + (ys + more);
  }

  /** The loop invariant of the encoder: what was emitted decodes to all pixels but the run. */
  lemma {:induction false} RunSynced(depth: nat, pixels: seq<byte>)
    requires Depth(depth) && Indices(depth, pixels) && pixels != []
    ensures var (e, codes) := EncodeRun(depth, pixels);
      var r := DecodeCodes(depth, Reset(depth), codes);
      && r.Some?
      && Synced(depth, r.value.0, e)
      && r.value.1 + e.run == pixels
  {
    var n := |pixels| - 1;
    var init, v := pixels[..n], pixels[n];
    assert pixels == init + [v];
    if n == 0 {
      FirstPixel(depth, v);
    } else {
      RunSynced(depth, init);
      var (e, codes) := EncodeRun(depth, init);
      var (d, out) := DecodeCodes(depth, Reset(depth), codes).value;
      RunStep(depth, e, codes, d, out, v);
    }
  }

  lemma RunStep(depth: nat, e: Encoder, codes: seq<Code>, d: Decoder, out: seq<byte>, v: byte)
    requires Depth(depth) && Synced(depth, d, e) && v as int < Pow2(depth)
    requires DecodeCodes(depth, Reset(depth), codes) == Some((d, out))
    ensures var (e', more) := Push(depth, e, v);
      var r := DecodeCodes(depth, Reset(depth), codes + more);
      && r.Some?
      && Synced(depth, r.value.0, e')
      && r.value.1 + e'.run == out + e.run + [v]
  {
    var (e', more) := Push(depth, e, v);
    PushKeepsSynced(depth, d, e, v);
    DecodeConcat(depth, Reset(depth), codes, more);
    Regroup(out, DecodeCodes(depth, d, more).value.1, e'.run, e.run, v);
  }

  lemma Regroup(xs: seq<byte>, ys: seq<byte>, run': Phrase, run: Phrase, v: byte)
    requires ys + run' == run + [v]
    ensures (xs + ys) + run' == xs + run + [v]
  {
    assert (xs + ys) + run' == xs + (ys + run');
    assert xs + run + [v] == xs + (run + [v]);
  }

  lemma FirstPixel(depth: nat, v: byte)
    requires Depth(depth) && v as int < Pow2(depth)
    ensures var (e, codes) := EncodeRun(depth, [v]);
      && e == Fresh(depth, [v])
      && DecodeCodes(depth, Reset(depth), codes) == Some((Reset(depth), []))
      && Synced(depth, Reset(depth), e)
  {
    var clear := Code(Clear(depth), StartWidth(depth));
    DecodeSingle(depth, Reset(depth), clear);
    var none: seq<byte> := [];
    assert none + none == none && none + [v] == [v];
    assert [v][..0] == [];
    assert EncodeRun(depth, []) == (Fresh(depth, []), [clear]);
    assert [clear] + [] == [clear];
    FreshSynced(depth, v);
  }

  /** LZW is lossless: the data codes of an image decode to its indices. */
  lemma LzwRoundTrip(depth: nat, pixels: seq<byte>)
    requires Depth(depth) && Indices(depth, pixels) && pixels != []
    ensures var e := EncodeRun(depth, pixels).0;
      DecodeCodes(depth, Reset(depth), DataCodes(depth, pixels))
        == Some((Decoder(e.table, e.run, Grown(depth, e)), pixels))
  {
    RunSynced(depth, pixels);
    var (e, codes) := EncodeRun(depth, pixels);
    var (d, out) := DecodeCodes(depth, Reset(depth), codes).value;
    EmitCatchesUp(depth, d, e);
    DecodeSnoc(depth, Reset(depth), codes, Code(CodeOf(depth, e.table, e.run), e.width));
  }
}
