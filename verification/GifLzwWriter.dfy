/** The LZW encoder of the GIF writer: a 256-ary tree of codes that is updated in place. */
module GifLzwWriter {
  import opened Bytes
  import opened Files
  import opened GifLzwSpec
  import opened GifLzwStream
  import opened GifLzwTree
  import opened GifBitWriter

  /** The textbook encoder after some pixels, and the bits of the codes it has emitted. */
  function State(depth: nat, pixels: seq<byte>): (e: Encoder)
    ensures Runs(e)
  {
    EncodeRun(depth, pixels).0
  }

  function Output(depth: nat, pixels: seq<byte>): seq<bool> {
    CodeBits(EncodeRun(depth, pixels).1)
  }

  lemma OutputGrows(depth: nat, pixels: seq<byte>, v: byte)
    ensures var (e, more) := GifLzwSpec.Push(depth, State(depth, pixels), v);
      && State(depth, pixels + [v]) == e
      && Output(depth, pixels + [v]) == AppendAll(Output(depth, pixels), more)
  {
    assert (pixels + [v])[..|pixels|] == pixels;
    var (e, codes) := EncodeRun(depth, pixels);
    AppendConcat([], codes, GifLzwSpec.Push(depth, e, v).1);
  }

  lemma OutputStarts(depth: nat)
    requires Depth(depth)
    ensures State(depth, []) == Fresh(depth, []) && Runs(Fresh(depth, []))
    ensures Append([], Code(Clear(depth), StartWidth(depth))) == Output(depth, [])
  {
    AppendOne([], Code(Clear(depth), StartWidth(depth)));
  }

  class GifLzwEncoder {
    const depth: nat
    const codetree: array<seq<int>>
    const stat: GifBitStatus
    const f: Sink
    var curCode: int
    var codeSize: nat
    var maxCode: nat

    /** The textbook encoder that this one agrees with. */
    ghost var model: Encoder

    /** The pixels pushed so far. */
    ghost var done: seq<byte>

    ghost predicate Valid()
      reads this, codetree, stat, stat.chunk, f
    {
      && Depth(depth)
      && TreeOf(depth, model.table, codetree[..])
      && stat.On(f) && stat.chunkIndex < 255
      && Agrees()
    }

    ghost predicate Agrees()
      reads this
    {
      && Runs(model)
      && codeSize == model.width
      && maxCode == Pow2(depth) + 1 + |model.table|
      && if model.run == [] then curCode < 0 && model == Fresh(depth, [])
         else EncoderOk(depth, model) && curCode == CodeOf(depth, model.table, model.run)
    }

    constructor (f: Sink, depth: nat)
      requires Depth(depth)
      modifies f
      ensures this.f == f && this.depth == depth
      ensures fresh(codetree) && fresh(stat) && fresh(stat.chunk)
      ensures Encoded() && done == [] && stat.start == old(f.data)
    {
      this.f := f;
      this.depth := depth;
      codetree := new seq<int>[MAX_CODE + 1](_ => NoLinks());
      stat := new GifBitStatus(f);
      curCode := -1;
      codeSize := StartWidth(depth);
      maxCode := Pow2(depth) + 1;
      model := Fresh(depth, []);
      done := [];
      new;
      OutputStarts(depth);
      stat.WriteCode(f, Clear(depth), codeSize);
      TreeCleared(depth, codetree[..]);
    }

    /** The dictionary is full: write a clear code and begin anew. */
    method Restart(nextValue: byte)
      requires Depth(depth) && codetree.Length == MAX_CODE + 1 && nextValue as int < Pow2(depth)
      requires stat.On(f) && stat.chunkIndex < 255
      modifies this, codetree, stat, stat.chunk, f
      ensures Valid() && model == Fresh(depth, [nextValue])
      ensures stat.written == Append(old(stat.written), Code(Clear(depth), old(codeSize)))
      ensures stat.start == old(stat.start) && done == old(done)
    {
      stat.WriteCode(f, Clear(depth), codeSize);
      ClearTree();
      StartOk(depth, nextValue);
      codeSize := StartWidth(depth);
      maxCode := Pow2(depth) + 1;
      curCode := nextValue as int;
      model := Fresh(depth, [nextValue]);
    }

    method ClearTree()
      requires Depth(depth) && codetree.Length == MAX_CODE + 1
      modifies codetree
      ensures TreeOf(depth, [], codetree[..])
    {
      forall i | 0 <= i < codetree.Length {
        codetree[i] := NoLinks();
      }
      TreeCleared(depth, codetree[..]);
    }

    /** The run ends here: its code goes out, the longer run is learned, and a full dictionary is cleared. */
    method EmitAndLearn(nextValue: byte)
      requires Valid() && nextValue as int < Pow2(depth)
      requires model.run != [] && model.run + [nextValue] !in model.table
      modifies this, codetree, stat, stat.chunk, f
      ensures Valid()
      ensures model == GifLzwSpec.Push(depth, old(model), nextValue).0
      ensures stat.written == AppendAll(old(stat.written), GifLzwSpec.Push(depth, old(model), nextValue).1)
      ensures stat.start == old(stat.start) && done == old(done)
    {
      PushBits(depth, model, nextValue, stat.written);
      PushOk(depth, model, nextValue);
      EmitAndInsert(nextValue);
      if maxCode == MAX_CODE {
        Restart(nextValue);
      } else {
        model := GifLzwSpec.Push(depth, model, nextValue).0;
        curCode := nextValue as int;
      }
    }

    /** The code of the current run is written, and the longer run becomes the last one of the tree. */
    method EmitAndInsert(nextValue: byte)
      requires Valid() && nextValue as int < Pow2(depth)
      requires model.run != [] && model.run + [nextValue] !in model.table
      modifies this`maxCode, this`codeSize, codetree, stat, stat.chunk, f
      ensures stat.On(f) && stat.chunkIndex < 255
      ensures maxCode == old(maxCode) + 1 && codeSize == Grown(depth, model)
      ensures TreeOf(depth, model.table + [model.run + [nextValue]], codetree[..])
      ensures stat.written == Append(old(stat.written), Code(CodeOf(depth, model.table, model.run), model.width))
      ensures stat.start == old(stat.start)
    {
      PushOk(depth, model, nextValue);
      stat.WriteCode(f, curCode as nat, codeSize);
      InsertRun(nextValue);
      if maxCode >= Pow2(codeSize) {
        codeSize := codeSize + 1;
      }
    }

    method InsertRun(nextValue: byte)
      requires Valid() && nextValue as int < Pow2(depth)
      requires model.run != [] && model.run + [nextValue] !in model.table
      modifies this`maxCode, codetree
      ensures maxCode == old(maxCode) + 1
      ensures TreeOf(depth, model.table + [model.run + [nextValue]], codetree[..])
    {
      Lookup(depth, model, codetree[..], nextValue);
      TreeGrows(depth, model.table, codetree[..], model.run, nextValue, curCode);
      maxCode := maxCode + 1;
      codetree[curCode] := codetree[curCode][nextValue as int := maxCode];
    }

    /** One more pixel value. */
    method Push(nextValue: byte)
      requires Valid() && nextValue as int < Pow2(depth)
      modifies this, codetree, stat, stat.chunk, f
      ensures Valid()
      ensures model == GifLzwSpec.Push(depth, old(model), nextValue).0
      ensures stat.written == AppendAll(old(stat.written), GifLzwSpec.Push(depth, old(model), nextValue).1)
      ensures stat.start == old(stat.start) && done == old(done)
    {
      if curCode < 0 {
        StartOk(depth, nextValue);
        model := Fresh(depth, [nextValue]);
        curCode := nextValue as int;
      } else {
        Lookup(depth, model, codetree[..], nextValue);
        if codetree[curCode][nextValue as int] != 0 {
          model := model.(run := model.run + [nextValue]);
          curCode := codetree[curCode][nextValue as int];
        } else {
          EmitAndLearn(nextValue);
        }
      }
    }

    /** What has been written is the textbook encoding of the pixels pushed so far. */
    ghost predicate Encoded()
      reads this, codetree, stat, stat.chunk, f
    {
      Valid() && model == State(depth, done) && stat.written == Output(depth, done)
    }

    method PushNext(nextValue: byte)
      requires Encoded() && nextValue as int < Pow2(depth)
      modifies this, codetree, stat, stat.chunk, f
      ensures Encoded() && done == old(done) + [nextValue]
      ensures stat.start == old(stat.start)
    {
      OutputGrows(depth, done, nextValue);
      Push(nextValue);
      done := done + [nextValue];
    }

    /** The compression footer, and the last partial chunk. */
    method Finish() returns (ghost pad: seq<bool>)
      requires Encoded() && model.run != []
      modifies this, codetree, stat, stat.chunk, f
      ensures stat.start == old(stat.start)
      ensures stat.Flushed(f, ImageBits(depth, old(done)), pad)
    {
      FooterIsLast(depth, done, model);
      var size := codeSize;
      stat.WriteCode(f, curCode as nat, size);
      stat.WriteCode(f, Clear(depth), size);
      stat.WriteCode(f, EndOfInformation(depth), StartWidth(depth));
      pad := stat.Flush(f);
    }
  }

  lemma FooterIsLast(depth: nat, pixels: seq<byte>, e: Encoder)
    requires e == State(depth, pixels) && e.run != []
    ensures ImageBits(depth, pixels)
         == Append(Append(Append(Output(depth, pixels), Code(CodeOf(depth, e.table, e.run), e.width)),
                          Code(Clear(depth), e.width)), Code(EndOfInformation(depth), StartWidth(depth)))
  {
    var data, footer := DataCodes(depth, pixels), Footer(depth, pixels);
    AppendSnoc([], EncodeRun(depth, pixels).1, Code(CodeOf(depth, e.table, e.run), e.width));
    AppendConcat([], data, footer);
    AppendTwo(CodeBits(data), footer[0], footer[1]);
  }

  lemma StartOk(depth: nat, v: byte)
    requires Depth(depth) && v as int < Pow2(depth)
    ensures EncoderOk(depth, Fresh(depth, [v]))
  {
    FreshSynced(depth, v);
  }

  lemma PushOk(depth: nat, e: Encoder, v: byte)
    requires Depth(depth) && EncoderOk(depth, e) && v as int < Pow2(depth)
    requires e.run + [v] !in e.table
    ensures EncoderOk(depth, GifLzwSpec.Push(depth, e, v).0)
  {
    if First(depth) + |e.table| == MAX_CODE {
      FreshSynced(depth, v);
    } else {
      LearnSynced(depth, e, v);
    }
  }

  /** The codes that Push emits are that of the run and, when the dictionary is full, a clear code. */
  lemma PushBits(depth: nat, e: Encoder, v: byte, written: seq<bool>)
    requires Depth(depth) && EncoderOk(depth, e) && e.run + [v] !in e.table
    ensures var more := GifLzwSpec.Push(depth, e, v).1;
      var code := Code(CodeOf(depth, e.table, e.run), e.width);
      if First(depth) + |e.table| == MAX_CODE
      then AppendAll(written, more) == Append(Append(written, code), Code(Clear(depth), Grown(depth, e)))
      else AppendAll(written, more) == Append(written, code)
  {
    var more := GifLzwSpec.Push(depth, e, v).1;
    if |more| == 2 {
      AppendTwo(written, more[0], more[1]);
    } else {
      AppendOne(written, more[0]);
    }
  }
}
