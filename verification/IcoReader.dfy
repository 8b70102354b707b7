/** The icon reader: it moves between subimages and answers requests for their rows. */
module IcoReader {
  import opened Bytes
  import opened IcoFormat
  import opened IcoReadBack
  import opened IcoBuffer

  // ----- What the calls of a reader deliver.

  /** The bytes behind the header of a bitmap. */
  function DataOf(file: seq<byte>, d: Found): seq<byte> {
    if d.offset + INFO_SIZE <= |file| then file[d.offset + INFO_SIZE..] else []
  }

  /** Subimage i can be found, and its bitmap has no palette. */
  predicate Plain(file: seq<byte>, i: nat) {
    FindImage(file, i).Some? ==> FindImage(file, i).value.bpp >= 24
  }

  /** There are as many bytes as the bitmap needs. */
  predicate Enough(file: seq<byte>, i: nat)
    requires FindImage(file, i).Some?
  {
    var d := FindImage(file, i).value;
    Needed(d.width, d.height, d.bpp == 32) <= |file| - d.offset - INFO_SIZE
  }

  /** The buffer after an attempt to decode subimage i. */
  function BufferOf(file: seq<byte>, i: nat): seq<seq<Rgba>>
    requires FindImage(file, i).Some?
  {
    var d := FindImage(file, i).value;
    Buffer(DataOf(file, d), d.width, d.height, d.bpp == 32)
  }

  /** The current subimage, if there is one, and whether decoding it has been tried. */
  datatype State = State(current: Option<nat>, tried: bool)

  function Seek(file: seq<byte>, count: nat, s: State, i: nat): State {
    if i >= count || s.current == Some(i) then s
    else if FindImage(file, i).None? then State(None, false)
    else State(Some(i), false)
  }

  /** A request for row y of subimage i: the new state, and the row or an error. */
  function Call(file: seq<byte>, count: nat, s: State, i: nat, y: nat): (State, Option<seq<Rgba>>) {
    var t := Seek(file, count, s, i);
    if i >= count || t.current != Some(i) || FindImage(file, i).None? || y >= FindImage(file, i).value.height then (t, None)
    else if !t.tried && !Enough(file, i) then (State(Some(i), true), None)
    else (State(Some(i), true), Some(BufferOf(file, i)[y]))
  }

  lemma ImageIs(file: seq<byte>, i: nat)
    requires FindImage(file, i).Some? && FindImage(file, i).value.bpp >= 24
    ensures ReadImage(file, i) == if Enough(file, i) then Some(BufferOf(file, i)) else None
  {
    var d := FindImage(file, i).value;
    if Enough(file, i) {
      BufferIsImage(DataOf(file, d), d.width, d.height, d.bpp == 32);
    }
  }

  /** A row that is delivered is one of the image exactly if the file has all bytes of the bitmap. */
  lemma CallExact(file: seq<byte>, count: nat, s: State, i: nat, y: nat)
    requires Plain(file, i) && Call(file, count, s, i, y).1.Some?
    ensures FindImage(file, i).Some? && y < FindImage(file, i).value.height
    ensures Enough(file, i) <==> ReadImage(file, i).Some? && y < |ReadImage(file, i).value|
                                 && Call(file, count, s, i, y).1 == Some(ReadImage(file, i).value[y])
  {
    ImageIs(file, i);
  }

  function Calls(file: seq<byte>, count: nat, s: State, ask: seq<(nat, nat)>): (r: (State, seq<Option<seq<Rgba>>>))
    ensures |r.1| == |ask|
  {
    if ask == [] then (s, [])
    else
      var n := |ask| - 1;
      var (before, results) := Calls(file, count, s, ask[..n]);
      var (after, result) := Call(file, count, before, ask[n].0, ask[n].1);
      (after, results + [result])
  }

  /** All answers about subimage i, in all sequences of requests: errors or rows of the image. */
  ghost predicate Truthful(file: seq<byte>, count: nat, i: nat) {
    forall ask: seq<(nat, nat)>, k: nat :: k < |ask| && ask[k].0 == i ==> Answered(file, count, i, ask, k)
  }

  predicate Answered(file: seq<byte>, count: nat, i: nat, ask: seq<(nat, nat)>, k: nat)
    requires k < |ask|
  {
    var answer := Calls(file, count, State(None, false), ask).1[k];
    answer.Some? ==>
      ReadImage(file, i).Some? && ask[k].1 < |ReadImage(file, i).value|
      && answer == Some(ReadImage(file, i).value[ask[k].1])
  }

  lemma CallsBefore(file: seq<byte>, count: nat, s: State, ask: seq<(nat, nat)>, k: nat)
    requires k < |ask| - 1
    ensures Calls(file, count, s, ask).1[k] == Calls(file, count, s, ask[..|ask| - 1]).1[k]
  {
  }

  lemma CallsLast(file: seq<byte>, count: nat, s: State, ask: seq<(nat, nat)>)
    requires ask != []
    ensures var (n, t) := (|ask| - 1, Calls(file, count, s, ask[..|ask| - 1]).0);
      Calls(file, count, s, ask).1[n] == Call(file, count, t, ask[n].0, ask[n].1).1
  {
  }

  /** Every answer is the answer of some state. */
  lemma {:induction false} AnswerAt(file: seq<byte>, count: nat, s: State, ask: seq<(nat, nat)>, k: nat) returns (t: State)
    requires k < |ask|
    ensures Calls(file, count, s, ask).1[k] == Call(file, count, t, ask[k].0, ask[k].1).1
    decreases |ask|
  {
    if k < |ask| - 1 {
      var before := ask[..|ask| - 1];
      t := AnswerAt(file, count, s, before, k);
      assert before[k] == ask[k];
      CallsBefore(file, count, s, ask, k);
    } else {
      t := Calls(file, count, s, ask[..|ask| - 1]).0;
      CallsLast(file, count, s, ask);
    }
  }

  /** The second request for a row of a bitmap that is cut off is answered with what happens to be there. */
  lemma SecondAnswer(file: seq<byte>, count: nat, i: nat)
    requires i < count && FindImage(file, i).Some? && FindImage(file, i).value.height > 0 && !Enough(file, i)
    ensures Calls(file, count, State(None, false), [(i, 0), (i, 0)]).1 == [None, Some(BufferOf(file, i)[0])]
  {
    var one: seq<(nat, nat)> := [(i, 0)];
    var two: seq<(nat, nat)> := [(i, 0), (i, 0)];
    var (s, t) := (State(None, false), State(Some(i), true));
    assert two[..1] == one && one[..0] == [];
    assert Call(file, count, s, i, 0) == (t, None);
    assert Calls(file, count, s, one) == (t, [] + [None]);
    assert Call(file, count, t, i, 0) == (t, Some(BufferOf(file, i)[0]));
  }

  lemma AllAnswers(file: seq<byte>, count: nat, i: nat)
    requires i < count && FindImage(file, i).Some? && FindImage(file, i).value.bpp >= 24 && Enough(file, i)
    ensures Truthful(file, count, i)
  {
    forall ask: seq<(nat, nat)>, k: nat | k < |ask| && ask[k].0 == i
      ensures Answered(file, count, i, ask, k)
    {
      var t := AnswerAt(file, count, State(None, false), ask, k);
      if Call(file, count, t, i, ask[k].1).1.Some? {
        CallExact(file, count, t, i, ask[k].1);
      }
    }
  }

  lemma OneLie(file: seq<byte>, count: nat, i: nat)
    requires i < count && FindImage(file, i).Some? && FindImage(file, i).value.bpp >= 24 && !Enough(file, i)
    ensures !Truthful(file, count, i)
  {
    FoundHeight(file, i);
    ImageIs(file, i);
    SecondAnswer(file, count, i);
    var two: seq<(nat, nat)> := [(i, 0), (i, 0)];
    assert two[1].0 == i && !Answered(file, count, i, two, 1);
  }

  /** Exactly when the file has all bytes of the bitmap, all answers about it are right. */
  lemma TruthfulIff(file: seq<byte>, count: nat, i: nat)
    requires i < count && FindImage(file, i).Some? && FindImage(file, i).value.bpp >= 24
    ensures Truthful(file, count, i) <==> Enough(file, i)
  {
    if Enough(file, i) {
      AllAnswers(file, count, i);
    } else {
      OneLie(file, count, i);
    }
  }

  lemma FoundHeight(file: seq<byte>, i: nat)
    requires FindImage(file, i).Some?
    ensures FindImage(file, i).value.height > 0
  {
  }

  /** A file that ends behind the header of a bitmap of one pixel. */
  function CutOff(): seq<byte> {
    var s := Shape(1, 1, 4);
    [0, 0, 1, 0, 1, 0] + Entry(s, INFO_SIZE + MaskedBytes(s), HEADER_SIZE + ENTRY_SIZE) + Info(s)
  }

  /** Its pixel is first refused, then delivered as transparent black. */
  lemma CutOffMisread()
    ensures Calls(CutOff(), 1, State(None, false), [(0, 0), (0, 0)]).1 == [None, Some([Rgba(0, 0, 0, 0)])]
    ensures ReadImage(CutOff(), 0) == None
  {
    var (f, s) := (CutOff(), Shape(1, 1, 4));
    var (head, e) := ([0, 0, 1, 0, 1, 0], Entry(s, INFO_SIZE + MaskedBytes(s), HEADER_SIZE + ENTRY_SIZE));
    assert f[6..22] == e && f[22..62] == Info(s) && f[62..] == [];
    FoundBack(f, 0, s, 22);
    assert Area(XorWidth(1, true), 1) == 4;
    ImageIs(f, 0);
    SecondAnswer(f, 1, 0);
    assert DataOf(f, Found(1, 1, 22, 32)) == [];
    assert BufferOf(f, 0)[0] == BufferRow([], 1, 1, true, 0) == NoColors(1) == [Rgba(0, 0, 0, 0)];
  }

  // ----- The reader.

  class IcoInput {
    const file: seq<byte>
    const count: nat

    /** The current subimage, if there is one, and what is known about it. */
    var subimage: Option<nat>
    var bpp: nat
    var offset: nat
    var width: nat
    var height: nat
    var buf: seq<seq<Rgba>>

    /** What is known belongs to the current subimage; the buffer is empty, or decoding it has been tried. */
    ghost predicate Valid()
      reads this
    {
      subimage.Some? ==>
        && FindImage(file, subimage.value) == Some(Found(width, height, offset, bpp))
        && (buf != [] ==> buf == BufferOf(file, subimage.value))
    }

    function Now(): State
      reads this
    {
      State(subimage, subimage.Some? && buf != [])
    }

    constructor (file: seq<byte>)
      requires |file| >= HEADER_SIZE
      ensures Valid() && this.file == file && count == Num16(file, 4) && Now() == State(None, false)
    {
      this.file, count := file, Num16(file, 4);
      subimage, bpp, offset, width, height, buf := None, 0, 0, 0, 0, [];
    }

    /** Make a subimage the current one. A failure leaves none current, unless the number was out of range. */
    method SeekSubimage(i: nat) returns (ok: bool)
      requires Valid()
      modifies this
      ensures Valid() && Now() == Seek(file, count, old(Now()), i)
      ensures ok <==> i < count && (old(subimage) == Some(i) || FindImage(file, i).Some?)
      ensures ok ==> subimage == Some(i)
    {
      if i >= count {
        return false;
      }
      if subimage == Some(i) {
        return true;
      }
      buf, subimage := [], None;
      var found := FindImage(file, i);
      if found.None? {
        return false;
      }
      var d := found.value;
      bpp, offset, width, height := d.bpp, d.offset, d.width, d.height;
      subimage := Some(i);
      return true;
    }

    /** Decode the current subimage. The buffer has its size before the first byte is read, and keeps what was read. */
    method ReadImg() returns (ok: bool)
      requires Valid() && subimage.Some? && bpp >= 24
      modifies this`buf
      ensures Valid() && buf == BufferOf(file, subimage.value) && |buf| == height
      ensures ok <==> Enough(file, subimage.value)
    {
      ok, buf := FillBuffer(file[offset + INFO_SIZE..], width, height, bpp == 32);
    }

    /** Row y of subimage i; a buffer that is not empty is taken for the image. */
    method ReadNativeScanline(i: nat, y: nat) returns (ok: bool, row: seq<Rgba>)
      requires Valid() && Plain(file, i) && (FindImage(file, i).Some? ==> y < FindImage(file, i).value.height)
      modifies this
      ensures Valid()
      ensures Call(file, count, old(Now()), i, y) == (Now(), if ok then Some(row) else None)
    {
      row := [];
      ok := SeekSubimage(i);
      if !ok {
        return;
      }
      FoundHeight(file, i);
      if buf == [] {
        ok := ReadImg();
        if !ok {
          return;
        }
      }
      row := buf[y];
    }
  }
}
