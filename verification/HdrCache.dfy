/** Reading scanlines in any order, with the offsets of those that have been passed before. */
module HdrCache {
  import opened Bytes
  import opened HdrRle
  import opened HdrScanline

  /** Whatever reads one scanline at the front of the rest of a file. */
  type Reader = seq<byte> -> Outcome<seq<Rgbe>>

  /** What a read leaves of the file is the end of the file. */
  predicate EndOf(rest: seq<byte>, file: seq<byte>) {
    |rest| <= |file| && file[|file| - |rest|..] == rest
  }

  ghost predicate Orderly(read: Reader) {
    forall file :: EndOf(read(file).rest, file)
  }

  // ----- Reading from the front.

  /** What is left of the file in front of scanline k, if the scanlines before it can be read. */
  function RestOf(body: seq<byte>, read: Reader, k: nat): Option<seq<byte>> {
    if k == 0 then Some(body)
    else
      match RestOf(body, read, k - 1)
      case None => None
      case Some(rest) => After(read(rest))
  }

  function After(o: Outcome<seq<Rgbe>>): Option<seq<byte>> {
    if o.Done? then Some(o.rest) else None
  }

  function Found(o: Outcome<seq<Rgbe>>): Option<seq<Rgbe>> {
    if o.Done? then Some(o.value) else None
  }

  /** Scanline k, as a reader finds it that starts at the front. */
  function LineOf(body: seq<byte>, read: Reader, k: nat): Option<seq<Rgbe>> {
    match RestOf(body, read, k)
    case None => None
    case Some(rest) => Found(read(rest))
  }

  lemma RestNext(body: seq<byte>, read: Reader, k: nat, next: nat)
    requires next == k + 1
    ensures RestOf(body, read, next)
         == match RestOf(body, read, k) { case None => None case Some(rest) => After(read(rest)) }
  {
  }

  // ----- The cache.

  /** The scanline that comes next, the known offsets of scanlines, and the position in the file. */
  datatype State = State(next: nat, offsets: seq<nat>, pos: nat)

  predicate Ok(s: State, file: seq<byte>) {
    s.next < |s.offsets| && s.pos <= |file| && forall i :: 0 <= i < |s.offsets| ==> s.offsets[i] <= |file|
  }

  function Opened(first: nat): State {
    State(0, [first], first)
  }

  /** After one more scanline the position is recorded if it is not known yet, even if the read failed. */
  function Passed(s: State, pos: nat): State {
    State(s.next + 1, if s.next + 1 == |s.offsets| then s.offsets + [pos] else s.offsets, pos)
  }

  /** Read on until scanline y has been read; a failure ends it. */
  function ReadUpTo(file: seq<byte>, read: Reader, s: State, y: nat, got: seq<Rgbe>): (r: (State, Option<seq<Rgbe>>))
    requires Ok(s, file) && Orderly(read)
    ensures Ok(r.0, file)
    decreases y + 1 - s.next
  {
    if s.next > y then (s, Some(got))
    else
      var o := read(file[s.pos..]);
      assert EndOf(o.rest, file[s.pos..]);
      var after := Passed(s, |file| - |o.rest|);
      if o.Failed? then (after, None) else ReadUpTo(file, read, after, y, o.value)
  }

  lemma ReadUpToNext(file: seq<byte>, read: Reader, s: State, y: nat, got: seq<Rgbe>, o: Outcome<seq<Rgbe>>, after: State)
    requires Ok(s, file) && Orderly(read) && s.next <= y && o == read(file[s.pos..])
    requires |o.rest| <= |file| && after == Passed(s, |file| - |o.rest|)
    ensures Ok(after, file) && after.next == s.next + 1
    ensures ReadUpTo(file, read, s, y, got)
         == if o.Failed? then (after, None) else ReadUpTo(file, read, after, y, o.value)
  {
  }

  /** Where reading starts for scanline y: where the file stands, or at the nearest known offset. */
  function Seek(s: State, y: nat): State
    requires |s.offsets| > 0
  {
    if s.next == y then s
    else
      var n := if y < |s.offsets| - 1 then y else |s.offsets| - 1;
      s.(next := n, pos := s.offsets[n])
  }

  function Call(file: seq<byte>, read: Reader, s: State, y: nat): (r: (State, Option<seq<Rgbe>>))
    requires Ok(s, file) && Orderly(read)
    ensures Ok(r.0, file)
  {
    ReadUpTo(file, read, Seek(s, y), y, [])
  }

  // ----- Where scanlines are looked for.

  /** Where scanline k is looked for: where the attempt to read the one before it, failed or not, has ended. */
  function Trail(file: seq<byte>, read: Reader, first: nat, k: nat): (pos: nat)
    requires first <= |file| && Orderly(read)
    ensures pos <= |file|
  {
    if k == 0 then first else Ended(file, read, Trail(file, read, first, k - 1))
  }

  function Ended(file: seq<byte>, read: Reader, pos: nat): (end: nat)
    requires pos <= |file| && Orderly(read)
    ensures end <= |file|
  {
    assert EndOf(read(file[pos..]).rest, file[pos..]);
    |file| - |read(file[pos..]).rest|
  }

  /** What is read there. */
  function Tried(file: seq<byte>, read: Reader, first: nat, k: nat): Outcome<seq<Rgbe>>
    requires first <= |file| && Orderly(read)
  {
    read(file[Trail(file, read, first, k)..])
  }

  predicate Good(file: seq<byte>, read: Reader, first: nat, k: nat)
    requires first <= |file| && Orderly(read)
  {
    Tried(file, read, first, k).Done?
  }

  ghost predicate AllGood(file: seq<byte>, read: Reader, first: nat, from: nat, to: nat)
    requires first <= |file| && Orderly(read)
  {
    forall k :: from <= k < to ==> Good(file, read, first, k)
  }

  lemma TrailNext(file: seq<byte>, read: Reader, first: nat, k: nat, next: nat)
    requires first <= |file| && Orderly(read) && next == k + 1
    ensures Trail(file, read, first, next) == |file| - |Tried(file, read, first, k).rest|
  {
  }

  /** Reading from the front gets to scanline k exactly if all before it can be read, and then looks in the same place. */
  lemma {:induction false} RestIs(file: seq<byte>, read: Reader, first: nat, k: nat)
    requires first <= |file| && Orderly(read)
    ensures RestOf(file[first..], read, k)
         == if AllGood(file, read, first, 0, k) then Some(file[Trail(file, read, first, k)..]) else None
  {
    if k > 0 {
      RestIs(file, read, first, k - 1);
      RestStep(file, read, first, k - 1, k);
    }
  }

  lemma RestStep(file: seq<byte>, read: Reader, first: nat, k: nat, next: nat)
    requires first <= |file| && Orderly(read) && next == k + 1
    requires RestOf(file[first..], read, k)
          == if AllGood(file, read, first, 0, k) then Some(file[Trail(file, read, first, k)..]) else None
    ensures RestOf(file[first..], read, next)
         == if AllGood(file, read, first, 0, next) then Some(file[Trail(file, read, first, next)..]) else None
  {
    RestNext(file[first..], read, k, next);
    RestAfter(file, read, first, k, next);
    AllGoodNext(file, read, first, k, next);
  }

  lemma AllGoodNext(file: seq<byte>, read: Reader, first: nat, k: nat, next: nat)
    requires first <= |file| && Orderly(read) && next == k + 1
    ensures AllGood(file, read, first, 0, next) <==> AllGood(file, read, first, 0, k) && Good(file, read, first, k)
  {
  }

  lemma RestAfter(file: seq<byte>, read: Reader, first: nat, k: nat, next: nat)
    requires first <= |file| && Orderly(read) && next == k + 1
    ensures file[Trail(file, read, first, next)..] == Tried(file, read, first, k).rest
  {
    var pos := Trail(file, read, first, k);
    var rest := Tried(file, read, first, k).rest;
    TrailNext(file, read, first, k, next);
    assert EndOf(rest, file[pos..]);
    assert file[|file| - |rest|..] == file[pos..][|file[pos..]| - |rest|..];
  }

  /** From the front, scanline k is found exactly if it and all before it can be read. */
  lemma LineIs(file: seq<byte>, read: Reader, first: nat, k: nat)
    requires first <= |file| && Orderly(read)
    ensures LineOf(file[first..], read, k)
         == if AllGood(file, read, first, 0, k + 1) then Found(Tried(file, read, first, k)) else None
  {
    RestIs(file, read, first, k);
    AllGoodNext(file, read, first, k, k + 1);
  }

  // ----- What every state keeps, whether reads fail or not.

  /** Every offset is where its scanline is looked for, and the file stands where the next one is. */
  ghost predicate Trailing(s: State, file: seq<byte>, read: Reader, first: nat)
    requires first <= |file| && Orderly(read)
  {
    && s.next < |s.offsets| && s.pos == Trail(file, read, first, s.next)
    && forall i {:trigger s.offsets[i]} :: 0 <= i < |s.offsets| ==> s.offsets[i] == Trail(file, read, first, i)
  }

  lemma OpenedTrails(file: seq<byte>, read: Reader, first: nat)
    requires first <= |file| && Orderly(read)
    ensures Trailing(Opened(first), file, read, first)
  {
  }

  lemma SeekTrails(s: State, file: seq<byte>, read: Reader, first: nat, y: nat)
    requires first <= |file| && Orderly(read) && Trailing(s, file, read, first)
    ensures Trailing(Seek(s, y), file, read, first) && Seek(s, y).next <= y
  {
  }

  lemma PassedTrails(s: State, file: seq<byte>, read: Reader, first: nat, next: nat)
    requires first <= |file| && Orderly(read) && Trailing(s, file, read, first) && next == s.next + 1
    ensures Trailing(Passed(s, Trail(file, read, first, next)), file, read, first)
  {
  }

  /** Scanline y, if it and all from k on can be read. */
  ghost function Delivered(file: seq<byte>, read: Reader, first: nat, k: nat, y: nat): Option<seq<Rgbe>>
    requires first <= |file| && Orderly(read)
  {
    if AllGood(file, read, first, k, y + 1) then Found(Tried(file, read, first, y)) else None
  }

  lemma DeliveredNext(file: seq<byte>, read: Reader, first: nat, k: nat, next: nat, y: nat)
    requires first <= |file| && Orderly(read) && next == k + 1
    ensures k < y ==> Delivered(file, read, first, k, y)
                      == if Good(file, read, first, k) then Delivered(file, read, first, next, y) else None
    ensures k == y ==> Delivered(file, read, first, k, y) == Found(Tried(file, read, first, y))
  {
    if k < y && Good(file, read, first, k) {
      AllGoodFrom(file, read, first, k, next, y + 1);
    }
  }

  lemma AllGoodFrom(file: seq<byte>, read: Reader, first: nat, k: nat, next: nat, to: nat)
    requires first <= |file| && Orderly(read) && next == k + 1 && Good(file, read, first, k)
    ensures AllGood(file, read, first, k, to) <==> AllGood(file, read, first, next, to)
  {
  }

  /** One scanline is read, or cannot be. */
  lemma OneRead(file: seq<byte>, read: Reader, first: nat, s: State, y: nat, got: seq<Rgbe>, o: Outcome<seq<Rgbe>>,
                next: nat) returns (after: State)
    requires first <= |file| && Orderly(read) && Trailing(s, file, read, first) && Ok(s, file) && s.next <= y
    requires o == Tried(file, read, first, s.next) && next == s.next + 1
    ensures Ok(after, file) && Trailing(after, file, read, first) && after.next == next
    ensures ReadUpTo(file, read, s, y, got)
         == if o.Failed? then (after, None) else ReadUpTo(file, read, after, y, o.value)
  {
    after := Passed(s, Trail(file, read, first, next));
    TrailNext(file, read, first, s.next, next);
    PassedTrails(s, file, read, first, next);
    ReadUpToNext(file, read, s, y, got, o, after);
  }

  /** Reading up to scanline y delivers it exactly if all scanlines on the way can be read. */
  lemma {:induction false} ReadUpToIs(file: seq<byte>, read: Reader, first: nat, s: State, y: nat, got: seq<Rgbe>)
    requires first <= |file| && Orderly(read) && Trailing(s, file, read, first) && Ok(s, file) && s.next <= y
    ensures Trailing(ReadUpTo(file, read, s, y, got).0, file, read, first)
    ensures ReadUpTo(file, read, s, y, got).1 == Delivered(file, read, first, s.next, y)
    decreases y - s.next
  {
    var (o, next) := (Tried(file, read, first, s.next), s.next + 1);
    var after := OneRead(file, read, first, s, y, got, o, next);
    DeliveredNext(file, read, first, s.next, next, y);
    if o.Done? && s.next < y {
      ReadUpToIs(file, read, first, after, y, o.value);
    }
  }

  /** So does a call, from wherever it starts. */
  lemma CallIs(file: seq<byte>, read: Reader, first: nat, s: State, y: nat)
    requires first <= |file| && Orderly(read) && Trailing(s, file, read, first) && Ok(s, file)
    ensures Trailing(Call(file, read, s, y).0, file, read, first) && Seek(s, y).next <= y
    ensures Call(file, read, s, y).1 == Delivered(file, read, first, Seek(s, y).next, y)
  {
    SeekTrails(s, file, read, first, y);
    ReadUpToIs(file, read, first, Seek(s, y), y, []);
  }

  // ----- Any number of calls in any order.

  function Calls(file: seq<byte>, read: Reader, s: State, ys: seq<nat>): (r: (State, seq<Option<seq<Rgbe>>>))
    requires Ok(s, file) && Orderly(read)
    ensures Ok(r.0, file) && |r.1| == |ys|
  {
    if ys == [] then (s, [])
    else
      var n := |ys| - 1;
      var (before, results) := Calls(file, read, s, ys[..n]);
      var (after, result) := Call(file, read, before, ys[n]);
      (after, results + [result])
  }

  lemma CallsNext(file: seq<byte>, read: Reader, s: State, ys: seq<nat>, y: nat)
    requires Ok(s, file) && Orderly(read)
    ensures var t := Calls(file, read, s, ys).0;
      && Calls(file, read, s, ys + [y]).0 == Call(file, read, t, y).0
      && Calls(file, read, s, ys + [y]).1 == Calls(file, read, s, ys).1 + [Call(file, read, t, y).1]
  {
    assert (ys + [y])[..|ys|] == ys;
  }

  /** The state after any calls. */
  function StateAfter(file: seq<byte>, read: Reader, first: nat, ys: seq<nat>): (s: State)
    requires first <= |file| && Orderly(read)
    ensures Ok(s, file)
  {
    Calls(file, read, Opened(first), ys).0
  }

  /** After any calls in any order, every offset is where its scanline is looked for. */
  lemma {:induction false} AllTrail(file: seq<byte>, read: Reader, first: nat, ys: seq<nat>)
    requires first <= |file| && Orderly(read)
    ensures Trailing(StateAfter(file, read, first, ys), file, read, first)
  {
    if ys == [] {
      OpenedTrails(file, read, first);
    } else {
      var (before, y) := (ys[..|ys| - 1], ys[|ys| - 1]);
      assert ys == before + [y];
      AllTrail(file, read, first, before);
      CallTrails(file, read, first, before, y);
    }
  }

  lemma CallTrails(file: seq<byte>, read: Reader, first: nat, before: seq<nat>, y: nat)
    requires first <= |file| && Orderly(read) && Trailing(StateAfter(file, read, first, before), file, read, first)
    ensures Trailing(StateAfter(file, read, first, before + [y]), file, read, first)
  {
    CallIs(file, read, first, StateAfter(file, read, first, before), y);
    CallsNext(file, read, Opened(first), before, y);
  }

  /** What the next call delivers, after any others. */
  function Answer(file: seq<byte>, read: Reader, first: nat, before: seq<nat>, y: nat): Option<seq<Rgbe>>
    requires first <= |file| && Orderly(read)
  {
    Call(file, read, StateAfter(file, read, first, before), y).1
  }

  /** The answers are those of the calls one after the other. */
  lemma {:induction false} AnswerIs(file: seq<byte>, read: Reader, first: nat, ys: seq<nat>, i: nat)
    requires first <= |file| && Orderly(read) && i < |ys|
    ensures Calls(file, read, Opened(first), ys).1[i] == Answer(file, read, first, ys[..i], ys[i])
  {
    var (before, y) := (ys[..|ys| - 1], ys[|ys| - 1]);
    assert ys == before + [y];
    CallsNext(file, read, Opened(first), before, y);
    if i < |ys| - 1 {
      AnswerIs(file, read, first, before, i);
      assert before[..i] == ys[..i];
    }
  }

  lemma AnswerWhen(file: seq<byte>, read: Reader, first: nat, before: seq<nat>, y: nat)
    requires first <= |file| && Orderly(read)
    ensures AllGood(file, read, first, 0, y) ==>
      Answer(file, read, first, before, y) == LineOf(file[first..], read, y)
    ensures !Good(file, read, first, y) ==> Answer(file, read, first, before, y) == None
  {
    AllTrail(file, read, first, before);
    CallIs(file, read, first, StateAfter(file, read, first, before), y);
    LineIs(file, read, first, y);
  }

  /** A scanline that can be reached from the front comes out as from the front, whatever was asked for before. */
  lemma AnyOrder(file: seq<byte>, read: Reader, first: nat, ys: seq<nat>, i: nat)
    requires first <= |file| && Orderly(read) && i < |ys| && RestOf(file[first..], read, ys[i]).Some?
    ensures Calls(file, read, Opened(first), ys).1[i] == LineOf(file[first..], read, ys[i])
  {
    AnswerIs(file, read, first, ys, i);
    RestIs(file, read, first, ys[i]);
    AnswerWhen(file, read, first, ys[..i], ys[i]);
  }

  // ----- Files that consist of scanlines.

  /** Reading x gives the pixels, and reads exactly x, whatever follows. */
  ghost predicate Reads(read: Reader, x: seq<byte>, ps: seq<Rgbe>) {
    forall rest :: read(x + rest) == Done(ps, rest)
  }

  /** The scanlines from k on, as they follow one another in the file. */
  function Joined(codes: seq<seq<byte>>, k: nat): seq<byte>
    requires k <= |codes|
    decreases |codes| - k
  {
    if k == |codes| then [] else codes[k] + Joined(codes, k + 1)
  }

  ghost predicate AllRead(read: Reader, codes: seq<seq<byte>>, lines: seq<seq<Rgbe>>) {
    |codes| == |lines| && forall i :: 0 <= i < |codes| ==> Reads(read, codes[i], lines[i])
  }

  lemma JoinedRead(read: Reader, codes: seq<seq<byte>>, lines: seq<seq<Rgbe>>, k: nat)
    requires AllRead(read, codes, lines) && k < |codes|
    ensures read(Joined(codes, k)) == Done(lines[k], Joined(codes, k + 1))
  {
    assert Reads(read, codes[k], lines[k]);
  }

  /** Such a file can be read from the front to its end. */
  lemma {:induction false} JoinedRest(read: Reader, codes: seq<seq<byte>>, lines: seq<seq<Rgbe>>, k: nat)
    requires AllRead(read, codes, lines) && k <= |codes|
    ensures RestOf(Joined(codes, 0), read, k) == Some(Joined(codes, k))
  {
    if k > 0 {
      JoinedRest(read, codes, lines, k - 1);
      JoinedRead(read, codes, lines, k - 1);
      RestNext(Joined(codes, 0), read, k - 1, k);
    }
  }

  /** Whatever is asked for in whatever order, the scanlines come out as they are in the file. */
  lemma JoinedInAnyOrder(read: Reader, header: seq<byte>, codes: seq<seq<byte>>, lines: seq<seq<Rgbe>>,
                         ys: seq<nat>, i: nat)
    requires AllRead(read, codes, lines) && Orderly(read) && i < |ys| && ys[i] < |lines|
    ensures Calls(header + Joined(codes, 0), read, Opened(|header|), ys).1[i] == Some(lines[ys[i]])
  {
    var file := header + Joined(codes, 0);
    assert file[|header|..] == Joined(codes, 0);
    JoinedRest(read, codes, lines, ys[i]);
    JoinedRead(read, codes, lines, ys[i]);
    AnyOrder(file, read, |header|, ys, i);
  }

  // ----- Exactly when all calls agree with reading from the front.

  /** Whatever was asked for before, every answer is that of a reader that starts at the front. */
  ghost predicate Agreeing(file: seq<byte>, read: Reader, first: nat)
    requires first <= |file| && Orderly(read)
  {
    forall before, y :: Answer(file, read, first, before, y) == LineOf(file[first..], read, y)
  }

  /** Nothing that can be read follows right behind something that cannot. */
  ghost predicate NoneBehind(file: seq<byte>, read: Reader, first: nat)
    requires first <= |file| && Orderly(read)
  {
    forall k: nat :: Follows(file, read, first, k)
  }

  /** Scanline k can be read if the next one can. */
  predicate Follows(file: seq<byte>, read: Reader, first: nat, k: nat)
    requires first <= |file| && Orderly(read)
  {
    Good(file, read, first, k + 1) ==> Good(file, read, first, k)
  }

  lemma {:induction false} GoodBefore(file: seq<byte>, read: Reader, first: nat, k: nat)
    requires first <= |file| && Orderly(read) && NoneBehind(file, read, first) && Good(file, read, first, k)
    ensures AllGood(file, read, first, 0, k + 1)
  {
    if k > 0 {
      assert Follows(file, read, first, k - 1);
      GoodBefore(file, read, first, k - 1);
    }
  }

  /** The scanlines before n, in order. */
  function Before(n: nat): (ys: seq<nat>)
    ensures |ys| == n
  {
    if n == 0 then [] else Before(n - 1) + [n - 1]
  }

  /** Asking for the scanlines in order moves on by one each time, even where nothing can be read. */
  lemma {:induction false} InOrder(file: seq<byte>, read: Reader, first: nat, n: nat)
    requires first <= |file| && Orderly(read)
    ensures StateAfter(file, read, first, Before(n)).next == n
  {
    if n > 0 {
      InOrder(file, read, first, n - 1);
      CallsNext(file, read, Opened(first), Before(n - 1), n - 1);
      OneOn(file, read, StateAfter(file, read, first, Before(n - 1)), n - 1);
    }
  }

  lemma OneOn(file: seq<byte>, read: Reader, s: State, y: nat)
    requires Ok(s, file) && Orderly(read) && s.next == y
    ensures Call(file, read, s, y).0.next == y + 1
  {
    assert EndOf(read(file[s.pos..]).rest, file[s.pos..]);
    var after := Passed(s, |file| - |read(file[s.pos..]).rest|);
    ReadUpToNext(file, read, s, y, [], read(file[s.pos..]), after);
  }

  /** After the scanlines before it, one that can be read is delivered even if those cannot. */
  lemma MisledAt(file: seq<byte>, read: Reader, first: nat, k: nat, next: nat)
    requires first <= |file| && Orderly(read) && next == k + 1
    requires !Good(file, read, first, k) && Good(file, read, first, next)
    ensures LineOf(file[first..], read, next) == None
    ensures Answer(file, read, first, Before(next), next) == Found(Tried(file, read, first, next))
  {
    LineIs(file, read, first, next);
    StillFound(file, read, first, next);
  }

  lemma StillFound(file: seq<byte>, read: Reader, first: nat, y: nat)
    requires first <= |file| && Orderly(read) && Good(file, read, first, y)
    ensures Answer(file, read, first, Before(y), y) == Found(Tried(file, read, first, y))
  {
    AllTrail(file, read, first, Before(y));
    InOrder(file, read, first, y);
    FoundWhereItStands(file, read, first, StateAfter(file, read, first, Before(y)), y);
  }

  lemma FoundWhereItStands(file: seq<byte>, read: Reader, first: nat, s: State, y: nat)
    requires first <= |file| && Orderly(read) && Trailing(s, file, read, first) && Ok(s, file) && s.next == y
    ensures Call(file, read, s, y).1 == Found(Tried(file, read, first, y))
  {
    CallIs(file, read, first, s, y);
    DeliveredNext(file, read, first, y, y + 1, y);
  }

  lemma Misled(file: seq<byte>, read: Reader, first: nat, k: nat, next: nat)
    requires first <= |file| && Orderly(read) && next == k + 1
    requires !Good(file, read, first, k) && Good(file, read, first, next)
    ensures LineOf(file[first..], read, next) == None && !Agreeing(file, read, first)
    ensures Answer(file, read, first, Before(next), next) == Found(Tried(file, read, first, next))
  {
    MisledAt(file, read, first, k, next);
  }

  lemma AnswerAgrees(file: seq<byte>, read: Reader, first: nat, before: seq<nat>, y: nat)
    requires first <= |file| && Orderly(read) && NoneBehind(file, read, first)
    ensures Answer(file, read, first, before, y) == LineOf(file[first..], read, y)
  {
    LineIs(file, read, first, y);
    AnswerWhen(file, read, first, before, y);
    if Good(file, read, first, y) {
      GoodBefore(file, read, first, y);
    }
  }

  /** All answers agree with reading from the front exactly if nothing readable follows something unreadable. */
  lemma AgreeingIff(file: seq<byte>, read: Reader, first: nat)
    requires first <= |file| && Orderly(read)
    ensures Agreeing(file, read, first) <==> NoneBehind(file, read, first)
  {
    if NoneBehind(file, read, first) {
      forall before, y
        ensures Answer(file, read, first, before, y) == LineOf(file[first..], read, y)
      {
        AnswerAgrees(file, read, first, before, y);
      }
    } else {
      var k: nat :| !Follows(file, read, first, k);
      Misled(file, read, first, k, k + 1);
    }
  }
}
