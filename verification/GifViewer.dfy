/**
 * A viewer as the GIF89a specification describes it: the block structure of the stream, image
 * descriptors with local color tables, and graphic control extensions with their disposal methods
 * and transparent index (sections 17 to 27). Nothing here knows how the writer works.
 */
module GifViewer {
  import opened Bytes
  import opened GifPixels
  import opened GifLzwSpec
  import opened GifLzwStream
  import opened GifBlocks

  datatype Control = Control(disposal: nat, transparent: Option<byte>, delay: nat)

  const NO_CONTROL := Control(0, None, 0)

  datatype Frame = Frame(left: nat, top: nat, width: nat, height: nat,
                         control: Control, palette: seq<Rgb>, indices: seq<byte>)

  datatype Gif = Gif(width: nat, height: nat, frames: seq<Frame>)

  function U16(lo: byte, hi: byte): nat {
    lo as int + 256 * hi as int
  }

  // ----- Reading the stream.

  /** The packed fields of descriptors: color table flag, interlace flag, size of the table. */
  predicate HasTable(packed: byte) {
    packed as int / 128 == 1
  }

  predicate Interlaced(packed: byte) {
    packed as int / 64 % 2 == 1
  }

  function Entries(packed: byte): nat {
    if HasTable(packed) then Pow2(packed as int % 8 + 1) else 0
  }

  function Entry(data: seq<byte>, i: nat): Rgb
    requires 3 * i + 2 < |data|
  {
    Rgb(data[3 * i], data[3 * i + 1], data[3 * i + 2])
  }

  function ReadTable(data: seq<byte>, entries: nat): (table: seq<Rgb>)
    requires 3 * entries <= |data|
    ensures |table| == entries
    ensures forall i :: 0 <= i < entries ==> table[i] == Entry(data, i)
  {
    seq(entries, i requires 0 <= i < entries => Entry(data, i))
  }

  lemma {:induction false} DeblockShrinks(data: seq<byte>)
    requires Deblock(data).Some?
    ensures |Deblock(data).value.1| < |data|
  {
    var next: nat := 1 + data[0] as int;
    if next != 1 {
      DeblockShrinks(data[next..]);
    }
  }

  /** What follows the color table of an image: minimum code size and sub-blocks of LZW codes. */
  function ReadIndices(data: seq<byte>, count: nat): Option<(seq<byte>, seq<byte>)> {
    if data == [] || !Depth(data[0] as int) then None
    else match Deblock(data[1..]) {
      case None => None
      case Some((payload, rest)) =>
        var depth := data[0] as int;
        match DecodePixels(depth, Reset(depth), BytesBits(payload), [], count)
        case None => None
        case Some(indices) => Some((indices, rest))
    }
  }

  /** What follows an image descriptor and its local color table. */
  function AfterTable(data: seq<byte>): (rest: seq<byte>)
    requires |data| >= 10 && |data| >= 10 + 3 * Entries(data[9])
    ensures |rest| < |data|
  {
    data[10 + 3 * Entries(data[9])..]
  }

  /** An image descriptor, its local color table and its pixels; interlaced images are not read. */
  function ReadImage(data: seq<byte>, control: Control, global: seq<Rgb>): Option<(Frame, seq<byte>)> {
    if |data| < 10 || Interlaced(data[9]) || |data| < 10 + 3 * Entries(data[9]) then None
    else
      var (width, height) := (U16(data[5], data[6]), U16(data[7], data[8]));
      match ReadIndices(AfterTable(data), Area(width, height))
      case None => None
      case Some((indices, rest)) =>
        var palette := if HasTable(data[9]) then ReadTable(data[10..], Entries(data[9])) else global;
        Some((Frame(U16(data[1], data[2]), U16(data[3], data[4]), width, height,
                    control, palette, indices), rest))
  }

  lemma ReadImageShrinks(data: seq<byte>, control: Control, global: seq<Rgb>)
    requires ReadImage(data, control, global).Some?
    ensures |ReadImage(data, control, global).value.1| < |data|
  {
    DeblockShrinks(AfterTable(data)[1..]);
  }

  /** The frames up to the trailer; a control applies to the next image only. */
  function ReadBlocks(data: seq<byte>, control: Control, global: seq<Rgb>): Option<seq<Frame>>
    decreases |data|
  {
    if data == [] then None
    else if data[0] == 0x3b then Some([])
    else if data[0] == 0x21 then
      if |data| < 2 then None
      else if data[1] == 0xf9 then
        if |data| < 8 || data[2] != 4 || data[7] != 0 then None
        else ReadBlocks(data[8..], ControlOf(data[3], data[4], data[5], data[6]), global)
      else match Deblock(data[2..]) {
        case None => None
        case Some((_, rest)) => DeblockShrinks(data[2..]); ReadBlocks(rest, control, global)
      }
    else if data[0] == 0x2c then
      match ReadImage(data, control, global) {
        case None => None
        case Some((frame, rest)) =>
          ReadImageShrinks(data, control, global);
          Then([frame], ReadBlocks(rest, NO_CONTROL, global))
      }
    else None
  }

  function ControlOf(packed: byte, lo: byte, hi: byte, index: byte): Control {
    Control(packed as int / 4 % 8, if packed % 2 == 1 then Some(index) else None, U16(lo, hi))
  }

  function Then(frames: seq<Frame>, rest: Option<seq<Frame>>): Option<seq<Frame>> {
    match rest
    case None => None
    case Some(more) => Some(frames + more)
  }

  const SIGNATURE: seq<byte> := [0x47, 0x49, 0x46, 0x38, 0x39, 0x61]

  function ReadGif(data: seq<byte>): Option<Gif> {
    if |data| < 13 || data[..6] != SIGNATURE then None
    else
      var entries := Entries(data[10]);
      if |data| < 13 + 3 * entries then None
      else match ReadBlocks(data[13 + 3 * entries..], NO_CONTROL, ReadTable(data[13..], entries)) {
        case None => None
        case Some(frames) => Some(Gif(U16(data[6], data[7]), U16(data[8], data[9]), frames))
      }
  }

  // ----- Showing the frames.

  const BACKGROUND := Rgb(0, 0, 0)

  predicate Covers(f: Frame, x: nat, y: nat) {
    f.left <= x < f.left + f.width && f.top <= y < f.top + f.height
  }

  /** The color that a frame gives to a point, or what was there where it is transparent. */
  function Paint(f: Frame, x: nat, y: nat, under: Rgb): Rgb {
    if !Covers(f, x, y) then under
    else
      var k := (y - f.top) * f.width + (x - f.left);
      if !(0 <= k < |f.indices|) || f.control.transparent == Some(f.indices[k]) then under
      else if f.indices[k] as int < |f.palette| then f.palette[f.indices[k]]
      else under
  }

  type Canvas = seq<Rgb>

  function Blank(width: nat, height: nat): Canvas {
    seq(Area(width, height), _ => BACKGROUND)
  }

  function Draw(width: nat, canvas: Canvas, f: Frame): (shown: Canvas)
    requires width > 0
    ensures |shown| == |canvas|
  {
    seq(|canvas|, k requires 0 <= k < |canvas| => Paint(f, k % width, k / width, canvas[k]))
  }

  /** The canvas a frame leaves to the next one, by its disposal method (section 23). */
  function Dispose(width: nat, before: Canvas, f: Frame): (after: Canvas)
    requires width > 0
    ensures |after| == |before|
  {
    if f.control.disposal == 3 then before
    else if f.control.disposal == 2 then
      seq(|before|, k requires 0 <= k < |before| =>
        if Covers(f, k % width, k / width) then BACKGROUND else before[k])
    else Draw(width, before, f)
  }

  function Behind(width: nat, height: nat, frames: seq<Frame>): Canvas
    requires width > 0
  {
    if frames == [] then Blank(width, height)
    else Dispose(width, Behind(width, height, frames[..|frames| - 1]), frames[|frames| - 1])
  }

  /** What is on the screen once the last frame is drawn. */
  function Screen(width: nat, height: nat, frames: seq<Frame>): Canvas
    requires width > 0
  {
    if frames == [] then Blank(width, height)
    else Draw(width, Behind(width, height, frames[..|frames| - 1]), frames[|frames| - 1])
  }

  function View(data: seq<byte>): Option<Canvas> {
    match ReadGif(data)
    case None => None
    case Some(gif) =>
      if gif.width == 0 then Some([]) else Some(Screen(gif.width, gif.height, gif.frames))
  }
}
