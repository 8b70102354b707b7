/** Bytes, optional results and powers of two, shared by every codec. */
module Bytes {

  newtype byte = x: int | 0 <= x < 256

  datatype Option<+T> = None | Some(value: T)

  function Pow2(n: nat): (p: nat)
    ensures p >= 1
  {
    if n == 0 then 1 else 2 * Pow2(n - 1)
  }

  lemma {:induction false} Pow2Grows(m: nat, n: nat)
    requires m < n
    ensures 2 * Pow2(m) <= Pow2(n)
    decreases n
  {
    if m + 1 < n {
      Pow2Grows(m, n - 1);
    }
  }

  /** The powers that the code widths of LZW reach. */
  lemma Pow2Table()
    ensures Pow2(2) == 4 && Pow2(3) == 8 && Pow2(4) == 16 && Pow2(5) == 32 && Pow2(6) == 64
    ensures Pow2(7) == 128 && Pow2(8) == 256 && Pow2(11) == 2048 && Pow2(12) == 4096
  {
  }

  lemma Assoc<T>(a: seq<T>, b: seq<T>, c: seq<T>)
    ensures (a + b) + c == a + (b + c)
  {
  }

  /** A part of a part. */
  lemma PartOfPart<T>(s: seq<T>, from: nat, to: nat, a: nat, b: nat)
    requires from <= to <= |s| && a <= b <= to - from
    ensures s[from..to][a..b] == s[from + a..from + b]
  {
    forall k | 0 <= k < b - a
      ensures s[from..to][a..b][k] == s[from + a..from + b][k]
    {
      assert s[from..to][a + k] == s[from + (a + k)];
    }
  }

  /** Put a byte behind the first bytes of a buffer. */
  method PutByte(chunk: array<byte>, index: nat, next: nat, b: byte)
    requires index < chunk.Length && next == index + 1
    modifies chunk
    ensures chunk[..next] == old(chunk[..index]) + [b]
  {
    chunk[index] := b;
  }

  function Filled(count: nat, v: byte): (s: seq<byte>)
    ensures |s| == count
  {
    seq(count, _ => v)
  }

  function Zeros(n: nat): (s: seq<byte>)
    ensures |s| == n
  {
    Filled(n, 0)
  }

  /** Overwriting a part in place. */
  function Over<T>(s: seq<T>, at: nat, piece: seq<T>): (t: seq<T>)
    requires at + |piece| <= |s|
    ensures |t| == |s|
  {
    s[..at] + piece + s[at + |piece|..]
  }

  function Min(a: nat, b: nat): nat {
    if a < b then a else b
  }

  /** The number of pixels of an image, counted row by row. */
  function Area(width: nat, height: nat): nat {
    if height == 0 then 0 else Area(width, height - 1) + width
  }

  lemma {:induction false} AreaIsProduct(width: nat, height: nat)
    ensures Area(width, height) == height * width
  {
    if height > 0 {
      AreaIsProduct(width, height - 1);
      assert height * width == (height - 1) * width + width;
    }
  }

  lemma {:induction false} RowsInside(width: nat, rows: nat, height: nat)
    requires rows <= height
    ensures Area(width, rows) <= Area(width, height)
  {
    if rows < height {
      RowsInside(width, rows, height - 1);
    }
  }

  /** One more row is still inside. */
  lemma {:induction false} RowFits(width: nat, rows: nat, height: nat)
    requires rows < height
    ensures Area(width, rows + 1) == Area(width, rows) + width <= Area(width, height)
  {
    if rows + 1 < height {
      RowFits(width, rows, height - 1);
    }
  }

  lemma {:induction false} AreaAddHeight(width: nat, a: nat, b: nat, c: nat)
    requires c == a + b
    ensures Area(width, c) == Area(width, a) + Area(width, b)
  {
    if b > 0 {
      AreaAddHeight(width, a, b - 1, c - 1);
    }
  }

  lemma {:induction false} AreaAddWidth(a: nat, b: nat, c: nat, height: nat)
    requires c == a + b
    ensures Area(c, height) == Area(a, height) + Area(b, height)
  {
    if height > 0 {
      AreaAddWidth(a, b, c, height - 1);
    }
  }

  lemma {:induction false} AreaOfNothing(height: nat)
    ensures Area(0, height) == 0
  {
    if height > 0 {
      AreaOfNothing(height - 1);
    }
  }

  lemma {:induction false} AreaOfColumn(height: nat)
    ensures Area(1, height) == height
  {
    if height > 0 {
      AreaOfColumn(height - 1);
    }
  }
}
