/** Turning the channels of a decoded block into those of the image, in place. */
module DdsNormals {
  import opened Bytes

  const PIXELS := 16

  /** The third component of a normal, from the other two. */
  type Normal = (byte, byte) -> byte

  /** From two channels to three, from the last pixel to the first, so that no channel is overwritten before it is read. */
  method ComputeNormalRG(rgba: array<byte>, z: Normal)
    requires rgba.Length == 4 * PIXELS
    modifies rgba
    ensures forall i :: 0 <= i < PIXELS ==>
      rgba[3 * i] == old(rgba[2 * i]) && rgba[3 * i + 1] == old(rgba[2 * i + 1])
      && rgba[3 * i + 2] == z(old(rgba[2 * i]), old(rgba[2 * i + 1]))
  {
    var n := PIXELS;
    while n > 0
      invariant 0 <= n <= PIXELS
      invariant forall k :: 0 <= k < 2 * n ==> rgba[k] == old(rgba[k])
      invariant forall i :: n <= i < PIXELS ==>
        rgba[3 * i] == old(rgba[2 * i]) && rgba[3 * i + 1] == old(rgba[2 * i + 1])
        && rgba[3 * i + 2] == z(old(rgba[2 * i]), old(rgba[2 * i + 1]))
    {
      n := n - 1;
      var x, y := rgba[2 * n], rgba[2 * n + 1];
      rgba[3 * n] := x;
      rgba[3 * n + 1] := y;
      rgba[3 * n + 2] := z(x, y);
    }
  }

  /** From four channels to three, from the first pixel to the last. */
  method ComputeNormalAG(rgba: array<byte>, z: Normal)
    requires rgba.Length == 4 * PIXELS
    modifies rgba
    ensures forall i :: 0 <= i < PIXELS ==>
      rgba[3 * i] == old(rgba[4 * i + 3]) && rgba[3 * i + 1] == old(rgba[4 * i + 1])
      && rgba[3 * i + 2] == z(old(rgba[4 * i + 3]), old(rgba[4 * i + 1]))
  {
    var n := 0;
    while n < PIXELS
      invariant 0 <= n <= PIXELS
      invariant forall k :: 4 * n <= k < 4 * PIXELS ==> rgba[k] == old(rgba[k])
      invariant forall i :: 0 <= i < n ==>
        rgba[3 * i] == old(rgba[4 * i + 3]) && rgba[3 * i + 1] == old(rgba[4 * i + 1])
        && rgba[3 * i + 2] == z(old(rgba[4 * i + 3]), old(rgba[4 * i + 1]))
    {
      var x, y := rgba[4 * n + 3], rgba[4 * n + 1];
      rgba[3 * n] := x;
      rgba[3 * n + 1] := y;
      rgba[3 * n + 2] := z(x, y);
      n := n + 1;
    }
  }
}
