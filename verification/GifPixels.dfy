/** The RGBA8 pixels of the GIF writer; each element stands for four bytes of a buffer. */
module GifPixels {
  import opened Bytes

  datatype Rgb = Rgb(r: byte, g: byte, b: byte)

  /** In a palettized image the alpha byte holds the palette index. */
  datatype Pixel = Pixel(r: byte, g: byte, b: byte, a: byte) {
    function Color(): Rgb {
      Rgb(r, g, b)
    }
  }

  function Colors(image: seq<Pixel>): (colors: seq<Rgb>)
    ensures |colors| == |image|
    ensures forall i :: 0 <= i < |image| ==> colors[i] == image[i].Color()
  {
    seq(|image|, i requires 0 <= i < |image| => image[i].Color())
  }

  function Alphas(image: seq<Pixel>): (indices: seq<byte>)
    ensures |indices| == |image|
    ensures forall i :: 0 <= i < |image| ==> indices[i] == image[i].a
  {
    seq(|image|, i requires 0 <= i < |image| => image[i].a)
  }

  /** The colors of the previous frame, when there is one. */
  function Shown(frame: array?<Pixel>): Option<seq<Rgb>>
    reads frame
  {
    if frame == null then None else Some(Colors(frame[..]))
  }
}
