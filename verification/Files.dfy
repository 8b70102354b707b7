/** A file that is written from front to back. */
module Files {
  import opened Bytes

  /** A file open for writing: fputc and fwrite append. */
  class Sink {
    var data: seq<byte>

    constructor ()
      ensures data == []
    {
      data := [];
    }

    method Put(b: byte)
      modifies this
      ensures data == old(data) + [b]
    {
      data := data + [b];
    }

    method Write(bytes: seq<byte>)
      modifies this
      ensures data == old(data) + bytes
    {
      data := data + bytes;
    }
  }
}
