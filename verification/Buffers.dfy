// bytes.Buffer: what has been written to it and not yet taken out.
module Buffers {
  import opened Bytes

  class Buffer {
    var data: seq<byte>

    constructor ()
      ensures data == []
    {
      data := [];
    }

    method Write(b: seq<byte>)
      modifies this
      ensures data == old(data) + b
    {
      data := data + b;
    }

    // Next: drops the first n bytes.
    method Next(n: nat)
      requires n <= |data|
      modifies this
      ensures data == old(data)[n..]
    {
      data := data[n..];
    }

    method Reset()
      modifies this
      ensures data == []
    {
      data := [];
    }
  }
}
