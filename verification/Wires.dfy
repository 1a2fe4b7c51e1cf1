/**
 The connection under a framed stream, as the bytes written to it and not yet read, and Go's copy
 into a caller's buffer.
 */
module Wires {
  import opened Wrappers
  import opened Bytes
  import opened Framing

  // pool.RelayBufferSize
  const RELAY_BUFFER_SIZE := 20 * 1024

  // io.ReadFull: all n bytes, or an error and whatever there was is gone.
  datatype Taken = Full(data: seq<byte>, rest: seq<byte>) | Short(error: Failure)

  function Take(wire: seq<byte>, n: nat): (t: Taken)
    ensures t.Full? ==> |t.data| == n
  {
    if |wire| >= n then Full(wire[..n], wire[n..]) else Short(if wire == [] then Eof else UnexpectedEof)
  }

  lemma TakesFront(a: seq<byte>, b: seq<byte>)
    ensures Take(a + b, |a|) == Full(a, b)
  {
    Front(a, b);
  }

  class Wire {
    var data: seq<byte>

    constructor ()
      ensures data == []
    {
      data := [];
    }

    method Write(b: seq<byte>)
      modifies this
      ensures data == old(data) + b
    {
      data := data + b;
    }

    method ReadFull(n: nat) returns (t: Taken)
      modifies this
      ensures t == Take(old(data), n)
      ensures data == if t.Full? then t.rest else []
    {
      t := Take(data, n);
      data := if t.Full? then t.rest else [];
    }
  }

  lemma TwoParts(s: seq<byte>, a: seq<byte>, b: seq<byte>)
    requires |a| + |b| <= |s| && s[..|a|] == a && s[|a|..|a| + |b|] == b
    ensures s[..|a| + |b|] == a + b
  {
  }

  // copy(dst[at:], src), for as much as fits
  method CopyAt(dst: array<byte>, at: nat, src: seq<byte>) returns (n: nat)
    requires at <= dst.Length
    modifies dst
    ensures n == Min(dst.Length - at, |src|)
    ensures dst[at..at + n] == src[..n] && dst[..at] == old(dst[..at]) && dst[at + n..] == old(dst[at + n..])
  {
    n := 0;
    while n < dst.Length - at && n < |src|
      invariant n <= dst.Length - at && n <= |src|
      invariant forall k :: 0 <= k < dst.Length ==> dst[k] == if at <= k < at + n then src[k - at] else old(dst[k])
    {
      dst[at + n] := src[n];
      n := n + 1;
    }
    assert dst[at..at + n] == src[..n];
    assert dst[..at] == old(dst[..at]);
    assert dst[at + n..] == old(dst[at + n..]);
  }

  // binary.BigEndian.PutUint16(buf, v), and body behind it
  method PutBehind16(buf: array<byte>, v: uint16, body: seq<byte>)
    requires 2 + |body| <= buf.Length
    modifies buf
    ensures buf[..2 + |body|] == PutBE16(v) + body
    ensures buf[2 + |body|..] == old(buf[2 + |body|..])
  {
    hide PutBE16;
    var head := PutBE16(v);
    buf[0], buf[1] := head[0], head[1];
    assert buf[..2] == head;
    ghost var behind := buf[2 + |body|..];
    assert behind == old(buf[2 + |body|..]);
    var n := CopyAt(buf, 2, body);
    assert buf[..][..2] == buf[..2] && buf[..][2..2 + n] == buf[2..2 + n];
    TwoParts(buf[..], head, body);
  }
}
