/**
 VMess chunks without encryption: a two-byte length and the payload.
 */
module VmessChunk {
  import opened Wrappers
  import opened Bytes
  import F = Framing
  import opened Wires

  const LEN_SIZE := 2
  const CHUNK_SIZE := 16384
  const MAX_SIZE := 17 * 1024

  predicate Fits(chunk: seq<byte>) {
    0 < |chunk| <= CHUNK_SIZE
  }

  function Frame(chunk: seq<byte>): seq<byte> {
    PutBE16(|chunk| % 0x1_0000) + chunk
  }

  function Unframe(wire: seq<byte>): F.Unframed<()> {
    match Take(wire, LEN_SIZE)
    case Short(e) => F.Unframed((), [], F.Fail(e))
    case Full(head, rest) =>
      var size: nat := GetBE16(head);
      if size > MAX_SIZE then F.Unframed((), rest, F.Fail(F.TooLarge))
      else
        match Take(rest, size)
        case Short(e) => F.Unframed((), [], F.Fail(e))
        case Full(data, rest') => F.Unframed((), rest', F.Got(data))
  }

  function Codec(): F.Codec<()> {
    F.Codec((s: (), chunk) => ((), Frame(chunk)), (s: (), wire) => Unframe(wire), data => Cut(data, CHUNK_SIZE),
      chunk => Fits(chunk))
  }

  lemma FrameParts(chunk: seq<byte>)
    requires Fits(chunk)
    ensures Frame(chunk) == PutBE16(|chunk|) + chunk
  {
    hide PutBE16;
    assert |chunk| % 0x1_0000 == |chunk|;
  }

  lemma UnframeFrame(chunk: seq<byte>, rest: seq<byte>)
    requires Fits(chunk)
    ensures Unframe(Frame(chunk) + rest) == F.Unframed((), rest, F.Got(chunk))
    ensures |Frame(chunk)| <= RELAY_BUFFER_SIZE && |chunk| <= MAX_SIZE
  {
    hide PutBE16, GetBE16, Take, Frame;
    var head := PutBE16(|chunk|);
    RoundTrip16(|chunk|);
    FrameParts(chunk);
    Regrouped(head, chunk, rest);
    TakesFront(head, chunk + rest);
    TakesFront(chunk, rest);
  }

  lemma CodecIsLawful()
    ensures F.Lawful(Codec())
  {
    var c := Codec();
    forall s: ()
      ensures c.unframe(s, []) == F.Unframed(s, [], F.Fail(F.Eof))
    {
      assert s == ();
    }
    forall s: (), chunk, rest | c.fits(chunk)
      ensures c.unframe(s, c.frame(s, chunk).1 + rest) == F.Unframed(c.frame(s, chunk).0, rest, F.Received(chunk))
    {
      UnframeFrame(chunk, rest);
    }
    forall data
      ensures Concat(Cut(data, CHUNK_SIZE)) == data
      ensures forall i :: 0 <= i < |Cut(data, CHUNK_SIZE)| ==> Fits(Cut(data, CHUNK_SIZE)[i])
    {
      CutKeepsAll(data, CHUNK_SIZE);
    }
  }

  // What a write puts on the wire: of every piece of up to 16384 bytes the length, high byte first, and
  // the piece.
  function Layout(p: seq<byte>): seq<byte> {
    if p == [] then []
    else
      var r := Min(|p|, 16384);
      ([r / 0x100, r % 0x100] + p[..r]) + Layout(p[r..])
  }

  lemma {:induction false} WriteLayout(p: seq<byte>)
    ensures F.FrameAll(Codec(), (), Cut(p, CHUNK_SIZE)).1 == Layout(p)
    decreases |p|
  {
    hide F.FrameAll, Cut;
    if p == [] {
      F.FrameNone(Codec(), (), CHUNK_SIZE);
    } else {
      var r := Min(|p|, CHUNK_SIZE);
      F.FrameNext(Codec(), (), p, CHUNK_SIZE);
      assert Frame(p[..r]) == [r / 0x100, r % 0x100] + p[..r] by { assert r % 0x1_0000 == r; }
      WriteLayout(p[r..]);
    }
  }

  // Reading a chunk, on any bytes
  lemma ReadsExactly(wire: seq<byte>)
    ensures var u := Unframe(wire);
            if |wire| < 2 then u == F.Unframed((), [], F.Fail(if wire == [] then F.Eof else F.UnexpectedEof))
            else
              var size, rest := 0x100 * wire[0] as int + wire[1] as int, wire[2..];
              if size > 17 * 1024 then u == F.Unframed((), rest, F.Fail(F.TooLarge))
              else if |rest| < size then u == F.Unframed((), [], F.Fail(if rest == [] then F.Eof else F.UnexpectedEof))
              else u == F.Unframed((), rest[size..], F.Got(rest[..size]))
  {
  }

  // chunkReader after chunkWriter: the identity on the byte stream, under any write and read sizes.
  lemma StreamRoundTrip(ops: seq<F.Op>)
    ensures var c, l := Codec(), F.Link((), [], F.Reader((), []));
            var m := F.Run(c, l, ops);
            F.AllDelivered(c, l, ops) <= F.AllWritten(ops)
            && (m.wire == [] && m.reader.left == [] ==> F.AllDelivered(c, l, ops) == F.AllWritten(ops))
  {
    hide *;
    CodecIsLawful();
    F.StreamIsIdentity(Codec(), (), ops);
  }

  class ChunkWriter {
    const conn: Wire

    constructor (conn: Wire)
      ensures this.conn == conn
    {
      this.conn := conn;
    }

    method Write(b: seq<byte>) returns (n: nat)
      modifies conn
      ensures n == |b| && conn.data == old(conn.data) + F.FrameAll(Codec(), (), Codec().cut(b)).1
      ensures conn.data == old(conn.data) + Layout(b)
    {
      hide F.FrameAll, Cut, Frame, Layout;
      WriteLayout(b);
      ghost var c := Codec();
      ghost var total := conn.data + F.FrameAll(c, (), Cut(b, CHUNK_SIZE)).1;
      var buf := new byte[RELAY_BUFFER_SIZE](_ => 0);
      n := 0;
      var length := |b|;
      assert b[0..] == b;
      while length != 0
        invariant 0 <= n <= |b| && n + length == |b|
        invariant conn.data + F.FrameAll(c, (), Cut(b[n..], CHUNK_SIZE)).1 == total
        decreases length
      {
        var readLen := Min(length, CHUNK_SIZE);
        F.WriteNext(c, (), b[n..], CHUNK_SIZE, conn.data, total);
        assert b[n..][..readLen] == b[n..n + readLen] && b[n..][readLen..] == b[n + readLen..];
        WriteChunk(buf, b[n..n + readLen]);
        n := n + readLen;
        length := length - readLen;
      }
      assert b[n..] == [];
      F.FrameNone(c, (), CHUNK_SIZE);
    }

    // The body of the loop: length and payload.
    method WriteChunk(buf: array<byte>, payload: seq<byte>)
      requires buf.Length == RELAY_BUFFER_SIZE && Fits(payload)
      modifies conn, buf
      ensures conn.data == old(conn.data) + Frame(payload)
    {
      assert |payload| % 0x1_0000 == |payload|;
      hide PutBE16;
      PutBehind16(buf, |payload|, payload);
      conn.Write(buf[..LEN_SIZE + |payload|]);
    }
  }

  class ChunkReader {
    const conn: Wire
    var buf: Option<seq<byte>>
    var offset: nat

    // A leftover buffer always has something left.
    ghost predicate Valid()
      reads this
    {
      buf.Some? ==> offset < |buf.value|
    }

    ghost function State(): F.Reader<()>
      reads this
      requires Valid()
    {
      F.Reader((), if buf.Some? then buf.value[offset..] else [])
    }

    constructor (conn: Wire)
      ensures this.conn == conn && Valid() && State() == F.Reader((), [])
    {
      this.conn := conn;
      buf := None;
      offset := 0;
    }

    method Read(b: array<byte>) returns (r: F.Result)
      requires Valid()
      modifies this, conn, b
      ensures Valid()
      ensures F.ReadStep(State(), conn.data, r) == F.Read(Codec(), old(State()), old(conn.data), b.Length)
      ensures r.Got? ==> |r.data| <= b.Length && b[..|r.data|] == r.data
    {
      hide GetBE16, Take;
      if buf != None {
        r := ServeLeft(b);
        return;
      }
      var sizeBuf := conn.ReadFull(LEN_SIZE);
      if sizeBuf.Short? {
        return F.Fail(sizeBuf.error);
      }
      var size: nat := GetBE16(sizeBuf.data);
      if size > MAX_SIZE {
        return F.Fail(F.TooLarge);
      }
      var body := conn.ReadFull(size);
      if body.Short? {
        return F.Fail(body.error);
      }
      r := ServeNew(b, body.data);
    }

    // From what is left of the last chunk
    method ServeLeft(b: array<byte>) returns (r: F.Result)
      requires Valid() && buf.Some?
      modifies this`buf, this`offset, b
      ensures Valid()
      ensures var left := old(State()).left; var n := Min(b.Length, |left|);
              r == F.Got(left[..n]) && b[..n] == left[..n] && State() == F.Reader((), left[n..])
    {
      ghost var left := State().left;
      var n := CopyAt(b, 0, buf.value[offset..]);
      r := F.Got(buf.value[offset..][..n]);
      offset := offset + n;
      if offset == |buf.value| {
        buf := None;
      }
      assert b[..n] == b[0..n];
    }

    // From a new chunk; what there is no room for is left.
    method ServeNew(b: array<byte>, data: seq<byte>) returns (r: F.Result)
      requires buf == None
      modifies this`buf, this`offset, b
      ensures Valid()
      ensures var n := Min(b.Length, |data|);
              r == F.Got(data[..n]) && b[..n] == data[..n] && State() == F.Reader((), data[n..])
    {
      var n := CopyAt(b, 0, data);
      r := F.Got(data[..n]);
      if b.Length < |data| {
        offset := n;
        buf := Some(data);
      }
      assert b[..n] == b[0..n];
    }
  }
}
