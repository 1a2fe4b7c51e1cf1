/**
 VMess chunks with encryption: a clear two-byte length and the sealed payload, under a nonce made of
 a wrapping 16-bit counter and bytes 2 to 11 of the connection's iv.
 */
module VmessAead {
  import opened Wrappers
  import opened Bytes
  import opened Aeads
  import F = Framing
  import opened Wires
  import VmessChunk

  const LEN_SIZE := VmessChunk.LEN_SIZE
  const CHUNK_SIZE := VmessChunk.CHUNK_SIZE
  const MAX_SIZE := VmessChunk.MAX_SIZE

  // What both ends hold from the handshake.
  datatype Keys = Keys(aead: Aead, iv: seq<byte>) {
    ghost predicate Valid() {
      aead.Correct() && aead.nonceSize <= 32 && aead.overhead < CHUNK_SIZE && |iv| >= 12
    }

    predicate Sized() {
      aead.nonceSize <= 32 && aead.overhead < CHUNK_SIZE && |iv| >= 12
    }

    function Room(): nat {
      if aead.overhead < CHUNK_SIZE then CHUNK_SIZE - aead.overhead else 1
    }
  }

  function Nonce(k: Keys, count: uint16): seq<byte>
    requires k.Sized()
  {
    (PutBE16(count) + k.iv[2..12] + seq(20, _ => 0))[..k.aead.nonceSize]
  }

  function Next(count: uint16): uint16 {
    (count + 1) % 0x1_0000
  }

  predicate Fits(k: Keys, chunk: seq<byte>) {
    0 < |chunk| <= k.Room()
  }

  function Frame(k: Keys, count: uint16, chunk: seq<byte>): seq<byte>
    requires k.Sized()
  {
    PutBE16((|chunk| + k.aead.overhead) % 0x1_0000) + k.aead.seal(Nonce(k, count), chunk)
  }

  function Unframe(k: Keys, count: uint16, wire: seq<byte>): F.Unframed<uint16>
    requires k.Sized()
  {
    match Take(wire, LEN_SIZE)
    case Short(e) => F.Unframed(count, [], F.Fail(e))
    case Full(head, rest) =>
      var size: nat := GetBE16(head);
      if size > MAX_SIZE then F.Unframed(count, rest, F.Fail(F.TooLarge))
      else
        match Take(rest, size)
        case Short(e) => F.Unframed(count, [], F.Fail(e))
        case Full(body, rest') =>
          match k.aead.open(Nonce(k, count), body)
          case None => F.Unframed(Next(count), rest', F.Fail(F.OpenFailed))
          case Some(data) => F.Unframed(Next(count), rest', F.Got(data))
  }

  function Codec(k: Keys): F.Codec<uint16>
    requires k.Sized()
  {
    F.Codec((s: uint16, chunk) => (Next(s), Frame(k, s, chunk)), (s: uint16, wire) => Unframe(k, s, wire),
            data => Cut(data, k.Room()), chunk => Fits(k, chunk))
  }

  // What is read of a length and as many bytes
  lemma UnframeParts(k: Keys, count: uint16, size: uint16, body: seq<byte>, rest: seq<byte>)
    requires k.Sized() && |body| == size <= MAX_SIZE
    ensures Unframe(k, count, PutBE16(size) + (body + rest)) ==
            match k.aead.open(Nonce(k, count), body)
            case None => F.Unframed(Next(count), rest, F.Fail(F.OpenFailed))
            case Some(data) => F.Unframed(Next(count), rest, F.Got(data))
  {
    var head := PutBE16(size);
    RoundTrip16(size);
    hide PutBE16, GetBE16, Take, Nonce, Next, Keys.Sized;
    TakesFront(head, body + rest);
    TakesFront(body, rest);
  }

  lemma FrameParts(k: Keys, count: uint16, chunk: seq<byte>)
    requires k.Sized() && Fits(k, chunk)
    ensures var size := |chunk| + k.aead.overhead;
            size <= CHUNK_SIZE && Frame(k, count, chunk) == PutBE16(size) + k.aead.seal(Nonce(k, count), chunk)
  {
    hide Nonce, PutBE16;
    var size := |chunk| + k.aead.overhead;
    assert size % 0x1_0000 == size;
  }

  lemma UnframeFrame(k: Keys, count: uint16, chunk: seq<byte>, rest: seq<byte>)
    requires k.Valid() && Fits(k, chunk)
    ensures Unframe(k, count, Frame(k, count, chunk) + rest) == F.Unframed(Next(count), rest, F.Got(chunk))
    ensures |Frame(k, count, chunk)| <= RELAY_BUFFER_SIZE && |chunk| + k.aead.overhead <= MAX_SIZE
  {
    hide Nonce, Unframe, Frame, PutBE16, GetBE16, Next, Fits, Keys.Room, Aead.Correct;
    var size, nonce := |chunk| + k.aead.overhead, Nonce(k, count);
    var body := k.aead.seal(nonce, chunk);
    SealedOpens(k.aead, nonce, chunk);
    FrameParts(k, count, chunk);
    UnframeParts(k, count, size, body, rest);
    assert (PutBE16(size) + body) + rest == PutBE16(size) + (body + rest);
  }

  lemma CodecIsLawful(k: Keys)
    requires k.Valid()
    ensures F.Lawful(Codec(k))
  {
    var c := Codec(k);
    forall s: uint16, chunk, rest | c.fits(chunk)
      ensures c.unframe(s, c.frame(s, chunk).1 + rest) == F.Unframed(c.frame(s, chunk).0, rest, F.Received(chunk))
    {
      UnframeFrame(k, s, chunk, rest);
    }
    forall data
      ensures Concat(Cut(data, k.Room())) == data
      ensures forall i :: 0 <= i < |Cut(data, k.Room())| ==> Fits(k, Cut(data, k.Room())[i])
    {
      CutKeepsAll(data, k.Room());
    }
  }

  // ----- what is sealed under which nonce -----

  // The nonce of chunk number i: the low 16 bits of i, high byte first, bytes 2 to 11 of the iv, and zeros
  // if the cipher wants more.
  function NonceOf(k: Keys, i: nat): seq<byte>
    requires k.Sized()
  {
    seq(k.aead.nonceSize, j requires 0 <= j < k.aead.nonceSize =>
      if j == 0 then i / 0x100 % 0x100 else if j == 1 then i % 0x100 else if j < 12 then k.iv[j] else 0)
  }

  // Chunks closer than 2^16 have different nonces, and those 2^16 apart the same.
  lemma NoncesDiffer(k: Keys, i: nat, j: nat)
    requires k.Sized() && k.aead.nonceSize >= 2
    ensures NonceOf(k, i) == NonceOf(k, j) <==> i % 0x1_0000 == j % 0x1_0000
  {
    TwoBytes(i);
    TwoBytes(j);
    if NonceOf(k, i) == NonceOf(k, j) {
      assert NonceOf(k, i)[0] == NonceOf(k, j)[0] && NonceOf(k, i)[1] == NonceOf(k, j)[1];
    }
  }

  lemma TwoBytes(i: nat)
    ensures i % 0x1_0000 == i / 0x100 % 0x100 * 0x100 + i % 0x100
    ensures i % 0x1_0000 / 0x100 == i / 0x100 % 0x100 && i % 0x1_0000 % 0x100 == i % 0x100
  {
    var a: nat, b: nat := i / 0x100, i % 0x100;
    var c: nat, d: nat := a / 0x100, a % 0x100;
    assert i == a * 0x100 + b && a == c * 0x100 + d;
    LowBytes(c, d * 0x100 + b);
    Digit(d, b);
  }

  lemma LowBytes(c: nat, r: nat)
    requires r < 0x1_0000
    ensures (c * 0x1_0000 + r) % 0x1_0000 == r
  {
  }

  lemma NonceIsNonceOf(k: Keys, i: nat)
    requires k.Sized()
    ensures Nonce(k, i % 0x1_0000) == NonceOf(k, i)
  {
    TwoBytes(i);
    var n, m := Nonce(k, i % 0x1_0000), NonceOf(k, i);
    forall j | 0 <= j < k.aead.nonceSize
      ensures n[j] == m[j]
    {
    }
  }

  // What a write puts on the wire from chunk number i on: of every piece the length it has sealed, high
  // byte first, and the piece sealed.
  function Layout(k: Keys, i: nat, p: seq<byte>): seq<byte>
    requires k.Sized()
    decreases |p|
  {
    if p == [] then []
    else
      var r := Min(|p|, 16384 - k.aead.overhead);
      var n := r + k.aead.overhead;
      ([n / 0x100, n % 0x100] + k.aead.seal(NonceOf(k, i), p[..r])) + Layout(k, i + 1, p[r..])
  }

  // How many chunks that is
  function Count(k: Keys, p: seq<byte>): nat
    requires k.Sized()
  {
    if p == [] then 0 else 1 + Count(k, p[Min(|p|, 16384 - k.aead.overhead)..])
  }

  lemma NextCount(i: nat)
    ensures Next(i % 0x1_0000) == (i + 1) % 0x1_0000
  {
  }

  lemma ChunkLayout(k: Keys, i: nat, chunk: seq<byte>)
    requires k.Sized() && Fits(k, chunk)
    ensures var n := |chunk| + k.aead.overhead;
            Frame(k, i % 0x1_0000, chunk) == [n / 0x100, n % 0x100] + k.aead.seal(NonceOf(k, i), chunk)
  {
    NonceIsNonceOf(k, i);
    FrameParts(k, i % 0x1_0000, chunk);
    hide Nonce, NonceOf, Frame;
  }

  lemma {:induction false} WriteLayout(k: Keys, i: nat, p: seq<byte>)
    requires k.Sized()
    ensures F.FrameAll(Codec(k), i % 0x1_0000, Cut(p, k.Room())) == ((i + Count(k, p)) % 0x1_0000, Layout(k, i, p))
    decreases |p|
  {
    hide F.FrameAll, Cut, Frame, Next, NonceOf;
    if p == [] {
      F.FrameNone(Codec(k), i % 0x1_0000, k.Room());
    } else {
      var r := Min(|p|, k.Room());
      F.FrameNext(Codec(k), i % 0x1_0000, p, k.Room());
      ChunkLayout(k, i, p[..r]);
      NextCount(i);
      WriteLayout(k, i + 1, p[r..]);
    }
  }

  // Reading a chunk, on any bytes: length and sealed piece; after a failure the counter has moved if a piece was
  // there to be opened.
  lemma ReadsExactly(k: Keys, i: nat, wire: seq<byte>)
    requires k.Sized()
    ensures var u := Unframe(k, i % 0x1_0000, wire);
            if |wire| < 2 then
              u == F.Unframed(i % 0x1_0000, [], F.Fail(if wire == [] then F.Eof else F.UnexpectedEof))
            else
              var size, rest := 0x100 * wire[0] as int + wire[1] as int, wire[2..];
              if size > 17 * 1024 then u == F.Unframed(i % 0x1_0000, rest, F.Fail(F.TooLarge))
              else if |rest| < size then
                u == F.Unframed(i % 0x1_0000, [], F.Fail(if rest == [] then F.Eof else F.UnexpectedEof))
              else
                var data := k.aead.open(NonceOf(k, i), rest[..size]);
                u == F.Unframed((i + 1) % 0x1_0000, rest[size..],
                                if data == None then F.Fail(F.OpenFailed) else F.Got(data.value))
  {
    NonceIsNonceOf(k, i);
    NextCount(i);
    hide Nonce, NonceOf, Next;
  }

  function AllLayout(k: Keys, i: nat, ps: seq<seq<byte>>): seq<byte>
    requires k.Sized()
    decreases |ps|
  {
    if ps == [] then [] else Layout(k, i, ps[0]) + AllLayout(k, i + Count(k, ps[0]), ps[1..])
  }

  lemma OneWrite(k: Keys, i: nat, l: F.Link<uint16>, p: seq<byte>)
    requires k.Sized() && l.writer == i % 0x1_0000
    ensures F.Step(Codec(k), l, F.OpWrite(p))
            == F.Link((i + Count(k, p)) % 0x1_0000, l.wire + Layout(k, i, p), l.reader)
  {
    hide F.FrameAll, Cut, Count, Layout;
    WriteLayout(k, i, p);
  }

  lemma NoWrites(k: Keys, i: nat, l: F.Link<uint16>)
    requires k.Sized()
    ensures F.Run(Codec(k), l, F.Writes([])) == l && AllLayout(k, i, []) == [] && l.wire + [] == l.wire
  {
  }

  lemma FirstLayout(k: Keys, i: nat, ps: seq<seq<byte>>)
    requires k.Sized() && ps != []
    ensures AllLayout(k, i, ps) == Layout(k, i, ps[0]) + AllLayout(k, i + Count(k, ps[0]), ps[1..])
  {
  }

  // What any writes put on the wire, the chunks numbered throughout; their nonces are as above.
  lemma {:induction false} WiresLayout(k: Keys, i: nat, l: F.Link<uint16>, ps: seq<seq<byte>>)
    requires k.Sized() && l.writer == i % 0x1_0000
    ensures F.Run(Codec(k), l, F.Writes(ps)).wire == l.wire + AllLayout(k, i, ps)
    decreases |ps|
  {
    hide *;
    if ps == [] {
      NoWrites(k, i, l);
    } else {
      var c, n := Codec(k), i + Count(k, ps[0]);
      var m := F.Step(c, l, F.OpWrite(ps[0]));
      F.FirstWrite(c, l, ps);
      OneWrite(k, i, l, ps[0]);
      FirstLayout(k, i, ps);
      WiresLayout(k, n, m, ps[1..]);
      Regrouped(l.wire, Layout(k, i, ps[0]), AllLayout(k, n, ps[1..]));
    }
  }

  // aeadReader after aeadWriter: the identity on the byte stream, under any write and read sizes, with
  // the two counters equal whenever nothing is in between.
  lemma StreamRoundTrip(k: Keys, ops: seq<F.Op>)
    requires k.Valid()
    ensures var c, l := Codec(k), F.Link(0, [], F.Reader(0, []));
            var m := F.Run(c, l, ops);
            F.AllDelivered(c, l, ops) <= F.AllWritten(ops)
            && (m.wire == [] ==> m.reader.s == m.writer)
            && (m.wire == [] && m.reader.left == [] ==> F.AllDelivered(c, l, ops) == F.AllWritten(ops))
  {
    assert k.Sized();
    hide *;
    CodecIsLawful(k);
    var start: uint16 := 0;
    F.StreamIsIdentity(Codec(k), start, ops);
  }

  lemma CutsAsCodec(k: Keys, b: seq<byte>)
    requires k.Sized()
    ensures Codec(k).cut(b) == Cut(b, k.Room())
  {
  }

  // One turn of the write loop.
  lemma NextChunk(k: Keys, count: uint16, b: seq<byte>, n: nat, sent: seq<byte>, total: seq<byte>)
    requires k.Sized() && n < |b| && sent + F.FrameAll(Codec(k), count, Cut(b[n..], k.Room())).1 == total
    ensures var r := Min(|b| - n, k.Room());
            var f := Frame(k, count, b[n..n + r]);
              var later := F.FrameAll(Codec(k), Next(count), Cut(b[n + r..], k.Room()));
            (sent + f) + later.1 == total && later.0 == F.FrameAll(Codec(k), count, Cut(b[n..], k.Room())).0
  {
    hide Frame, Next, F.FrameAll, Cut;
    var r := Min(|b| - n, k.Room());
    F.WriteNext(Codec(k), count, b[n..], k.Room(), sent, total);
    assert b[n..][..r] == b[n..n + r] && b[n..][r..] == b[n + r..];
  }

  class AeadWriter {
    const conn: Wire
    const keys: Keys
    const nonce: array<byte>
    var count: uint16

    ghost predicate Valid()
      reads this, nonce
    {
      keys.Valid() && Tail(nonce)
    }

    constructor (conn: Wire, keys: Keys)
      requires keys.Valid()
      ensures Valid() && fresh(nonce) && this.conn == conn && this.keys == keys && count == 0
    {
      this.conn := conn;
      this.keys := keys;
      nonce := new byte[32](_ => 0);
      count := 0;
    }

    method Write(b: seq<byte>) returns (n: nat)
      requires Valid()
      modifies this`count, nonce, conn
      ensures Valid() && n == |b|
      ensures var w := F.FrameAll(Codec(keys), old(count), Codec(keys).cut(b));
              count == w.0 && conn.data == old(conn.data) + w.1
      ensures count == (old(count) + Count(keys, b)) % 0x1_0000
              && conn.data == old(conn.data) + Layout(keys, old(count), b)
    {
      hide F.FrameAll, Cut, Nonce, Frame, Codec, Aead.Correct, Tail, Count, Layout;
      WriteLayout(keys, count, b);
      assert count % 0x1_0000 == count;
      CutsAsCodec(keys, b);
      ghost var c := Codec(keys);
      ghost var whole := F.FrameAll(c, count, Cut(b, keys.Room()));
      ghost var total := conn.data + whole.1;
      var buf := new byte[RELAY_BUFFER_SIZE](_ => 0);
      n := 0;
      var length := |b|;
      assert b[0..] == b;
      while length != 0
        invariant 0 <= n <= |b| && n + length == |b| && Valid()
        invariant F.FrameAll(c, count, Cut(b[n..], keys.Room())).0 == whole.0
        invariant conn.data + F.FrameAll(c, count, Cut(b[n..], keys.Room())).1 == total
        decreases length
      {
        var readLen := Min(length, CHUNK_SIZE - keys.aead.overhead);
        NextChunk(keys, count, b, n, conn.data, total);
        WriteChunk(buf, b[n..n + readLen]);
        n := n + readLen;
        length := length - readLen;
      }
      assert b[n..] == [];
      F.FrameNone(c, count, keys.Room());
    }

    // The body of the loop: length, nonce, sealed payload.
    method WriteChunk(buf: array<byte>, payload: seq<byte>)
      requires Valid() && buf != nonce && buf.Length == RELAY_BUFFER_SIZE && Fits(keys, payload)
      modifies this`count, nonce, conn, buf
      ensures Valid() && count == Next(old(count))
      ensures conn.data == old(conn.data) + Frame(keys, old(count), payload)
    {
      var tag := keys.aead.overhead;
      assert |payload| + tag == (|payload| + tag) % 0x1_0000;
      hide Nonce, PutBE16, Aead.Correct, Tail;
      FillNonce(nonce, keys, count);
      var sealed := keys.aead.seal(nonce[..keys.aead.nonceSize], payload);
      SealedOpens(keys.aead, nonce[..keys.aead.nonceSize], payload);
      PutBehind16(buf, |payload| + tag, sealed);
      assert buf[..LEN_SIZE + |payload| + tag] == Frame(keys, count, payload);
      count := Next(count);
      conn.Write(buf[..LEN_SIZE + |payload| + tag]);
    }
  }

  // The 32 bytes a nonce is made in: all but the first twelve stay zero.
  ghost predicate Tail(nonce: array<byte>)
    reads nonce
  {
    nonce.Length == 32 && forall i :: 12 <= i < 32 ==> nonce[i] == 0
  }

  lemma ZeroEnd(s: seq<byte>, front: seq<byte>, n: nat)
    requires |s| == 32 && |front| == 12 && n <= 32 && s[..12] == front && forall i :: 12 <= i < 32 ==> s[i] == 0
    ensures s[..n] == (front + seq(20, _ => 0))[..n]
  {
  }

  // The counter, then bytes 2 to 11 of the iv; the rest of the 32 bytes stays zero.
  method FillNonce(nonce: array<byte>, keys: Keys, count: uint16)
    requires keys.Sized() && Tail(nonce)
    modifies nonce
    ensures nonce.Length == 32 && nonce[..keys.aead.nonceSize] == Nonce(keys, count) && Tail(nonce)
  {
    hide PutBE16;
    var mid := keys.iv[2..12];
    PutBehind16(nonce, count, mid);
    assert forall i :: 12 <= i < 32 ==> nonce[i] == nonce[12..][i - 12] == old(nonce[i]);
    ZeroEnd(nonce[..], PutBE16(count) + mid, keys.aead.nonceSize);
  }

  class AeadReader {
    const conn: Wire
    const keys: Keys
    const nonce: array<byte>
    var count: uint16
    var buf: Option<seq<byte>>
    var offset: nat

    // A leftover buffer always has something left.
    ghost predicate Valid()
      reads this, nonce
    {
      && keys.Valid() && Tail(nonce)
      && (buf.Some? ==> offset < |buf.value|)
    }

    ghost function State(): F.Reader<uint16>
      reads this, nonce
      requires Valid()
    {
      F.Reader(count, if buf.Some? then buf.value[offset..] else [])
    }

    constructor (conn: Wire, keys: Keys)
      requires keys.Valid()
      ensures Valid() && fresh(nonce) && this.conn == conn && this.keys == keys && State() == F.Reader(0, [])
    {
      this.conn := conn;
      this.keys := keys;
      nonce := new byte[32](_ => 0);
      count := 0;
      buf := None;
      offset := 0;
    }

    method Read(b: array<byte>) returns (r: F.Result)
      requires Valid() && b != nonce
      modifies this`count, this`buf, this`offset, nonce, conn, b
      ensures Valid()
      ensures F.ReadStep(State(), conn.data, r) == F.Read(Codec(keys), old(State()), old(conn.data), b.Length)
      ensures r.Got? ==> |r.data| <= b.Length && b[..|r.data|] == r.data
    {
      assert keys.Sized();
      hide Unframe, Nonce, Frame, Next, Keys.Valid, Keys.Sized, Fits, Cut, Tail;
      if buf != None {
        r := ServeLeft(b);
        return;
      }
      var got := ReadChunk();
      if got.Fail? {
        return got;
      }
      r := ServeNew(b, got.data);
    }

    // From what is left of the last chunk
    method ServeLeft(b: array<byte>) returns (r: F.Result)
      requires Valid() && b != nonce && buf.Some?
      modifies this`buf, this`offset, b
      ensures Valid()
      ensures var left := old(State()).left; var n := Min(b.Length, |left|);
              r == F.Got(left[..n]) && b[..n] == left[..n] && State() == F.Reader(count, left[n..])
    {
      hide Keys.Valid, Tail;
      ghost var left := State().left;
      var n := CopyAt(b, 0, buf.value[offset..]);
      r := F.Got(buf.value[offset..][..n]);
      offset := offset + n;
      if offset == |buf.value| {
        buf := None;
      }
      assert b[..n] == b[0..n];
    }

    // From a new chunk; what there is no room for is left.
    method ServeNew(b: array<byte>, data: seq<byte>) returns (r: F.Result)
      requires Valid() && b != nonce && buf == None
      modifies this`buf, this`offset, b
      ensures Valid()
      ensures var n := Min(b.Length, |data|);
              r == F.Got(data[..n]) && b[..n] == data[..n] && State() == F.Reader(count, data[n..])
    {
      hide Keys.Valid, Tail;
      var n := CopyAt(b, 0, data);
      r := F.Got(data[..n]);
      if b.Length < |data| {
        offset := n;
        buf := Some(data);
      }
      assert b[..n] == b[0..n];
    }

    // Takes one chunk off the wire and opens it.
    method ReadChunk() returns (r: F.Result)
      requires Valid()
      modifies this`count, nonce, conn
      ensures Valid() && F.Unframed(count, conn.data, r) == Unframe(keys, old(count), old(conn.data))
    {
      hide Nonce, Next, GetBE16, Take, Aead.Correct, Tail;
      var sizeBuf := conn.ReadFull(LEN_SIZE);
      if sizeBuf.Short? {
        return F.Fail(sizeBuf.error);
      }
      var size: nat := GetBE16(sizeBuf.data);
      if size > MAX_SIZE {
        return F.Fail(F.TooLarge);
      }
      var body := conn.ReadFull(size);
      if body.Short? {
        return F.Fail(body.error);
      }
      FillNonce(nonce, keys, count);
      var plain := keys.aead.open(nonce[..keys.aead.nonceSize], body.data);
      count := Next(count);
      if plain == None {
        return F.Fail(F.OpenFailed);
      }
      r := F.Got(plain.value);
    }
  }
}
