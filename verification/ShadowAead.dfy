/**
 The shadowsocks AEAD stream: a sealed two-byte length, then the sealed payload, each under its own
 nonce; the nonce is a little-endian counter incremented in place.
 */
module ShadowAead {
  import opened Wrappers
  import opened Bytes
  import opened Aeads
  import F = Framing
  import opened Wires

  // payloadSizeMask
  const MASK := 0x3FFF
  const BUF_SIZE := 17 * 1024

  ghost predicate Usable(a: Aead) {
    a.Correct() && a.nonceSize <= 32 && 2 + a.overhead + MASK + a.overhead <= BUF_SIZE
  }

  // ----- the nonce -----

  function Inc(b: seq<byte>): (r: seq<byte>)
    ensures |r| == |b|
  {
    if b == [] then []
    else if b[0] == 255 then [0] + Inc(b[1..])
    else [b[0] + 1] + b[1..]
  }

  function Value(b: seq<byte>): nat {
    if b == [] then 0 else b[0] + 0x100 * Value(b[1..])
  }

  function Span(n: nat): (r: nat)
    ensures r >= 1
  {
    if n == 0 then 1 else 0x100 * Span(n - 1)
  }

  lemma {:induction false} ValueBelowSpan(b: seq<byte>)
    ensures Value(b) < Span(|b|)
  {
    if b != [] {
      ValueBelowSpan(b[1..]);
    }
  }

  // One more, round the end of the range.
  lemma {:induction false} IncAddsOne(b: seq<byte>)
    ensures Value(Inc(b)) == if Value(b) + 1 == Span(|b|) then 0 else Value(b) + 1
  {
    if b != [] {
      var t := b[1..];
      IncAddsOne(t);
      ValueBelowSpan(t);
      if b[0] == 255 {
        assert Inc(b)[1..] == Inc(t);
      } else {
        assert Inc(b)[1..] == t;
      }
    }
  }

  function IncBy(b: seq<byte>, k: nat): (r: seq<byte>)
    ensures |r| == |b|
    decreases k
  {
    if k == 0 then b else IncBy(Inc(b), k - 1)
  }

  lemma {:induction false} IncByAdds(b: seq<byte>, k: nat)
    requires k < Span(|b|)
    ensures Value(IncBy(b, k)) == if Value(b) + k < Span(|b|) then Value(b) + k else Value(b) + k - Span(|b|)
    decreases k
  {
    ValueBelowSpan(b);
    if k > 0 {
      IncAddsOne(b);
      IncByAdds(Inc(b), k - 1);
    }
  }

  lemma {:induction false} IncBySum(b: seq<byte>, i: nat, j: nat)
    ensures IncBy(b, i + j) == IncBy(IncBy(b, i), j)
    decreases i
  {
    if i > 0 {
      IncBySum(Inc(b), i - 1, j);
    }
  }

  // Within 256^n seals no nonce of n bytes comes twice.
  lemma NoncesDiffer(b: seq<byte>, i: nat, j: nat)
    requires i < j < i + Span(|b|)
    ensures IncBy(b, i) != IncBy(b, j)
  {
    IncBySum(b, i, j - i);
    IncByAdds(IncBy(b, i), j - i);
    ValueBelowSpan(IncBy(b, i));
  }

  // A run of 255s turns into zeros and carries.
  lemma {:induction false} IncCarries(b: seq<byte>, i: nat)
    requires i <= |b| && forall k :: 0 <= k < i ==> b[k] == 255
    ensures forall k :: 0 <= k < i ==> Inc(b)[k] == 0
    ensures Inc(b)[i..] == Inc(b[i..])
  {
    if i > 0 {
      IncCarries(b[1..], i - 1);
      assert b[1..][i - 1..] == b[i..] && Inc(b)[i..] == Inc(b[1..])[i - 1..];
    } else {
      assert b[0..] == b;
    }
  }

  // ... up to the first byte below 255, which takes it; the bytes after that stay.
  lemma IncEnds(b: seq<byte>, i: nat)
    requires i < |b| && (forall k :: 0 <= k < i ==> b[k] == 255) && b[i] < 255
    ensures forall k :: 0 <= k < |b| ==> Inc(b)[k] == if k < i then 0 else if k == i then b[i] + 1 else b[k]
  {
    IncCarries(b, i);
    assert Inc(b[i..]) == [b[i] + 1] + b[i..][1..];
    hide Inc;
    forall k | i <= k < |b|
      ensures Inc(b)[k] == if k == i then b[i] + 1 else b[k]
    {
      assert Inc(b)[k] == Inc(b)[i..][k - i];
    }
  }

  // increment: in place, the first n bytes of the nonce buffer
  method Increment(b: array<byte>, n: nat)
    requires n <= b.Length
    modifies b
    ensures b[..n] == Inc(old(b[..n])) && b[n..] == old(b[n..])
  {
    hide Inc;
    ghost var was := b[..n];
    for i := 0 to n
      invariant forall k :: 0 <= k < i ==> was[k] == 255 && b[k] == 0
      invariant forall k :: i <= k < n ==> b[k] == was[k]
      invariant b[n..] == old(b[n..])
    {
      b[i] := (b[i] as int + 1) % 0x100;
      if b[i] != 0 {
        IncEnds(was, i);
        assert b[..n] == Inc(was);
        return;
      }
    }
    IncCarries(was, n);
  }

  // ----- records -----

  predicate Fits(chunk: seq<byte>) {
    |chunk| <= MASK
  }

  // An empty payload is a length record alone.
  function Frame(a: Aead, nonce: seq<byte>, chunk: seq<byte>): (seq<byte>, seq<byte>) {
    var head := a.seal(nonce, PutBE16(|chunk| % 0x1_0000));
    if chunk == [] then (Inc(nonce), head)
    else (Inc(Inc(nonce)), head + a.seal(Inc(nonce), chunk))
  }

  function Seals(chunk: seq<byte>): nat {
    if chunk == [] then 1 else 2
  }

  // Reader.read, on whatever is on the wire.
  function Unframe(a: Aead, nonce: seq<byte>, wire: seq<byte>): F.Unframed<seq<byte>> {
    match Take(wire, 2 + a.overhead)
    case Short(e) => F.Unframed(nonce, [], F.Fail(e))
    case Full(sealed, rest) =>
      var head := a.open(nonce, sealed);
      if head == None || |head.value| != 2 then F.Unframed(Inc(nonce), rest, F.Fail(F.OpenFailed))
      else
        var size := GetBE16(head.value) % (MASK + 1);
        if size == 0 then F.Unframed(Inc(nonce), rest, F.Fail(F.ZeroChunk))
        else
          match Take(rest, size + a.overhead)
          case Short(e) => F.Unframed(Inc(nonce), [], F.Fail(e))
          case Full(body, rest') =>
            match a.open(Inc(nonce), body)
            case None => F.Unframed(Inc(Inc(nonce)), rest', F.Fail(F.OpenFailed))
            case Some(data) => F.Unframed(Inc(Inc(nonce)), rest', F.Got(data))
  }

  // An empty write is one empty chunk.
  function Chunks(data: seq<byte>): seq<seq<byte>> {
    if data == [] then [[]] else Cut(data, MASK)
  }

  function Codec(a: Aead): F.Codec<seq<byte>> {
    F.Codec((s: seq<byte>, chunk) => Frame(a, s, chunk), (s: seq<byte>, wire) => Unframe(a, s, wire),
            data => Chunks(data), chunk => Fits(chunk))
  }

  lemma UnframeFrame(a: Aead, nonce: seq<byte>, chunk: seq<byte>, rest: seq<byte>)
    requires Usable(a) && Fits(chunk)
    ensures Unframe(a, nonce, Frame(a, nonce, chunk).1 + rest)
            == F.Unframed(Frame(a, nonce, chunk).0, rest, F.Received(chunk))
    ensures |Frame(a, nonce, chunk).1| <= BUF_SIZE
  {
    hide Inc, PutBE16, GetBE16, Take;
    RoundTrip16(|chunk|);
    var head := a.seal(nonce, PutBE16(|chunk|));
    var body := if chunk == [] then [] else a.seal(Inc(nonce), chunk);
    assert Frame(a, nonce, chunk).1 + rest == head + (body + rest);
    TakesFront(head, body + rest);
    TakesFront(body, rest);
  }

  lemma ChunksKeepAll(data: seq<byte>)
    ensures Concat(Chunks(data)) == data
    ensures forall i :: 0 <= i < |Chunks(data)| ==> Fits(Chunks(data)[i]) && (data != [] ==> Chunks(data)[i] != [])
  {
    CutKeepsAll(data, MASK);
    assert Chunks([])[1..] == [];
  }

  lemma CodecIsLawful(a: Aead)
    requires Usable(a)
    ensures F.Lawful(Codec(a))
  {
    var c := Codec(a);
    forall s: seq<byte>, chunk, rest | c.fits(chunk)
      ensures c.unframe(s, c.frame(s, chunk).1 + rest) == F.Unframed(c.frame(s, chunk).0, rest, F.Received(chunk))
    {
      UnframeFrame(a, s, chunk, rest);
    }
    forall data
      ensures Concat(Chunks(data)) == data
      ensures forall i :: 0 <= i < |Chunks(data)| ==> Fits(Chunks(data)[i])
    {
      ChunksKeepAll(data);
    }
  }

  // For any sequence of writes and of read sizes: the bytes read are a prefix of the bytes written,
  // and the nonces agree whenever nothing is in between.
  lemma StreamRoundTrip(a: Aead, nonce: seq<byte>, ops: seq<F.Op>)
    requires Usable(a)
    ensures var c, l := Codec(a), F.Link(nonce, [], F.Reader(nonce, []));
            var m := F.Run(c, l, ops);
            F.AllDelivered(c, l, ops) <= F.AllWritten(ops)
            && (m.wire == [] ==> m.reader.s == m.writer)
            && (m.wire == [] && m.reader.left == [] ==> F.AllDelivered(c, l, ops) == F.AllWritten(ops))
  {
    hide *;
    CodecIsLawful(a);
    F.StreamIsIdentity(Codec(a), nonce, ops);
  }

  // How far the nonce gets: two increments for every record, one for an empty write.
  function SealsOf(chunks: seq<seq<byte>>): nat {
    if chunks == [] then 0 else Seals(chunks[0]) + SealsOf(chunks[1..])
  }

  lemma {:induction false} NonceCountsSeals(a: Aead, nonce: seq<byte>, chunks: seq<seq<byte>>)
    ensures F.FrameAll(Codec(a), nonce, chunks).0 == IncBy(nonce, SealsOf(chunks))
    decreases |chunks|
  {
    if chunks != [] {
      var next := Frame(a, nonce, chunks[0]).0;
      NonceCountsSeals(a, next, chunks[1..]);
      IncBySum(nonce, Seals(chunks[0]), SealsOf(chunks[1..]));
      assert IncBy(nonce, 1) == IncBy(Inc(nonce), 0) == Inc(nonce);
      assert IncBy(nonce, 2) == IncBy(Inc(nonce), 1) == IncBy(Inc(Inc(nonce)), 0) == Inc(Inc(nonce));
    }
  }

  // ----- what is sealed under which nonce -----

  // The messages of a write: of every piece of up to 16383 bytes the length, high byte first, and the
  // piece; of an empty write the length zero.
  function Messages(p: seq<byte>): seq<seq<byte>> {
    if p == [] then [[0, 0]] else Pieces(p)
  }

  function Pieces(p: seq<byte>): seq<seq<byte>>
    requires p != []
  {
    if |p| <= 16383 then [[|p| / 0x100, |p| % 0x100], p] else [[0x3f, 0xff], p[..16383]] + Pieces(p[16383..])
  }

  function AllMessages(ps: seq<seq<byte>>): seq<seq<byte>> {
    if ps == [] then [] else Messages(ps[0]) + AllMessages(ps[1..])
  }

  // Messages sealed one after the other, each under the next nonce, the first under the i-th after start.
  function Sealed(a: Aead, start: seq<byte>, i: nat, ms: seq<seq<byte>>): seq<byte>
    decreases |ms|
  {
    if ms == [] then [] else a.seal(IncBy(start, i), ms[0]) + Sealed(a, start, i + 1, ms[1..])
  }

  lemma IncByNext(b: seq<byte>, i: nat)
    ensures IncBy(b, i + 1) == Inc(IncBy(b, i))
  {
    IncBySum(b, i, 1);
    assert IncBy(IncBy(b, i), 1) == IncBy(Inc(IncBy(b, i)), 0);
  }

  lemma {:induction false} SealedAppend(a: Aead, start: seq<byte>, i: nat, ms: seq<seq<byte>>, ns: seq<seq<byte>>)
    ensures Sealed(a, start, i, ms + ns) == Sealed(a, start, i, ms) + Sealed(a, start, i + |ms|, ns)
    decreases |ms|
  {
    if ms == [] {
      assert ms + ns == ns;
    } else {
      assert (ms + ns)[1..] == ms[1..] + ns;
      SealedAppend(a, start, i + 1, ms[1..], ns);
      var first, rest, last :=
        a.seal(IncBy(start, i), ms[0]), Sealed(a, start, i + 1, ms[1..]), Sealed(a, start, i + |ms|, ns);
      assert (first + rest) + last == first + (rest + last);
    }
  }

  lemma SealedTwo(a: Aead, start: seq<byte>, i: nat, m: seq<byte>, n: seq<byte>)
    ensures Sealed(a, start, i, [m, n]) == a.seal(IncBy(start, i), m) + a.seal(IncBy(start, i + 1), n)
  {
    assert [m, n][1..] == [n] && [n][1..] == [];
    assert Sealed(a, start, i + 1, [n]) == a.seal(IncBy(start, i + 1), n) + [];
  }

  // One record: a length and a piece, under two nonces
  lemma RecordIsSealed(a: Aead, start: seq<byte>, i: nat, chunk: seq<byte>)
    requires 0 < |chunk| <= 16383
    ensures Frame(a, IncBy(start, i), chunk)
            == (IncBy(start, i + 2), Sealed(a, start, i, [[|chunk| / 0x100, |chunk| % 0x100], chunk]))
  {
    IncByNext(start, i);
    IncByNext(start, i + 1);
    SealedTwo(a, start, i, [|chunk| / 0x100, |chunk| % 0x100], chunk);
    assert PutBE16(|chunk|) == [|chunk| / 0x100, |chunk| % 0x100];
    assert |chunk| % 0x1_0000 == |chunk|;
  }

  lemma {:induction false} PiecesAreSealed(a: Aead, start: seq<byte>, i: nat, p: seq<byte>)
    requires p != []
    ensures F.FrameAll(Codec(a), IncBy(start, i), Cut(p, MASK))
            == (IncBy(start, i + |Pieces(p)|), Sealed(a, start, i, Pieces(p)))
    decreases |p|
  {
    hide Frame, F.FrameAll, Sealed, IncBy, Inc, Cut;
    var r := Min(|p|, MASK);
    var c, s := Codec(a), IncBy(start, i);
    F.FrameNext(c, s, p, MASK);
    RecordIsSealed(a, start, i, p[..r]);
    if |p| <= MASK {
      assert p[..r] == p && p[r..] == [];
      F.FrameNone(c, IncBy(start, i + 2), MASK);
      assert Pieces(p) == [[|p| / 0x100, |p| % 0x100], p];
      var sealed := Sealed(a, start, i, Pieces(p));
      assert F.FrameAll(c, s, Cut(p, MASK)) == (IncBy(start, i + 2), sealed + []);
      assert sealed + [] == sealed;
    } else {
      var head := [[0x3f, 0xff], p[..r]];
      assert head == [[|p[..r]| / 0x100, |p[..r]| % 0x100], p[..r]];
      PiecesAreSealed(a, start, i + 2, p[r..]);
      SealedAppend(a, start, i, head, Pieces(p[r..]));
      assert Pieces(p) == head + Pieces(p[r..]);
    }
  }

  lemma WriteIsSealed(a: Aead, start: seq<byte>, i: nat, p: seq<byte>)
    ensures F.FrameAll(Codec(a), IncBy(start, i), Chunks(p))
            == (IncBy(start, i + |Messages(p)|), Sealed(a, start, i, Messages(p)))
  {
    if p == [] {
      EmptyRecord(a, IncBy(start, i));
      IncByNext(start, i);
      assert PutBE16(0) == [0, 0];
      assert [[0, 0]][1..] == [];
      assert Sealed(a, start, i, [[0, 0]]) == a.seal(IncBy(start, i), [0, 0]) + [];
    } else {
      PiecesAreSealed(a, start, i, p);
    }
  }

  lemma OneWrite(a: Aead, start: seq<byte>, i: nat, l: F.Link<seq<byte>>, p: seq<byte>)
    requires l.writer == IncBy(start, i)
    ensures F.Step(Codec(a), l, F.OpWrite(p))
            == F.Link(IncBy(start, i + |Messages(p)|), l.wire + Sealed(a, start, i, Messages(p)), l.reader)
  {
    hide Frame, F.FrameAll, Sealed, IncBy, Messages, Chunks;
    WriteIsSealed(a, start, i, p);
  }

  lemma NoWrites(a: Aead, start: seq<byte>, i: nat, l: F.Link<seq<byte>>)
    ensures F.Run(Codec(a), l, F.Writes([])) == l && AllMessages([]) == [] && l.wire + Sealed(a, start, i, []) == l.wire
  {
  }

  lemma FirstMessages(ps: seq<seq<byte>>)
    requires ps != []
    ensures AllMessages(ps) == Messages(ps[0]) + AllMessages(ps[1..])
  {
  }

  lemma {:induction false} WritesAreSealed(a: Aead, start: seq<byte>, i: nat, l: F.Link<seq<byte>>, ps: seq<seq<byte>>)
    requires l.writer == IncBy(start, i)
    ensures var m := F.Run(Codec(a), l, F.Writes(ps));
            m.wire == l.wire + Sealed(a, start, i, AllMessages(ps)) && m.writer == IncBy(start, i + |AllMessages(ps)|)
    decreases |ps|
  {
    hide *;
    if ps == [] {
      NoWrites(a, start, i, l);
    } else {
      var c, ms, more := Codec(a), Messages(ps[0]), AllMessages(ps[1..]);
      FirstMessages(ps);
      var m := F.Step(c, l, F.OpWrite(ps[0]));
      F.FirstWrite(c, l, ps);
      OneWrite(a, start, i, l, ps[0]);
      WritesAreSealed(a, start, i + |ms|, m, ps[1..]);
      SealedAppend(a, start, i, ms, more);
      var first, later := Sealed(a, start, i, ms), Sealed(a, start, i + |ms|, more);
      Regrouped(l.wire, first, later);
    }
  }

  // Reading a record, on any bytes: a length and a piece opened under two nonces, the first the i-th after start.
  // After a failure the nonce has moved by the number of messages opened.
  lemma ReadsExactly(a: Aead, start: seq<byte>, i: nat, wire: seq<byte>)
    ensures var u, k := Unframe(a, IncBy(start, i), wire), 2 + a.overhead;
            if |wire| < k then
              u == F.Unframed(IncBy(start, i), [], F.Fail(if wire == [] then F.Eof else F.UnexpectedEof))
            else
              var head, rest := a.open(IncBy(start, i), wire[..k]), wire[k..];
              if head == None || |head.value| != 2 then u == F.Unframed(IncBy(start, i + 1), rest, F.Fail(F.OpenFailed))
              else
                var size := (0x100 * head.value[0] as int + head.value[1] as int) % 16384;
                if size == 0 then u == F.Unframed(IncBy(start, i + 1), rest, F.Fail(F.ZeroChunk))
                else if |rest| < size + a.overhead then
                  u == F.Unframed(IncBy(start, i + 1), [], F.Fail(if rest == [] then F.Eof else F.UnexpectedEof))
                else
                  var data := a.open(IncBy(start, i + 1), rest[..size + a.overhead]);
                  u == F.Unframed(IncBy(start, i + 2), rest[size + a.overhead..],
                                  if data == None then F.Fail(F.OpenFailed) else F.Got(data.value))
  {
    hide Inc, IncBy;
    IncByNext(start, i);
    IncByNext(start, i + 1);
  }

  // What any writes put on the wire is their messages in order, the i-th sealed under the starting nonce
  // plus i; and as long as they are no more than 256^n, no nonce of n bytes seals two of them.
  lemma WireIsSeals(a: Aead, start: seq<byte>, ps: seq<seq<byte>>)
    ensures F.Run(Codec(a), F.Link(start, [], F.Reader(start, [])), F.Writes(ps)).wire
            == Sealed(a, start, 0, AllMessages(ps))
    ensures |AllMessages(ps)| <= Span(|start|) ==>
            forall i, j :: 0 <= i < j < |AllMessages(ps)| ==> IncBy(start, i) != IncBy(start, j)
  {
    WritesAreSealed(a, start, 0, F.Link(start, [], F.Reader(start, [])), ps);
    if |AllMessages(ps)| <= Span(|start|) {
      forall i, j | 0 <= i < j < |AllMessages(ps)|
        ensures IncBy(start, i) != IncBy(start, j)
      {
        NoncesDiffer(start, i, j);
      }
    }
  }

  lemma EmptyRecord(a: Aead, nonce: seq<byte>)
    ensures F.FrameAll(Codec(a), nonce, Chunks([])) == Frame(a, nonce, [])
  {
    hide Frame;
    F.FrameOne(Codec(a), nonce, []);
  }

  // The records for nonempty data still to be written, and the nonce after them
  function Records(a: Aead, nonce: seq<byte>, data: seq<byte>): (seq<byte>, seq<byte>) {
    F.FrameAll(Codec(a), nonce, Cut(data, MASK))
  }

  // One turn of the write loop
  lemma NextRecord(a: Aead, nonce: seq<byte>, p: seq<byte>, n: nat, sent: seq<byte>, total: seq<byte>)
    requires n < |p| && sent + Records(a, nonce, p[n..]).1 == total
    ensures var nr := if n + MASK > |p| then |p| - n else MASK;
            var f := Frame(a, nonce, p[n..n + nr]); var later := Records(a, f.0, p[n + nr..]);
            (sent + f.1) + later.1 == total && later.0 == Records(a, nonce, p[n..]).0
  {
    hide Frame, F.FrameAll, Cut;
    var nr := if n + MASK > |p| then |p| - n else MASK;
    F.WriteNext(Codec(a), nonce, p[n..], MASK, sent, total);
    assert p[n..][..nr] == p[n..n + nr] && p[n..][nr..] == p[n + nr..];
  }

  lemma NoRecords(a: Aead, nonce: seq<byte>, p: seq<byte>)
    ensures Records(a, nonce, p[|p|..]) == (nonce, []) && p[0..] == p
  {
    F.FrameNone(Codec(a), nonce, MASK);
  }

  class Writer {
    const conn: Wire
    const aead: Aead
    const nonce: array<byte>

    ghost predicate Valid()
    {
      Usable(aead) && nonce.Length == 32
    }

    ghost function State(): seq<byte>
      reads nonce
      requires Valid()
    {
      nonce[..aead.nonceSize]
    }

    constructor (conn: Wire, aead: Aead)
      requires Usable(aead)
      ensures Valid() && fresh(nonce) && this.conn == conn && this.aead == aead
      ensures State() == seq(aead.nonceSize, _ => 0)
    {
      this.conn := conn;
      this.aead := aead;
      nonce := new byte[32](_ => 0);
      new;
      assert nonce[..aead.nonceSize] == seq(aead.nonceSize, _ => 0);
    }

    method Write(p: seq<byte>) returns (n: nat)
      requires Valid()
      modifies nonce, conn
      ensures n == |p|
      ensures var w := F.FrameAll(Codec(aead), old(State()), Chunks(p));
              State() == w.0 && conn.data == old(conn.data) + w.1
      ensures State() == IncBy(old(State()), |Messages(p)|)
      ensures conn.data == old(conn.data) + Sealed(aead, old(State()), 0, Messages(p))
    {
      hide Sealed, Messages, Frame, F.FrameAll, Inc;
      WriteIsSealed(aead, State(), 0, p);
      var buf := new byte[BUF_SIZE](_ => 0);
      n := |p|;
      // an empty write is a length of zero alone
      if |p| == 0 {
        EmptyRecord(aead, State());
        WriteEmpty(buf);
      } else {
        WriteRecords(buf, p);
      }
    }

    // The loop: up to 16383 bytes at a time
    method WriteRecords(buf: array<byte>, p: seq<byte>)
      requires Valid() && buf != nonce && buf.Length == BUF_SIZE
      modifies nonce, conn, buf
      ensures var w := Records(aead, old(State()), p); State() == w.0 && conn.data == old(conn.data) + w.1
    {
      hide Frame, Inc, Records, Usable;
      ghost var whole := Records(aead, State(), p);
      ghost var total := conn.data + whole.1;
      NoRecords(aead, State(), p);
      var n := 0;
      while n < |p|
        invariant 0 <= n <= |p| && Valid()
        invariant Records(aead, State(), p[n..]).0 == whole.0 && conn.data + Records(aead, State(), p[n..]).1 == total
      {
        var nr := MASK;
        if n + nr > |p| {
          nr := |p| - n;
        }
        NextRecord(aead, State(), p, n, conn.data, total);
        WriteRecord(buf, p[n..n + nr]);
        n := n + nr;
      }
      NoRecords(aead, State(), p);
      assert conn.data + [] == conn.data;
    }

    method WriteEmpty(buf: array<byte>)
      requires Valid() && buf != nonce && buf.Length == BUF_SIZE
      modifies nonce, conn, buf
      ensures State() == Frame(aead, old(State()), []).0
      ensures conn.data == old(conn.data) + Frame(aead, old(State()), []).1
    {
      hide Inc, PutBE16;
      WriteHead(buf, 0);
      conn.Write(buf[..2 + aead.overhead]);
    }

    // The sealed length, at the front of the buffer.
    method WriteHead(buf: array<byte>, nr: uint16)
      requires Valid() && buf != nonce && buf.Length == BUF_SIZE
      modifies nonce, buf
      ensures State() == Inc(old(State()))
      ensures buf[..2 + aead.overhead] == aead.seal(old(State()), PutBE16(nr))
    {
      var sealed := aead.seal(nonce[..aead.nonceSize], PutBE16(nr));
      var _ := CopyAt(buf, 0, sealed);
      Increment(nonce, aead.nonceSize);
    }

    // One turn of the loop: length and payload.
    method WriteRecord(buf: array<byte>, payload: seq<byte>)
      requires Valid() && buf != nonce && buf.Length == BUF_SIZE && 0 < |payload| <= MASK
      modifies nonce, conn, buf
      ensures State() == Frame(aead, old(State()), payload).0
      ensures conn.data == old(conn.data) + Frame(aead, old(State()), payload).1
    {
      assert |payload| % 0x1_0000 == |payload|;
      hide Inc, PutBE16;
      var off := 2 + aead.overhead;
      WriteHead(buf, |payload|);
      ghost var head := buf[..off];
      var sealed := aead.seal(nonce[..aead.nonceSize], payload);
      var n := CopyAt(buf, off, sealed);
      Increment(nonce, aead.nonceSize);
      assert buf[..][..off] == head && buf[..][off..off + n] == buf[off..off + n] == sealed;
      TwoParts(buf[..], head, sealed);
      conn.Write(buf[..off + |payload| + aead.overhead]);
    }
  }

  class Reader {
    const conn: Wire
    const aead: Aead
    const nonce: array<byte>
    var buf: Option<seq<byte>>
    // how much of buf has been handed out
    var off: nat

    ghost predicate Valid()
      reads this
    {
      Usable(aead) && nonce.Length == 32 && (buf.Some? ==> off < |buf.value|)
    }

    ghost function State(): F.Reader<seq<byte>>
      reads this, nonce
      requires Valid()
    {
      F.Reader(nonce[..aead.nonceSize], if buf.Some? then buf.value[off..] else [])
    }

    constructor (conn: Wire, aead: Aead)
      requires Usable(aead)
      ensures Valid() && fresh(nonce) && this.conn == conn && this.aead == aead
      ensures State() == F.Reader(seq(aead.nonceSize, _ => 0), [])
    {
      this.conn := conn;
      this.aead := aead;
      nonce := new byte[32](_ => 0);
      buf := None;
      off := 0;
      new;
      assert nonce[..aead.nonceSize] == seq(aead.nonceSize, _ => 0);
    }

    // Takes one record off the wire and opens it.
    method ReadRecord() returns (r: F.Result)
      requires Usable(aead) && nonce.Length == 32
      modifies nonce, conn
      ensures F.Unframed(nonce[..aead.nonceSize], conn.data, r)
              == Unframe(aead, old(nonce[..aead.nonceSize]), old(conn.data))
      ensures r.Got? ==> 0 < |r.data| <= MASK
    {
      hide Inc;
      var tag := aead.overhead;
      // the length ...
      var sealed := conn.ReadFull(2 + tag);
      if sealed.Short? {
        return F.Fail(sealed.error);
      }
      var head := aead.open(nonce[..aead.nonceSize], sealed.data);
      Increment(nonce, aead.nonceSize);
      if head == None || |head.value| != 2 {
        return F.Fail(F.OpenFailed);
      }
      // ... and what it announces
      var size := GetBE16(head.value) % (MASK + 1);
      if size == 0 {
        return F.Fail(F.ZeroChunk);
      }
      var body := conn.ReadFull(size + tag);
      if body.Short? {
        return F.Fail(body.error);
      }
      var data := aead.open(nonce[..aead.nonceSize], body.data);
      Increment(nonce, aead.nonceSize);
      if data == None {
        return F.Fail(F.OpenFailed);
      }
      r := F.Got(data.value);
    }

    method Read(p: array<byte>) returns (r: F.Result)
      requires Valid() && p != nonce
      modifies this, nonce, conn, p
      ensures Valid()
      ensures F.ReadStep(State(), conn.data, r) == F.Read(Codec(aead), old(State()), old(conn.data), p.Length)
      ensures r.Got? ==> |r.data| <= p.Length && p[..|r.data|] == r.data
    {
      hide Unframe, Usable;
      if buf == None {
        var got := ReadRecord();
        if got.Fail? {
          return got;
        }
        if p.Length >= MASK + aead.overhead {
          var _ := CopyAt(p, 0, got.data);
          assert got.data[..|got.data|] == got.data;
          return got;
        }
        buf := Some(got.data);
        off := 0;
      }
      var n := CopyAt(p, 0, buf.value[off..]);
      r := F.Got(buf.value[off..][..n]);
      off := off + n;
      if off == |buf.value| {
        buf := None;
      }
    }
  }
}
