/**
 Streams cut into frames: what a writer that frames chunks and a reader that unframes them and keeps
 the unread rest of a chunk achieve together, whatever the frames look like.
 */
module Framing {
  import opened Wrappers
  import opened Bytes

  // Why a read gives nothing.
  datatype Failure = Eof | UnexpectedEof | ZeroChunk | TooLarge | OpenFailed

  datatype Result = Got(data: seq<byte>) | Fail(error: Failure)

  // What reading one frame does to the reader's counter and to the wire.
  datatype Unframed<S> = Unframed(s: S, rest: seq<byte>, result: Result)

  // S is what both ends count (nonces).  `cut` says how a write is split into chunks.
  datatype Codec<!S> = Codec(
    frame: (S, seq<byte>) -> (S, seq<byte>),
    unframe: (S, seq<byte>) -> Unframed<S>,
    cut: seq<byte> -> seq<seq<byte>>,
    fits: seq<byte> -> bool)

  // An empty chunk is told apart by an error.
  function Received(chunk: seq<byte>): Result {
    if chunk == [] then Fail(ZeroChunk) else Got(chunk)
  }

  ghost predicate Unframes<S(!new)>(c: Codec<S>) {
    forall s, chunk, rest {:trigger c.unframe(s, c.frame(s, chunk).1 + rest)} :: c.fits(chunk) ==>
      c.unframe(s, c.frame(s, chunk).1 + rest) == Unframed(c.frame(s, chunk).0, rest, Received(chunk))
  }

  ghost predicate Cuts<S>(c: Codec<S>) {
    forall data :: Concat(c.cut(data)) == data && forall i :: 0 <= i < |c.cut(data)| ==> c.fits(c.cut(data)[i])
  }

  ghost predicate EndsQuietly<S(!new)>(c: Codec<S>) {
    forall s :: c.unframe(s, []) == Unframed(s, [], Fail(Eof))
  }

  ghost predicate Lawful<S(!new)>(c: Codec<S>) {
    Unframes(c) && Cuts(c) && EndsQuietly(c)
  }

  // ----- one end -----

  function FrameAll<S>(c: Codec<S>, s: S, chunks: seq<seq<byte>>): (S, seq<byte>) {
    if chunks == [] then (s, [])
    else
      var (s1, f) := c.frame(s, chunks[0]);
      var (s2, g) := FrameAll(c, s1, chunks[1..]);
      (s2, f + g)
  }

  lemma {:induction false} FrameAllAppend<S>(c: Codec<S>, s: S, a: seq<seq<byte>>, b: seq<seq<byte>>)
    ensures FrameAll(c, s, a + b)
         == (FrameAll(c, FrameAll(c, s, a).0, b).0, FrameAll(c, s, a).1 + FrameAll(c, FrameAll(c, s, a).0, b).1)
  {
    if a == [] {
      assert a + b == b;
      assert [] + FrameAll(c, s, b).1 == FrameAll(c, s, b).1;
    } else {
      assert (a + b)[1..] == a[1..] + b && (a + b)[0] == a[0];
      var f := c.frame(s, a[0]);
      var g := FrameAll(c, f.0, a[1..]);
      var h := FrameAll(c, g.0, b);
      FrameAllAppend(c, f.0, a[1..], b);
      assert (f.1 + g.1) + h.1 == f.1 + (g.1 + h.1);
    }
  }

  // Framing what is cut into pieces of k bytes starts with the first k bytes, or all there are.
  lemma FrameNext<S>(c: Codec<S>, s: S, data: seq<byte>, k: nat)
    requires data != [] && k > 0
    ensures var r := Min(|data|, k); var f := c.frame(s, data[..r]); var g := FrameAll(c, f.0, Cut(data[r..], k));
            FrameAll(c, s, Cut(data, k)) == (g.0, f.1 + g.1)
  {
    var r := Min(|data|, k);
    if |data| <= k {
      assert data[..r] == data && data[r..] == [];
    }
    assert Cut(data, k) == [data[..r]] + Cut(data[r..], k);
    assert Cut(data, k)[1..] == Cut(data[r..], k);
  }

  // One turn of a write loop: the first piece goes out, and the rest still makes up the total.
  lemma WriteNext<S>(c: Codec<S>, s: S, data: seq<byte>, k: nat, sent: seq<byte>, total: seq<byte>)
    requires data != [] && k > 0 && sent + FrameAll(c, s, Cut(data, k)).1 == total
    ensures var r := Min(|data|, k); var f := c.frame(s, data[..r]);
            (sent + f.1) + FrameAll(c, f.0, Cut(data[r..], k)).1 == total
            && FrameAll(c, f.0, Cut(data[r..], k)).0 == FrameAll(c, s, Cut(data, k)).0
  {
    hide FrameAll, Cut;
    FrameNext(c, s, data, k);
    var r := Min(|data|, k);
    var f := c.frame(s, data[..r]);
    var g := FrameAll(c, f.0, Cut(data[r..], k));
    assert (sent + f.1) + g.1 == sent + (f.1 + g.1);
  }

  lemma FrameOne<S>(c: Codec<S>, s: S, chunk: seq<byte>)
    ensures FrameAll(c, s, [chunk]) == c.frame(s, chunk)
  {
    var f := c.frame(s, chunk);
    assert FrameAll(c, f.0, [chunk][1..]) == (f.0, []);
    assert f.1 + [] == f.1;
  }

  lemma FrameNone<S>(c: Codec<S>, s: S, k: nat)
    requires k > 0
    ensures FrameAll(c, s, Cut([], k)) == (s, [])
  {
  }

  // A reader: its counter, and the part of the last chunk its caller had no room for.
  datatype Reader<S> = Reader(s: S, left: seq<byte>)

  datatype ReadStep<S> = ReadStep(reader: Reader<S>, wire: seq<byte>, result: Result)

  // Serves up to n bytes from what is left, or else from the next frame.
  function Read<S>(c: Codec<S>, r: Reader<S>, wire: seq<byte>, n: nat): ReadStep<S> {
    if r.left != [] then
      var k := Min(n, |r.left|);
      ReadStep(r.(left := r.left[k..]), wire, Got(r.left[..k]))
    else
      var u := c.unframe(r.s, wire);
      match u.result
      case Fail(e) => ReadStep(Reader(u.s, []), u.rest, Fail(e))
      case Got(data) =>
        var k := Min(n, |data|);
        ReadStep(Reader(u.s, data[k..]), u.rest, Got(data[..k]))
  }

  // ----- both ends -----

  datatype Link<S> = Link(writer: S, wire: seq<byte>, reader: Reader<S>)

  datatype Op = OpWrite(data: seq<byte>) | OpRead(n: nat)

  function Step<S>(c: Codec<S>, l: Link<S>, op: Op): Link<S> {
    match op
    case OpWrite(data) =>
      var (s, f) := FrameAll(c, l.writer, c.cut(data));
      l.(writer := s, wire := l.wire + f)
    case OpRead(n) =>
      var r := Read(c, l.reader, l.wire, n);
      Link(l.writer, r.wire, r.reader)
  }

  // The bytes an operation takes in from the writer, or hands out to the reader.
  function Written(op: Op): seq<byte> {
    match op
    case OpWrite(data) => data
    case OpRead(_) => []
  }

  function Outcome<S>(c: Codec<S>, l: Link<S>, op: Op): Result {
    match op
    case OpWrite(_) => Got([])
    case OpRead(n) => Read(c, l.reader, l.wire, n).result
  }

  function Delivered<S>(c: Codec<S>, l: Link<S>, op: Op): seq<byte> {
    match Outcome(c, l, op)
    case Got(data) => data
    case Fail(_) => []
  }

  function Run<S>(c: Codec<S>, l: Link<S>, ops: seq<Op>): Link<S>
    decreases |ops|
  {
    if ops == [] then l else Run(c, Step(c, l, ops[0]), ops[1..])
  }

  // Nothing but writes
  function Writes(ps: seq<seq<byte>>): seq<Op> {
    if ps == [] then [] else [OpWrite(ps[0])] + Writes(ps[1..])
  }

  lemma FirstWrite<S>(c: Codec<S>, l: Link<S>, ps: seq<seq<byte>>)
    requires ps != []
    ensures Run(c, l, Writes(ps)) == Run(c, Step(c, l, OpWrite(ps[0])), Writes(ps[1..]))
  {
    assert Writes(ps)[1..] == Writes(ps[1..]);
  }

  function AllWritten(ops: seq<Op>): seq<byte> {
    if ops == [] then [] else Written(ops[0]) + AllWritten(ops[1..])
  }

  function AllDelivered<S>(c: Codec<S>, l: Link<S>, ops: seq<Op>): seq<byte>
    decreases |ops|
  {
    if ops == [] then [] else Delivered(c, l, ops[0]) + AllDelivered(c, Step(c, l, ops[0]), ops[1..])
  }

  // The chunks still on the wire: framed with the reader's counter they are the wire, and framing
  // them takes that counter to the writer's.
  ghost predicate OnWire<S>(c: Codec<S>, l: Link<S>, chunks: seq<seq<byte>>) {
    && FrameAll(c, l.reader.s, chunks) == (l.writer, l.wire)
    && forall i :: 0 <= i < |chunks| ==> c.fits(chunks[i])
  }

  // What has been written but not handed out.
  function Held<S>(l: Link<S>, chunks: seq<seq<byte>>): seq<byte> {
    l.reader.left + Concat(chunks)
  }

  lemma WriteKeepsWire<S(!new)>(c: Codec<S>, l: Link<S>, data: seq<byte>, chunks: seq<seq<byte>>)
    requires Lawful(c) && OnWire(c, l, chunks)
    ensures OnWire(c, Step(c, l, OpWrite(data)), chunks + c.cut(data))
    ensures Held(Step(c, l, OpWrite(data)), chunks + c.cut(data)) == Held(l, chunks) + data
  {
    FrameAllAppend(c, l.reader.s, chunks, c.cut(data));
    ConcatAppend(chunks, c.cut(data));
    assert l.reader.left + (Concat(chunks) + data) == Held(l, chunks) + data;
  }

  lemma ReadKeepsWire<S(!new)>(c: Codec<S>, l: Link<S>, n: nat, chunks: seq<seq<byte>>)
    requires Lawful(c) && OnWire(c, l, chunks)
    ensures var m := Step(c, l, OpRead(n));
            var later := if l.reader.left != [] || chunks == [] then chunks else chunks[1..];
            OnWire(c, m, later)
            && Held(l, chunks) == Delivered(c, l, OpRead(n)) + Held(m, later)
            && (Outcome(c, l, OpRead(n)).Fail? ==>
                  l.reader.left == [] && Delivered(c, l, OpRead(n)) == []
                  && if chunks == [] then Outcome(c, l, OpRead(n)) == Fail(Eof) && m == l
                     else Outcome(c, l, OpRead(n)) == Fail(ZeroChunk) && chunks[0] == [])
  {
    if l.reader.left != [] {
      SplitAt(l.reader.left, Min(n, |l.reader.left|), Concat(chunks));
    } else if chunks != [] {
      UnframeFirst(c, l, chunks);
      hide Lawful, FrameAll;
      SplitAt(chunks[0], Min(n, |chunks[0]|), Concat(chunks[1..]));
    }
  }

  lemma SplitAt(a: seq<byte>, k: nat, b: seq<byte>)
    requires k <= |a|
    ensures a[..k] + (a[k..] + b) == a + b
  {
  }

  // The first chunk on the wire is the next to be unframed.
  lemma UnframeFirst<S(!new)>(c: Codec<S>, l: Link<S>, chunks: seq<seq<byte>>)
    requires Lawful(c) && OnWire(c, l, chunks) && chunks != []
    ensures var f := c.frame(l.reader.s, chunks[0]); var g := FrameAll(c, f.0, chunks[1..]);
            c.unframe(l.reader.s, l.wire) == Unframed(f.0, g.1, Received(chunks[0])) && g.0 == l.writer
  {
    var f := c.frame(l.reader.s, chunks[0]);
    var g := FrameAll(c, f.0, chunks[1..]);
    assert l.wire == f.1 + g.1;
    assert c.unframe(l.reader.s, f.1 + g.1) == Unframed(f.0, g.1, Received(chunks[0]));
  }

  lemma Splice(before: seq<byte>, w: seq<byte>, out: seq<byte>, after: seq<byte>, rest: seq<byte>, d: seq<byte>,
               end: seq<byte>)
    requires before + w == out + after && after + rest == d + end
    ensures before + (w + rest) == (out + d) + end
  {
    calc {
      before + (w + rest);
      (before + w) + rest;
      out + (after + rest);
      (out + d) + end;
    }
  }

  // Over every run of writes and reads of any sizes: what has been handed out, what the reader still
  // holds and what is on the wire, in that order, are what has been written.
  lemma {:induction false} RunKeepsStream<S(!new)>(c: Codec<S>, l: Link<S>, ops: seq<Op>, chunks: seq<seq<byte>>)
    returns (later: seq<seq<byte>>)
    requires Lawful(c) && OnWire(c, l, chunks)
    ensures OnWire(c, Run(c, l, ops), later)
    ensures Held(l, chunks) + AllWritten(ops) == AllDelivered(c, l, ops) + Held(Run(c, l, ops), later)
    decreases |ops|
  {
    if ops == [] {
      later := chunks;
    } else {
      hide Lawful, OnWire, Held, Read;
      var op, m := ops[0], Step(c, l, ops[0]);
      var mid;
      match op {
        case OpWrite(data) =>
          WriteKeepsWire(c, l, data, chunks);
          mid := chunks + c.cut(data);
        case OpRead(n) =>
          ReadKeepsWire(c, l, n, chunks);
          mid := if l.reader.left != [] || chunks == [] then chunks else chunks[1..];
      }
      assert Held(l, chunks) + Written(op) == Delivered(c, l, op) + Held(m, mid);
      later := RunKeepsStream(c, m, ops[1..], mid);
      Splice(Held(l, chunks), Written(op), Delivered(c, l, op), Held(m, mid), AllWritten(ops[1..]),
             AllDelivered(c, m, ops[1..]), Held(Run(c, m, ops[1..]), later));
    }
  }

  // Starting in step with nothing in between: the bytes read are always a prefix of the bytes
  // written, and all of them once the wire and the reader's buffer are empty; then the two counters
  // agree again.
  lemma {:induction false} StreamIsIdentity<S(!new)>(c: Codec<S>, s: S, ops: seq<Op>)
    requires Lawful(c)
    ensures var l := Link(s, [], Reader(s, []));
            var m := Run(c, l, ops);
            AllDelivered(c, l, ops) <= AllWritten(ops)
            && (m.wire == [] && m.reader.left == [] ==> AllDelivered(c, l, ops) == AllWritten(ops))
            && (m.wire == [] ==> m.reader.s == m.writer)
  {
    hide Lawful, Read, Step, Run, AllDelivered, AllWritten;
    var l := Link(s, [], Reader(s, []));
    var later := RunKeepsStream(c, l, ops, []);
    var m := Run(c, l, ops);
    assert Held(l, []) == [];
    assert AllWritten(ops) == AllDelivered(c, l, ops) + Held(m, later);
    EmptyWire(c, m, later);
  }

  lemma FramesAreNonempty<S(!new)>(c: Codec<S>, s: S, chunk: seq<byte>)
    requires Lawful(c) && c.fits(chunk)
    ensures c.frame(s, chunk).1 != []
  {
    var f := c.frame(s, chunk);
    assert f.1 + [] == f.1;
    assert c.unframe(s, f.1 + []) == Unframed(f.0, [], Received(chunk));
  }

  // On such a stream a read fails only where there is nothing to read, or at an empty chunk.
  lemma ReadsFailQuietly<S(!new)>(c: Codec<S>, s: S, ops: seq<Op>, n: nat)
    requires Lawful(c)
    ensures var l := Link(s, [], Reader(s, []));
            var m := Run(c, l, ops);
            var o := Outcome(c, m, OpRead(n));
            o.Got? || (o == Fail(ZeroChunk) && c.fits([]))
            || (o == Fail(Eof) && m.wire == [] && m.reader.left == [] && AllDelivered(c, l, ops) == AllWritten(ops))
  {
    hide Lawful, Read, Step, Run, AllDelivered, AllWritten;
    var l := Link(s, [], Reader(s, []));
    var later := RunKeepsStream(c, l, ops, []);
    var m := Run(c, l, ops);
    assert Held(l, []) == [] && [] + AllWritten(ops) == AllWritten(ops);
    ReadKeepsWire(c, m, n, later);
    if later == [] && m.reader.left == [] {
      assert m.wire == [] && Held(m, later) == [];
      assert AllDelivered(c, l, ops) + [] == AllDelivered(c, l, ops);
    }
  }

  // ----- draining -----

  ghost predicate ReadsOnly(ops: seq<Op>) {
    forall i :: 0 <= i < |ops| ==> ops[i].OpRead? && ops[i].n > 0
  }

  // How many reads it may take: each takes a chunk off the wire, or a byte of what is left of one.
  function Todo<S>(l: Link<S>, chunks: seq<seq<byte>>): nat {
    |Held(l, chunks)| + |chunks|
  }

  lemma ReadMakesProgress<S(!new)>(c: Codec<S>, l: Link<S>, n: nat, chunks: seq<seq<byte>>)
    returns (later: seq<seq<byte>>)
    requires Lawful(c) && OnWire(c, l, chunks) && n > 0
    ensures OnWire(c, Step(c, l, OpRead(n)), later)
    ensures Todo(Step(c, l, OpRead(n)), later) <= if Todo(l, chunks) == 0 then 0 else Todo(l, chunks) - 1
  {
    ReadKeepsWire(c, l, n, chunks);
    hide Lawful, OnWire;
    later := if l.reader.left != [] || chunks == [] then chunks else chunks[1..];
    if l.reader.left != [] {
      assert |Delivered(c, l, OpRead(n))| > 0;
    }
  }

  lemma {:induction false} ReadsDrain<S(!new)>(c: Codec<S>, l: Link<S>, calls: seq<Op>, chunks: seq<seq<byte>>)
    requires Lawful(c) && OnWire(c, l, chunks) && ReadsOnly(calls) && |calls| >= Todo(l, chunks)
    ensures Run(c, l, calls).wire == [] && Run(c, l, calls).reader.left == []
    decreases |calls|
  {
    hide Lawful, Read, Step;
    if calls == [] {
      assert chunks == [];
    } else {
      var later := ReadMakesProgress(c, l, calls[0].n, chunks);
      hide OnWire;
      assert calls[0] == OpRead(calls[0].n);
      ReadsDrain(c, Step(c, l, calls[0]), calls[1..], later);
    }
  }

  lemma {:induction false} ReadsWriteNothing(ops: seq<Op>)
    requires ReadsOnly(ops)
    ensures AllWritten(ops) == []
  {
    if ops != [] {
      ReadsWriteNothing(ops[1..]);
    }
  }

  // After any run, finitely many reads into buffers that are not empty deliver all that has been written,
  // whatever their sizes.
  lemma StreamIsDelivered<S(!new)>(c: Codec<S>, s: S, ops: seq<Op>) returns (enough: nat)
    requires Lawful(c)
    ensures var l := Link(s, [], Reader(s, []));
            forall calls :: ReadsOnly(calls) && |calls| >= enough ==>
              AllDelivered(c, l, ops) + AllDelivered(c, Run(c, l, ops), calls) == AllWritten(ops)
  {
    hide Lawful, Read, Step, Run, AllDelivered, AllWritten, ReadsOnly, OnWire;
    var l := Link(s, [], Reader(s, []));
    Nothing(c, s);
    var chunks := RunKeepsStream(c, l, ops, []);
    var m := Run(c, l, ops);
    enough := Todo(m, chunks);
    forall calls | ReadsOnly(calls) && |calls| >= enough
      ensures AllDelivered(c, l, ops) + AllDelivered(c, m, calls) == AllWritten(ops)
    {
      ReadsDrain(c, m, calls, chunks);
      var later := RunKeepsStream(c, m, calls, chunks);
      ReadsWriteNothing(calls);
      EmptyWire(c, Run(c, m, calls), later);
      assert Held(Run(c, m, calls), later) == [] && Held(l, []) == [];
      Splice(Held(l, []), AllWritten(ops), AllDelivered(c, l, ops), Held(m, chunks), [], AllDelivered(c, m, calls), []);
      assert [] + (AllWritten(ops) + []) == AllWritten(ops);
    }
  }

  lemma Nothing<S>(c: Codec<S>, s: S)
    ensures OnWire(c, Link(s, [], Reader(s, [])), [])
  {
  }

  // Nothing on the wire, no chunks.
  lemma EmptyWire<S(!new)>(c: Codec<S>, l: Link<S>, chunks: seq<seq<byte>>)
    requires Lawful(c) && OnWire(c, l, chunks)
    ensures l.wire == [] ==> chunks == []
  {
    hide Lawful;
    if chunks != [] {
      FramesAreNonempty(c, l.reader.s, chunks[0]);
    }
  }
}
