/**
 The frames of auth_aes128_sha1 and auth_sha1_v4 after the header packet: length, check of the
 length, padding that tells its own length, payload, check of the frame.  The two protocols differ in
 byte order, in the checks, and in whether the checks depend on the frame's number.
 */
module AuthFrame {
  import opened Wrappers
  import opened Bytes
  import opened Reassembly
  import opened Buffers
  import opened Wires

  // The first n bytes of a digest that has at least that many.
  function First(b: seq<byte>, n: nat): (r: seq<byte>)
    ensures |r| == n
  {
    (b + seq(n, _ => 0))[..n]
  }

  function PutLE32(v: uint32): seq<byte> {
    [v % 0x100, v / 0x100 % 0x100, v / 0x1_0000 % 0x100, v / 0x100_0000]
  }

  datatype Scheme =
    // an HMAC keyed by the user key and the frame's number
    | Aes128(userKey: seq<byte>, hmac: (seq<byte>, seq<byte>) -> seq<byte>)
    // CRC32 and Adler32
    | Sha1V4(crc32: seq<byte> -> uint32, adler32: seq<byte> -> uint32)
  {
    function Put(v: uint16): seq<byte> {
      if Aes128? then PutLE16(v) else PutBE16(v)
    }

    function Get(b: seq<byte>): uint16
      requires |b| == 2
    {
      if Aes128? then GetLE16(b) else GetBE16(b)
    }

    function HeadCheck(id: uint32, b: seq<byte>): (r: seq<byte>)
      ensures |r| == 2
    {
      match this
      case Aes128(key, hmac) => First(hmac(key + PutLE32(id), b), 2)
      case Sha1V4(crc32, _) => PutLE16(crc32(b) % 0x1_0000)
    }

    function TailCheck(id: uint32, b: seq<byte>): (r: seq<byte>)
      ensures |r| == 4
    {
      match this
      case Aes128(key, hmac) => First(hmac(key + PutLE32(id), b), 4)
      case Sha1V4(_, adler32) => PutLE32(adler32(b))
    }
  }

  lemma PutGet(sch: Scheme, v: uint16)
    ensures |sch.Put(v)| == 2 && sch.Get(sch.Put(v)) == v
  {
    RoundTrip16(v);
  }

  function Next(id: uint32): uint32 {
    (id + 1) % 0x1_0000_0000
  }

  // ----- the sender -----

  // packedDataLength
  function Packed(pad: nat, data: nat): nat {
    if pad < 128 then 9 + pad + data else 11 + pad + data
  }

  // packRandData
  function RandPart(sch: Scheme, pad: seq<byte>): seq<byte> {
    if |pad| < 128 then [|pad| + 1] + pad else [255] + sch.Put((|pad| + 3) % 0x1_0000) + pad
  }

  function Body(sch: Scheme, id: uint32, pad: seq<byte>, data: seq<byte>): seq<byte> {
    var length := sch.Put(Packed(|pad|, |data|) % 0x1_0000);
    length + sch.HeadCheck(id, length) + RandPart(sch, pad) + data
  }

  function Pack(sch: Scheme, id: uint32, pad: seq<byte>, data: seq<byte>): seq<byte> {
    Body(sch, id, pad, data) + sch.TailCheck(id, Body(sch, id, pad, data))
  }

  // getRandDataLengthForPackData: trapezoidRandom(max, -0.3) gives anything below max
  predicate MayPadAes128(data: nat, whole: nat, overhead: nat, pad: nat) {
    if whole >= 32 * 1024 - overhead then pad == 0
    else
      var rev := 1460 - data - 9;
      if rev == 0 then pad == 0
      else if rev < 0 then
        if rev > -1460 then pad < rev + 1460 else pad < 32
      else pad < rev
  }

  // getRandDataLength of auth_sha1_v4
  predicate MayPadSha1V4(data: nat, pad: nat) {
    if data > 1200 then pad == 0 else if data > 400 then pad < 256 else pad < 512
  }

  // Lengths the decoder accepts.
  predicate Sound(pad: nat, data: nat) {
    7 <= Packed(pad, data) < 8192
  }

  // Every padding the generators can choose for a piece of at most 8100 bytes is sound.
  lemma PaddingIsSound(data: nat, whole: nat, overhead: nat, pad: nat)
    requires data <= 8100 && (MayPadAes128(data, whole, overhead, pad) || MayPadSha1V4(data, pad))
    ensures Sound(pad, data)
  {
  }

  // ----- the receiver -----

  // recvID and rawTrans
  datatype State = State(id: uint32, raw: bool)

  // One turn of the decode loop; raw transfer, once a frame has been refused, takes everything as it
  // is.  SliceOutOfRange stands for the run-time panic on a frame whose
  // padding claims more than the frame holds.
  function Step(sch: Scheme, s: State, src: seq<byte>): Outcome<State> {
    if s.raw then if src == [] then More(s) else Whole(s, |src|, src)
    else if |src| <= 4 then More(s)
    else if sch.HeadCheck(s.id, src[..2]) != src[2..4] then Bad(s, MacError)
    else
      var length := sch.Get(src[..2]);
      if length >= 8192 || length < 7 then Bad(s.(raw := true), LengthError)
      else if length > |src| then More(s)
      else if sch.TailCheck(s.id, src[..length - 4]) != src[length - 4..length] then Bad(s.(raw := true), ChecksumError)
      else
        var pos: int := if src[4] < 255 then src[4] as int + 4 else sch.Get(src[5..7]) as int + 4;
        if pos > length - 4 then Bad(s.(id := Next(s.id)), SliceOutOfRange)
        else Whole(s.(id := Next(s.id)), length, src[pos..length - 4])
  }

  // What the sender may emit next, and when the receiver expects it.
  ghost function Sync(sch: Scheme): Protocol<State, uint32> {
    Protocol(
      (s: State, b) => Step(sch, s, b),
      (id: uint32, f: Sent<uint32>) => exists pad, data ::
          Sound(|pad|, |data|) && f == Sent(Pack(sch, id, pad, data), data, Next(id)),
      (s: State, id: uint32) => s == State(id, false))
  }

  // Where the parts of a frame lie.
  lemma Slices(a: seq<byte>, b: seq<byte>, c: seq<byte>, d: seq<byte>, e: seq<byte>, rest: seq<byte>)
    requires |a| == 2 && |b| == 2 && |c| >= 1 && |e| == 4
    ensures var src := (a + b + c + d) + e + rest; var n := 8 + |c| + |d|;
            |(a + b + c + d) + e| == n && src[..2] == a && src[2..4] == b && src[4] == c[0]
            && (|c| >= 3 ==> src[5..7] == c[1..3])
            && src[4 + |c|..n - 4] == d && src[..n - 4] == a + b + c + d && src[n - 4..n] == e && src[n..] == rest
  {
  }

  lemma RandPartLayout(sch: Scheme, pad: seq<byte>)
    requires |pad| < 8192
    ensures var c := RandPart(sch, pad);
            if |pad| < 128 then |c| == 1 + |pad| && c[0] == |pad| + 1
            else |c| == 3 + |pad| && c[0] == 255 && c[1..3] == sch.Put(|pad| + 3)
  {
    if |pad| >= 128 {
      PutGet(sch, |pad| + 3);
      assert (|pad| + 3) % 0x1_0000 == |pad| + 3;
    }
  }

  lemma PackLayout(sch: Scheme, id: uint32, pad: seq<byte>, data: seq<byte>, rest: seq<byte>)
    requires Sound(|pad|, |data|)
    ensures var n := Packed(|pad|, |data|); var f := Pack(sch, id, pad, data); var src := f + rest;
            |f| == n && src[..2] == sch.Put(n) && src[2..4] == sch.HeadCheck(id, sch.Put(n))
            && src[n - 4..n] == sch.TailCheck(id, src[..n - 4]) && src[n..] == rest
            && var pos: int := if src[4] < 255 then src[4] as int + 4 else sch.Get(src[5..7]) as int + 4;
               4 <= pos <= n - 4 && src[pos..n - 4] == data
  {
    hide PutBE16, PutLE16, GetBE16, GetLE16, RandPart, Scheme.HeadCheck, Scheme.TailCheck, Scheme.Put, Scheme.Get;
    var n := Packed(|pad|, |data|);
    assert n % 0x1_0000 == n;
    PutGet(sch, n);
    RandPartLayout(sch, pad);
    if |pad| >= 128 {
      PutGet(sch, |pad| + 3);
    }
    var body := Body(sch, id, pad, data);
    Slices(sch.Put(n), sch.HeadCheck(id, sch.Put(n)), RandPart(sch, pad), data, sch.TailCheck(id, body), rest);
  }

  // The decoder takes whole frames off the front, with exactly the payload that went in.
  lemma StepTakes(sch: Scheme, id: uint32, pad: seq<byte>, data: seq<byte>, rest: seq<byte>)
    requires Sound(|pad|, |data|)
    ensures var f := Pack(sch, id, pad, data);
            Step(sch, State(id, false), f + rest) == Whole(State(Next(id), false), |f|, data) && |f| > 0
  {
    hide Pack, PutBE16, PutLE16, GetBE16, GetLE16, Scheme.HeadCheck, Scheme.TailCheck, Scheme.Put, Scheme.Get;
    PackLayout(sch, id, pad, data, rest);
    PutGet(sch, Packed(|pad|, |data|));
  }

  // Part of a frame leaves it as it was.
  lemma StepWaits(sch: Scheme, id: uint32, pad: seq<byte>, data: seq<byte>, part: seq<byte>)
    requires Sound(|pad|, |data|) && part < Pack(sch, id, pad, data)
    ensures Step(sch, State(id, false), part) == More(State(id, false))
  {
    hide PutBE16, PutLE16, GetBE16, GetLE16, Scheme.HeadCheck, Scheme.TailCheck, Scheme.Put, Scheme.Get;
    var f, n := Pack(sch, id, pad, data), Packed(|pad|, |data|);
    assert |f| == n && f[..2] == sch.Put(n) && f[2..4] == sch.HeadCheck(id, sch.Put(n)) by {
      assert f + [] == f;
      PackLayout(sch, id, pad, data, []);
    }
    PutGet(sch, n);
    hide Pack;
    if |part| > 4 {
      assert part[..2] == f[..2] && part[2..4] == f[2..4];
      assert sch.Get(part[..2]) == n > |part|;
    }
  }

  lemma IsLockstep(sch: Scheme)
    ensures Lockstep(Sync(sch))
  {
    TakesAll(sch);
    WaitsForAll(sch);
    WaitsForNothing(sch);
  }

  lemma TakesAll(sch: Scheme)
    ensures TakesFrames(Sync(sch))
  {
    hide Step, Pack, Sound;
    var p := Sync(sch);
    forall s, t, f, rest | p.inStep(s, t) && p.emits(t, f)
      ensures var o := p.step(s, f.frame + rest);
              o.Whole? && o.used == |f.frame| > 0 && o.payload == f.payload && p.inStep(o.s, f.after)
    {
      TakesSent(sch, s, t, f, rest);
    }
  }

  lemma WaitsForAll(sch: Scheme)
    ensures WaitsForFrames(Sync(sch))
  {
    hide Step, Pack, Sound;
    var p := Sync(sch);
    forall s, t, f, part | p.inStep(s, t) && p.emits(t, f) && part < f.frame
      ensures var o := p.step(s, part); o.More? && p.inStep(o.s, t)
    {
      WaitsForSent(sch, s, t, f, part);
    }
  }

  lemma WaitsForNothing(sch: Scheme)
    ensures WaitsForAnything(Sync(sch))
  {
  }

  lemma TakesSent(sch: Scheme, s: State, t: uint32, f: Sent<uint32>, rest: seq<byte>)
    requires s == State(t, false) && Sync(sch).emits(t, f)
    ensures Step(sch, s, f.frame + rest) == Whole(State(f.after, false), |f.frame|, f.payload) && |f.frame| > 0
  {
    hide Step, Pack, Sound;
    var pad, data :| Sound(|pad|, |data|) && f == Sent(Pack(sch, t, pad, data), data, Next(t));
    StepTakes(sch, t, pad, data, rest);
  }

  lemma WaitsForSent(sch: Scheme, s: State, t: uint32, f: Sent<uint32>, part: seq<byte>)
    requires s == State(t, false) && Sync(sch).emits(t, f) && part < f.frame
    ensures Step(sch, s, part) == More(s)
  {
    hide Step, Pack, Sound;
    var pad, data :| Sound(|pad|, |data|) && f == Sent(Pack(sch, t, pad, data), data, Next(t));
    StepWaits(sch, t, pad, data, part);
  }

  // ----- whole streams -----

  const PIECE := 8100

  // Where the random padding comes from: by the length of the slice Encode was given, the frame's number
  // and the frame's data.
  type Noise = (nat, uint32, seq<byte>) -> seq<byte>

  // What the generators can choose
  ghost predicate Pads(pads: Noise, overhead: nat) {
    forall whole, id, c {:trigger pads(whole, id, c)} :: |c| <= PIECE ==>
      MayPadAes128(|c|, whole, overhead, |pads(whole, id, c)|) || MayPadSha1V4(|c|, |pads(whole, id, c)|)
  }

  // The frames of the pieces of one write, numbered from id
  function PackAll(sch: Scheme, id: uint32, pads: Noise, whole: nat, chunks: seq<seq<byte>>): seq<Sent<uint32>>
    decreases |chunks|
  {
    if chunks == [] then []
    else
      [Sent(Pack(sch, id, pads(whole, id, chunks[0]), chunks[0]), chunks[0], Next(id))]
      + PackAll(sch, Next(id), pads, whole, chunks[1..])
  }

  // A write: the data, and the length of the slice Encode was given, which for the first write counts
  // what went into the header packet too.
  datatype Written = Written(data: seq<byte>, whole: nat)

  // The frames of several writes
  function PackWrites(sch: Scheme, id: uint32, pads: Noise, writes: seq<Written>): seq<Sent<uint32>>
    decreases |writes|
  {
    if writes == [] then []
    else
      var fs := PackAll(sch, id, pads, writes[0].whole, Cut(writes[0].data, PIECE));
      fs + PackWrites(sch, StateAfter(id, fs), pads, writes[1..])
  }

  function Data(writes: seq<Written>): seq<byte> {
    if writes == [] then [] else writes[0].data + Data(writes[1..])
  }

  lemma {:induction false} PackAllIsChain(sch: Scheme, id: uint32, pads: Noise, whole: nat, chunks: seq<seq<byte>>,
                                          overhead: nat)
    requires Pads(pads, overhead) && forall i :: 0 <= i < |chunks| ==> |chunks[i]| <= PIECE
    ensures var fs := PackAll(sch, id, pads, whole, chunks);
            Chain(Sync(sch), id, fs) && Payloads(fs) == Concat(chunks) && |fs| == |chunks|
    decreases |chunks|
  {
    if chunks != [] {
      var c := chunks[0];
      PaddingIsSound(|c|, whole, overhead, |pads(whole, id, c)|);
      PackAllIsChain(sch, Next(id), pads, whole, chunks[1..], overhead);
      var fs := PackAll(sch, id, pads, whole, chunks);
      hide Pack;
      assert fs[0] == Sent(Pack(sch, id, pads(whole, id, c), c), c, Next(id));
      assert fs[1..] == PackAll(sch, Next(id), pads, whole, chunks[1..]);
      assert Sync(sch).emits(id, fs[0]);
    }
  }

  lemma {:induction false} PackWritesIsChain(sch: Scheme, id: uint32, pads: Noise, writes: seq<Written>, overhead: nat)
    requires Pads(pads, overhead)
    ensures var fs := PackWrites(sch, id, pads, writes); Chain(Sync(sch), id, fs) && Payloads(fs) == Data(writes)
    decreases |writes|
  {
    hide Pads, PackAll, Cut;
    if writes != [] {
      var w := writes[0];
      var fs := PackAll(sch, id, pads, w.whole, Cut(w.data, PIECE));
      CutKeepsAll(w.data, PIECE);
      PackAllIsChain(sch, id, pads, w.whole, Cut(w.data, PIECE), overhead);
      PackWritesIsChain(sch, StateAfter(id, fs), pads, writes[1..], overhead);
      ChainAppend(Sync(sch), id, fs, PackWrites(sch, StateAfter(id, fs), pads, writes[1..]));
    }
  }

  // For any writes and every padding the generators can choose, however the bytes arrive: all that was
  // written comes out, in order, with nothing left over, and the next frame is expected.
  lemma StreamRoundTrip(sch: Scheme, id: uint32, pads: Noise, overhead: nat, writes: seq<Written>,
                        pieces: seq<seq<byte>>)
    requires Pads(pads, overhead) && Concat(pieces) == Frames(PackWrites(sch, id, pads, writes))
    ensures var d := Feed(Sync(sch).step, Receiver(State(id, false), []), pieces);
            d.error == None && d.out == Data(writes) && d.rest == []
            && d.s == State(StateAfter(id, PackWrites(sch, id, pads, writes)), false)
  {
    IsLockstep(sch);
    PackWritesIsChain(sch, id, pads, writes, overhead);
    hide Lockstep, Chain, PackWrites, Feed;
    FeedDeliversAll(Sync(sch), State(id, false), id, PackWrites(sch, id, pads, writes), pieces);
  }

  // The same through Conn.Read, whatever the sizes of the buffers it is given, and at any time: as long
  // as the bytes taken are some of those sent, no read fails and what has been read is a prefix of what
  // was written; once all have been taken, it is all there, read or decoded.
  lemma ConnRoundTrip(sch: Scheme, id: uint32, pads: Noise, overhead: nat, writes: seq<Written>,
                      calls: seq<(nat, seq<byte>)>)
    requires Pads(pads, overhead)
    requires Concat(PiecesTaken(Sync(sch).step, Conn(State(id, false), [], []), calls))
             <= Frames(PackWrites(sch, id, pads, writes))
    ensures var r := ReadAll(Sync(sch).step, Conn(State(id, false), [], []), calls);
            r.error == None && r.result + r.conn.decoded <= Data(writes)
            && (Concat(PiecesTaken(Sync(sch).step, Conn(State(id, false), [], []), calls))
                == Frames(PackWrites(sch, id, pads, writes)) ==>
                r.result + r.conn.decoded == Data(writes) && r.conn.underDecoded == [])
  {
    IsLockstep(sch);
    PackWritesIsChain(sch, id, pads, writes, overhead);
    hide Lockstep, Chain, PackWrites, ReadAll, PiecesTaken;
    ConnDelivers(Sync(sch), State(id, false), id, PackWrites(sch, id, pads, writes), calls);
  }

  // ----- streams from anyone -----

  // Decoder states are told apart, until a frame is refused.
  ghost predicate SameState(s: State, t: State) {
    s == t && !s.raw
  }

  lemma StepIsSettled(sch: Scheme)
    ensures Settled(Sync(sch).step, (s: State, t: State) => SameState(s, t))
  {
    hide Step;
    forall s, t, src, more | SameState(s, t)
      ensures SettledOn((s: State, t: State) => SameState(s, t), Step(sch, s, src), Step(sch, t, src + more), t, |src|)
    {
      StepSettles(sch, s, src, more);
    }
  }

  lemma StepSettles(sch: Scheme, s: State, src: seq<byte>, more: seq<byte>)
    requires !s.raw
    ensures var o := Step(sch, s, src);
            && (o.More? ==> o.s == s)
            && (o.Bad? ==> Step(sch, s, src + more) == o)
            && (o.Whole? ==> Step(sch, s, src + more) == o && 0 < o.used <= |src| && !o.s.raw)
  {
    hide Scheme.HeadCheck, Scheme.TailCheck, Scheme.Get;
    if |src| > 4 {
      Prefixes(src, more, 2);
      Prefixes(src, more, 4);
      var length := sch.Get(src[..2]);
      if 7 <= length <= |src| {
        Prefixes(src, more, length - 4);
        Prefixes(src, more, length);
        assert src[5..7] == src[..7][5..] && (src + more)[5..7] == (src + more)[..7][5..];
        Prefixes(src, more, 7);
      }
    }
  }

  lemma Prefixes(a: seq<byte>, b: seq<byte>, n: nat)
    requires n <= |a|
    ensures (a + b)[..n] == a[..n] && forall m :: 0 <= m <= n ==> (a + b)[m..n] == a[m..n]
  {
  }

  // For every stream of bytes, sent by whomever: how it is cut into pieces makes no difference.
  lemma Fragmentation(sch: Scheme, id: uint32, pieces: seq<seq<byte>>)
    ensures SameOutput(Feed(Sync(sch).step, Receiver(State(id, false), []), pieces),
            DecodeAll(Sync(sch).step, State(id, false), Concat(pieces)))
  {
    StepIsSettled(sch);
    hide Settled, Feed, DecodeAll;
    assert [] + Concat(pieces) == Concat(pieces);
    FragmentationIsInvisible(Sync(sch).step, (s: State, t: State) => SameState(s, t), Receiver(State(id, false), []),
      State(id, false), pieces);
  }

  // A whole frame that passes both checks, and whose padding claims more than the frame holds
  predicate Overclaims(sch: Scheme, id: uint32, src: seq<byte>) {
    |src| > 4 && sch.HeadCheck(id, src[..2]) == src[2..4] &&
    var length := sch.Get(src[..2]);
    7 <= length < 8192 && length <= |src| && sch.TailCheck(id, src[..length - 4]) == src[length - 4..length] &&
    4 + (if src[4] < 255 then src[4] as int else sch.Get(src[5..7]) as int) > length - 4
  }

  // When Decode panics, over any stream in any pieces: exactly if, after some number of whole frames,
  // a frame overclaims.
  lemma PanicsExactly(sch: Scheme, id: uint32, pieces: seq<seq<byte>>)
    ensures Feed(Sync(sch).step, Receiver(State(id, false), []), pieces).error == Some(SliceOutOfRange)
      <==> exists n: nat :: OverclaimsAfter(sch, id, Concat(pieces), n)
  {
    hide Feed, DecodeAll, FailsAfter, OverclaimsAfter;
    Fragmentation(sch, id, pieces);
    FailsExactly(Sync(sch).step, State(id, false), Concat(pieces), SliceOutOfRange);
    forall n: nat
      ensures FailsAfter(Sync(sch).step, State(id, false), Concat(pieces), n, SliceOutOfRange) <==>
              OverclaimsAfter(sch, id, Concat(pieces), n)
    {
      FailsForOverclaim(sch, id, Concat(pieces), n);
    }
  }

  lemma FailsForOverclaim(sch: Scheme, id: uint32, src: seq<byte>, n: nat)
    ensures FailsAfter(Sync(sch).step, State(id, false), src, n, SliceOutOfRange) <==> OverclaimsAfter(sch, id, src, n)
  {
    hide Skip, Step, Overclaims;
    var r := Skip(Sync(sch).step, State(id, false), src, n);
    SkipStaysLive(sch, State(id, false), src, n);
    if r.Some? {
      RefusedForOverclaim(sch, r.value.s, r.value.held);
    }
  }

  ghost predicate OverclaimsAfter(sch: Scheme, id: uint32, src: seq<byte>, n: nat) {
    var r := Skip(Sync(sch).step, State(id, false), src, n);
    r.Some? && Overclaims(sch, r.value.s.id, r.value.held)
  }

  lemma RefusedForOverclaim(sch: Scheme, s: State, src: seq<byte>)
    requires !s.raw
    ensures Step(sch, s, src).Bad? && Step(sch, s, src).error == SliceOutOfRange <==> Overclaims(sch, s.id, src)
  {
    hide Scheme.HeadCheck, Scheme.TailCheck, Scheme.Get;
  }

  lemma {:induction false} SkipStaysLive(sch: Scheme, s: State, src: seq<byte>, n: nat)
    requires !s.raw
    ensures var r := Skip(Sync(sch).step, s, src, n); r.Some? ==> !r.value.s.raw
    decreases n
  {
    hide Step;
    if n > 0 {
      StepSettles(sch, s, src, []);
      var o := Step(sch, s, src);
      if o.Whole? && 0 < o.used <= |src| {
        SkipStaysLive(sch, o.s, src[o.used..], n - 1);
      }
    }
  }

  // Such a frame, for either protocol.  The checks of auth_sha1_v4 need no key, so there anyone can make it.
  function Overclaiming(sch: Scheme, id: uint32): seq<byte> {
    var head := sch.Put(10) + sch.HeadCheck(id, sch.Put(10)) + [254, 0];
    head + sch.TailCheck(id, head)
  }

  lemma OverclaimingOverclaims(sch: Scheme, id: uint32)
    ensures Overclaims(sch, id, Overclaiming(sch, id)) && Step(sch, State(id, false), Overclaiming(sch, id)).Bad?
  {
    hide Scheme.HeadCheck, Scheme.TailCheck, Scheme.Put, Scheme.Get, Step;
    PutGet(sch, 10);
    var f, p := Overclaiming(sch, id), sch.Put(10);
    assert f[..2] == p && f[2..4] == sch.HeadCheck(id, p) && f[4] == 254;
    assert f[..6] == p + sch.HeadCheck(id, p) + [254, 0] && f[6..10] == sch.TailCheck(id, f[..6]);
    RefusedForOverclaim(sch, State(id, false), f);
  }

  // ----- the two objects -----

  lemma EndsWith(a: seq<byte>, b: seq<byte>)
    ensures (a + b)[|a + b| - |b|..] == b
  {
  }

  lemma FiveParts(o: seq<byte>, a: seq<byte>, b: seq<byte>, c: seq<byte>, d: seq<byte>)
    ensures o + a + b + c + d == o + (a + b + c + d)
  {
  }

  class Encoder {
    const sch: Scheme
    var packID: uint32

    constructor (sch: Scheme)
      ensures this.sch == sch && packID == 1
    {
      this.sch := sch;
      packID := 1;
    }

    // packData
    method PackData(buf: Buffer, data: seq<byte>, pad: seq<byte>)
      requires Sound(|pad|, |data|)
      modifies this, buf
      ensures packID == Next(old(packID)) && buf.data == old(buf.data) + Pack(sch, old(packID), pad, data)
    {
      hide PutBE16, PutLE16, Scheme.HeadCheck, Scheme.TailCheck, Scheme.Put, RandPart;
      var packedDataLength := 2 + 2 + 3 + |pad| + |data| + 4;
      if |pad| < 128 {
        packedDataLength := packedDataLength - 2;
      }
      var id := packID;
      packID := Next(packID);
      ghost var was := buf.data;
      PutGet(sch, packedDataLength);
      RandPartLayout(sch, pad);
      var length := sch.Put(packedDataLength);
      buf.Write(length);
      EndsWith(was, length);
      var check := sch.HeadCheck(id, buf.data[|buf.data| - 2..]);
      buf.Write(check);
      buf.Write(RandPart(sch, pad));
      buf.Write(data);
      assert packedDataLength % 0x1_0000 == packedDataLength;
      ghost var body := Body(sch, id, pad, data);
      FiveParts(was, length, check, RandPart(sch, pad), data);
      assert buf.data == was + body && |body| == packedDataLength - 4;
      EndsWith(was, body);
      buf.Write(sch.TailCheck(id, buf.data[|buf.data| - packedDataLength + 4..]));
      assert was + body + sch.TailCheck(id, body) == was + (body + sch.TailCheck(id, body));
    }

    // Encode, once the header packet is out.
    // `whole` is the length of the slice it was given; data is what the header packet has left of it.
    method Encode(buf: Buffer, data: seq<byte>, whole: nat, pads: Noise, ghost overhead: nat)
      requires Pads(pads, overhead) && |data| <= whole
      modifies this, buf
      ensures var fs := PackAll(sch, old(packID), pads, whole, Cut(data, PIECE));
              buf.data == old(buf.data) + Frames(fs) && packID == StateAfter(old(packID), fs)
    {
      hide Pack;
      var b := data;
      ghost var total := buf.data + Frames(PackAll(sch, packID, pads, whole, Cut(data, PIECE)));
      ghost var last := StateAfter(packID, PackAll(sch, packID, pads, whole, Cut(data, PIECE)));
      while |b| > PIECE
        invariant buf.data + Frames(PackAll(sch, packID, pads, whole, Cut(b, PIECE))) == total
        invariant StateAfter(packID, PackAll(sch, packID, pads, whole, Cut(b, PIECE))) == last
      {
        var pad := pads(whole, packID, b[..PIECE]);
        PaddingIsSound(PIECE, whole, overhead, |pad|);
        PackNext(sch, packID, pads, whole, b, buf.data);
        PackData(buf, b[..PIECE], pad);
        b := b[PIECE..];
      }
      if |b| > 0 {
        var pad := pads(whole, packID, b);
        PaddingIsSound(|b|, whole, overhead, |pad|);
        assert b[..|b|] == b && b[|b|..] == [];
        PackNext(sch, packID, pads, whole, b, buf.data);
        PackData(buf, b, pad);
      }
    }
  }

  // One turn of Encode: the first piece is packed, the rest still makes up the whole.
  lemma PackNext(sch: Scheme, id: uint32, pads: Noise, whole: nat, b: seq<byte>, sent: seq<byte>)
    requires b != []
    ensures var r := if |b| < PIECE then |b| else PIECE;
            var f := Pack(sch, id, pads(whole, id, b[..r]), b[..r]);
            var fs, later := PackAll(sch, id, pads, whole, Cut(b, PIECE)),
              PackAll(sch, Next(id), pads, whole, Cut(b[r..], PIECE));
            (sent + f) + Frames(later) == sent + Frames(fs) && StateAfter(Next(id), later) == StateAfter(id, fs)
  {
    hide Pack;
    var r := if |b| < PIECE then |b| else PIECE;
    if |b| <= PIECE {
      assert b[..r] == b && b[r..] == [];
    }
    assert Cut(b, PIECE) == [b[..r]] + Cut(b[r..], PIECE);
    var fs, later := PackAll(sch, id, pads, whole, Cut(b, PIECE)),
      PackAll(sch, Next(id), pads, whole, Cut(b[r..], PIECE));
    assert Cut(b, PIECE)[1..] == Cut(b[r..], PIECE);
    assert fs[1..] == later;
    var f := fs[0].frame;
    assert (sent + f) + Frames(later) == sent + (f + Frames(later));
  }

  lemma ShortWaits(sch: Scheme, s: State, src: seq<byte>)
    ensures |src| <= 4 && !s.raw ==> Step(sch, s, src) == More(s)
  {
  }

  class Decoder {
    const sch: Scheme
    var rawTrans: bool
    var recvID: uint32

    constructor (sch: Scheme)
      ensures this.sch == sch && AsState() == State(1, false)
    {
      this.sch := sch;
      rawTrans := false;
      recvID := 1;
    }

    ghost function AsState(): State
      reads this
    {
      State(recvID, rawTrans)
    }

    method Decode(dst: Buffer, src: Buffer) returns (err: Option<DecodeError>)
      requires dst != src
      modifies this, dst, src
      ensures var d := DecodeAll(Sync(sch).step, old(AsState()), old(src.data));
              err == d.error && AsState() == d.s && src.data == d.rest && dst.data == old(dst.data) + d.out
    {
      if rawTrans {
        AllAtOnce(Sync(sch).step, AsState(), src.data);
        hide Step, DecodeAll;
        dst.Write(src.data);
        src.Reset();
        return None;
      }
      err := DecodeFrames(dst, src);
    }

    method DecodeFrames(dst: Buffer, src: Buffer) returns (err: Option<DecodeError>)
      requires dst != src && !rawTrans
      modifies this, dst, src
      ensures var d := DecodeAll(Sync(sch).step, old(AsState()), old(src.data));
              err == d.error && AsState() == d.s && src.data == d.rest && dst.data == old(dst.data) + d.out
    {
      hide Step, DecodeAll;
      ghost var step := Sync(sch).step;
      ghost var whole := DecodeAll(step, AsState(), src.data);
      ghost var out := [];
      while |src.data| > 4
        invariant !rawTrans && dst.data == old(dst.data) + out
        invariant var d := DecodeAll(step, AsState(), src.data); d.(out := out + d.out) == whole
        decreases |src.data|
      {
        ghost var s, b := AsState(), src.data;
        OneTurn(step, s, b, out);
        var taken;
        taken, err := Turn(dst, src);
        if err != None {
          return;
        }
        if !taken {
          break;
        }
        ghost var payload := Step(sch, s, b).payload;
        assert (old(dst.data) + out) + payload == old(dst.data) + (out + payload);
        out := out + payload;
      }
      ShortWaits(sch, AsState(), src.data);
      StopsHere(step, AsState(), src.data);
      assert out + [] == out;
      err := None;
    }

    // The body of the loop: takes a frame, or finds that there is no whole one, or refuses it.
    method Turn(dst: Buffer, src: Buffer) returns (taken: bool, err: Option<DecodeError>)
      requires dst != src && !rawTrans && |src.data| > 4
      modifies this, dst, src
      ensures match Step(sch, old(AsState()), old(src.data)) {
        case More(s) => !taken && err == None && AsState() == s == old(AsState()) && src.data == old(src.data)
          && dst.data == old(dst.data)
        case Bad(s, e) => err == Some(e) && AsState() == s && src.data == [] && dst.data == old(dst.data)
        case Whole(s, used, payload) => taken && err == None && AsState() == s && !s.raw && 0 < used <= |old(src.data)|
          && src.data == old(src.data)[used..] && dst.data == old(dst.data) + payload
      }
    {
      hide Scheme.HeadCheck, Scheme.TailCheck, Scheme.Get;
      taken, err := false, None;
      var b := src.data;
      if sch.HeadCheck(recvID, b[..2]) != b[2..4] {
        src.Reset();
        return false, Some(MacError);
      }
      var length := sch.Get(b[..2]);
      if length >= 8192 || length < 7 {
        rawTrans := true;
        src.Reset();
        return false, Some(LengthError);
      }
      if length > |b| {
        return;
      }
      if sch.TailCheck(recvID, b[..length - 4]) != b[length - 4..length] {
        rawTrans := true;
        src.Reset();
        return false, Some(ChecksumError);
      }
      recvID := Next(recvID);
      var pos: int := b[4];
      if pos < 255 {
        pos := pos + 4;
      } else {
        pos := sch.Get(b[5..7]) as int + 4;
      }
      if pos > length - 4 {
        src.Reset();
        return false, Some(SliceOutOfRange);
      }
      dst.Write(b[pos..length - 4]);
      src.Next(length);
      taken := true;
    }
  }

  // The connection wrapper of stream.go, around this decoder.
  class AuthConn {
    const protocol: Decoder
    const decoded: Buffer
    const underDecoded: Buffer

    ghost predicate Valid()
    {
      decoded != underDecoded
    }

    ghost function AsConn(): Conn<State>
      reads protocol, decoded, underDecoded
    {
      Conn(protocol.AsState(), decoded.data, underDecoded.data)
    }

    constructor (sch: Scheme)
      ensures Valid() && fresh(protocol) && fresh(decoded) && fresh(underDecoded)
      ensures protocol.sch == sch && AsConn() == Conn(State(1, false), [], [])
    {
      protocol := new Decoder(sch);
      decoded := new Buffer();
      underDecoded := new Buffer();
    }

    // Reads into b; `piece` is what the connection under it gives when asked.
    method Read(b: array<byte>, piece: seq<byte>) returns (n: nat, err: Option<DecodeError>)
      requires Valid()
      modifies protocol, decoded, underDecoded, b
      ensures var r := ConnRead(Sync(protocol.sch).step, old(AsConn()), b.Length, piece);
              AsConn() == r.conn && err == r.error && n == |r.result| <= b.Length && b[..n] == r.result
    {
      hide DecodeAll, Step, Sync;
      err := None;
      if |decoded.data| == 0 {
        underDecoded.Write(piece);
        err := protocol.Decode(decoded, underDecoded);
        if err != None {
          return 0, err;
        }
      }
      n := Serve(b);
    }

    // Hands out what is decoded, as far as b goes.
    method Serve(b: array<byte>) returns (n: nat)
      modifies decoded, b
      ensures n == Min(b.Length, |old(decoded.data)|) && n <= b.Length
      ensures b[..n] == old(decoded.data)[..n] && decoded.data == old(decoded.data)[n..]
    {
      n := CopyAt(b, 0, decoded.data);
      assert b[0..0 + n] == b[..n];
      decoded.Next(n);
    }
  }
}
