/**
 The frames of auth_chain_a and auth_chain_b after the header packet.  Length and padding of a frame
 are derived from the hash of the one before, through a generator reseeded for every frame; looking
 at a frame overwrites two bytes of that hash.
 */
module AuthChainSpec {
  import opened Wrappers
  import opened Bytes
  import opened Reassembly
  import opened XorShift
  import opened XorStream
  import AF = AuthFrame

  // ----- padding -----

  datatype Variant =
    | ChainA
    | ChainB(sizes: seq<nat>, sizes2: seq<nat>, overhead: nat)
  {
    // The size tables initDataSize leaves: sorted, not empty, all entries below 1440.
    ghost predicate Valid() {
      ChainB? ==> Table(sizes) && Table(sizes2)
    }
  }

  ghost predicate Table(sizes: seq<nat>) {
    && |sizes| > 0
    && (forall i, j :: 0 <= i < j < |sizes| ==> sizes[i] <= sizes[j])
    && (forall i :: 0 <= i < |sizes| ==> sizes[i] < 1440)
  }

  // sort.Search on a sorted table: the first entry that is at least x
  function Search(sizes: seq<nat>, x: nat): (i: nat)
    ensures i <= |sizes| && (forall j :: 0 <= j < i ==> sizes[j] < x) && (i < |sizes| ==> sizes[i] >= x)
  {
    if sizes == [] || sizes[0] >= x then 0 else 1 + Search(sizes[1..], x)
  }

  datatype Drawn = Drawn(length: nat, hash: Hash, prng: Prng)

  // An entry of a table, drawn from those that are at least x: how much it exceeds x
  function Pick(sizes: seq<nat>, x: nat, v: bv64): (p: Option<nat>)
    requires Table(sizes)
    ensures p.Some? ==> x + p.value < 1440
  {
    var i := Search(sizes, x) + Modulo(v, |sizes|);
    if i < |sizes| then Some(sizes[i] - x) else None
  }

  // What auth_chain_b draws from a freshly seeded generator: the length, never negative because the
  // tables are sorted, and the generator after it
  function FromTables(sizes: seq<nat>, sizes2: seq<nat>, overhead: nat, length: nat, r: Prng): (d: (nat, Prng))
    requires Table(sizes) && Table(sizes2)
    ensures length + d.0 < 1440 || d.0 < 1021
  {
    hide Draw, Modulo, Search, Pick, ByLength;
    var (v1, r1) := Draw(r);
    match Pick(sizes, length + overhead, v1)
    case Some(pad) => (pad, r1)
    case None =>
      var (v2, r2) := Draw(r1);
      match Pick(sizes2, length + overhead, v2)
      case Some(pad) => (pad, r2)
      case None => if Modulo(v2, |sizes2|) < |sizes2| - 1 then (0, r2) else ByLength(length, r2)
  }

  // What auth_chain_a draws, and auth_chain_b in the end: less padding for longer data
  function ByLength(length: nat, r: Prng): (d: (nat, Prng))
    ensures d.0 < 1021
  {
    var (v, r1) := Draw(r);
    (Modulo(v, if length > 1300 then 31 else if length > 900 then 127 else if length > 400 then 521 else 1021), r1)
  }

  // getRandLength of the two protocols: the padding's length, the hash and the generator after it.
  // With it, a frame of at most 2800 bytes of data stays below the limit of 4096.
  function RandLength(v: Variant, length: nat, h: Hash, r: Prng): (d: Drawn)
    requires v.Valid()
    ensures length <= 2800 ==> length + d.length < 4096
  {
    if length > 1440 || (v.ChainB? && length == 1440) then Drawn(0, h, r)
    else
      var h1 := Overwritten(h, length);
      var d := if v.ChainA? then ByLength(length, Seeded(h1))
               else FromTables(v.sizes, v.sizes2, v.overhead, length, Seeded(h1));
      Drawn(d.0, h1, d.1)
  }

  // Only the hash from byte 2 on matters, and that stays; an unused generator stays too.
  lemma RandLengthIgnores(v: Variant, length: nat, h: Hash, r: Prng, h': Hash, r': Prng)
    requires v.Valid() && h[2..] == h'[2..]
    ensures var d, d' := RandLength(v, length, h, r), RandLength(v, length, h', r');
            d.length == d'.length && d.hash[2..] == h[2..] && d'.hash[2..] == h[2..]
            && (d.length > 0 ==> d.prng == d'.prng)
  {
    hide Seeded, ByLength, FromTables, Table;
    assert Overwritten(h, length) == Overwritten(h', length);
    assert Overwritten(h, length)[2..] == h[2..];
  }

  // getRandStartPos
  function StartPos(length: nat, r: Prng): (p: (nat, Prng))
    ensures length > 0 ==> p.0 < length
  {
    if length == 0 then (0, r)
    else
      var (v, r1) := Draw(r);
      (Modulo(v, 8589934609) % length, r1)
  }

  // ----- frames -----

  const PIECE := 2800

  // What both ends hold: the user key, HMAC-MD5, the RC4 key stream, the protocol.
  datatype Keys = Keys(userKey: seq<byte>, hmac: (seq<byte>, seq<byte>) -> seq<byte>, ks: nat -> byte,
                       variant: Variant) {
    ghost predicate Valid() {
      variant.Valid()
    }

    function HmacMD5(id: uint32, data: seq<byte>): Hash {
      AF.First(hmac(userKey + AF.PutLE32(id), data), 16)
    }
  }

  // The sender: hash of its last frame, number of the next, position in the key stream, generator.
  datatype Sender = Sender(hash: Hash, id: uint32, at: nat, prng: Prng)

  // The receiver has the same, and a flag for raw transfer.
  datatype State = State(hash: Hash, id: uint32, at: nat, prng: Prng, raw: bool)

  function HiddenLength(h: Hash): uint16 {
    GetLE16(h[14..16])
  }

  // putMixedRandDataAndData: the data somewhere inside the padding
  function Mixed(data: seq<byte>, pad: seq<byte>, r: Prng): (seq<byte>, Prng) {
    if data == [] then (pad, r)
    else if |pad| > 0 then
      var (start, r1) := StartPos(|pad|, r);
      (pad[..start] + data + pad[start..], r1)
    else (data, r)
  }

  // packData, for a padding of the length drawn
  function Pack(k: Keys, t: Sender, pad: seq<byte>, data: seq<byte>): (seq<byte>, Sender)
    requires k.Valid()
  {
    var d := RandLength(k.variant, |data|, t.hash, t.prng);
    var (mixed, r) := Mixed(Xor(k.ks, t.at, data), pad, d.prng);
    var body := PutLE16(Xor16(|data| % 0x1_0000, HiddenLength(t.hash))) + mixed;
    var h := k.HmacMD5(t.id, body);
    (body + h[..2], Sender(h, AF.Next(t.id), t.at + |data|, r))
  }

  // The first frame's data starts with two bytes that are not payload.
  function Payload(id: uint32, data: seq<byte>): seq<byte> {
    if id != 1 then data else if |data| >= 2 then data[2..] else []
  }

  // Where the data starts within the padding, and the generator after it has been drawn.
  function Start(size: nat, padding: nat, r: Prng): (p: (nat, Prng))
    ensures p.0 <= padding
  {
    if size > 0 && padding > 0 then StartPos(padding, r) else (0, r)
  }

  // A whole frame: checked, decrypted and put out.  SliceOutOfRange stands for the run-time panic on a first
  // frame of less than two bytes.
  function Open(k: Keys, s: State, size: nat, padding: nat, src: seq<byte>): Outcome<State>
    requires 4 + size + padding <= |src|
  {
    hide Start, Keys.HmacMD5, Xor;
    var length := size + padding;
    var h := k.HmacMD5(s.id, src[..length + 2]);
    if h[..2] != src[length + 2..length + 4] then Bad(s.(raw := true), ChecksumError)
    else
      var (start, r) := Start(size, padding, s.prng);
      var data := Xor(k.ks, s.at, src[2 + start..2 + start + size]);
      var s1 := State(h, AF.Next(s.id), s.at + size, r, false);
      if s.id == 1 && size < 2 then Bad(s1.(id := s.id), SliceOutOfRange)
        else Whole(s1, length + 4, Payload(s.id, data))
  }

  // One turn of the decode loop
  function Step(k: Keys, s: State, src: seq<byte>): Outcome<State>
    requires k.Valid()
  {
    hide RandLength, Xor16, GetLE16;
    if s.raw then if src == [] then More(s) else Whole(s, |src|, src)
    else if |src| <= 4 then More(s)
    else
      var size: nat := Xor16(GetLE16(src[..2]), HiddenLength(s.hash));
      var d := RandLength(k.variant, size, s.hash, s.prng);
      var s1 := s.(hash := d.hash, prng := d.prng);
      if size + d.length >= 4096 then Bad(s1.(raw := true), LengthError)
      else if 4 + size + d.length > |src| then More(s1)
      else Open(k, s1, size, d.length, src)
  }

  // ----- the two in step -----

  // What packData makes frames of: at most one piece of a write, and padding of the length drawn.
  ghost predicate Genuine(k: Keys, t: Sender, pad: seq<byte>, data: seq<byte>)
    requires k.Valid()
  {
    |data| <= PIECE && |pad| == RandLength(k.variant, |data|, t.hash, t.prng).length
  }

  // What a sender may put into its next frame so that it is taken at once: two bytes of preamble at
  // least in a frame numbered 1, and data or padding.  Encode cuts no empty pieces.
  ghost predicate MaySend(k: Keys, t: Sender, pad: seq<byte>, data: seq<byte>)
    requires k.Valid()
  {
    Genuine(k, t, pad, data) && (t.id == 1 ==> |data| >= 2) && |data| + |pad| > 0
  }

  // Any data within those limits can be sent, with padding of the length drawn.
  lemma AnyDataMayBeSent(k: Keys, t: Sender, data: seq<byte>) returns (pad: seq<byte>)
    requires k.Valid() && 0 < |data| <= PIECE && (t.id == 1 ==> |data| >= 2)
    ensures MaySend(k, t, pad, data)
  {
    pad := seq(RandLength(k.variant, |data|, t.hash, t.prng).length, _ => 0);
  }

  // The two bytes of the hash that looking at a frame overwrites may differ, the generators too.
  ghost predicate InStep(s: State, t: Sender) {
    !s.raw && s.id == t.id && s.at == t.at && s.hash[2..] == t.hash[2..]
  }

  ghost function Sync(k: Keys): Protocol<State, Sender>
    requires k.Valid()
  {
    Protocol(
      (s: State, b) => Step(k, s, b),
      (t: Sender, f: Sent<Sender>) => exists pad, data ::
          MaySend(k, t, pad, data) && f == Sent(Pack(k, t, pad, data).0, Payload(t.id, data), Pack(k, t, pad, data).1),
      (s: State, t: Sender) => InStep(s, t))
  }

  function Head(t: Sender, size: nat): seq<byte> {
    PutLE16(Xor16(size % 0x1_0000, HiddenLength(t.hash)))
  }

  lemma Slices(a: seq<byte>, p: seq<byte>, data: seq<byte>, q: seq<byte>, c: seq<byte>, rest: seq<byte>)
    requires |a| == 2 && |c| == 2
    ensures var src := (a + (p + data + q)) + c + rest; var n := 4 + |p| + |data| + |q|;
            |(a + (p + data + q)) + c| == n && src[..2] == a && src[..n - 2] == a + (p + data + q)
            && src[n - 2..n] == c && src[n..] == rest && src[2 + |p|..2 + |p| + |data|] == data
  {
  }

  lemma MixedLayout(data: seq<byte>, pad: seq<byte>, d: Drawn) returns (p: seq<byte>, q: seq<byte>)
    requires |pad| == d.length
    ensures |p| == Start(|data|, d.length, d.prng).0 && Mixed(data, pad, d.prng).0 == p + data + q && |p| + |q| == |pad|
  {
    hide Modulo;
    if data == [] {
      p, q := [], pad;
    } else {
      p, q := pad[..Start(|data|, d.length, d.prng).0], pad[Start(|data|, d.length, d.prng).0..];
    }
  }

  // What a frame looks like on the wire.
  lemma PackLayout(k: Keys, t: Sender, pad: seq<byte>, data: seq<byte>, rest: seq<byte>)
    requires k.Valid() && Genuine(k, t, pad, data)
    ensures var (f, t1) := Pack(k, t, pad, data);
            var d := RandLength(k.variant, |data|, t.hash, t.prng);
            var n := 4 + |data| + |pad|; var start := Start(|data|, d.length, d.prng).0; var src := f + rest;
            |f| == n && src[..2] == Head(t, |data|) && t1.hash == k.HmacMD5(t.id, src[..n - 2])
            && src[n - 2..n] == t1.hash[..2] && src[n..] == rest
            && start <= |pad| && src[2 + start..2 + start + |data|] == Xor(k.ks, t.at, data)
  {
    hide RandLength, Xor16, PutLE16, StartPos, Keys.HmacMD5, Xor, Mixed, HiddenLength;
    var d := RandLength(k.variant, |data|, t.hash, t.prng);
    var p, q := MixedLayout(Xor(k.ks, t.at, data), pad, d);
    var (f, t1) := Pack(k, t, pad, data);
    PutIsTwo(Xor16(|data| % 0x1_0000, HiddenLength(t.hash)));
    Slices(Head(t, |data|), p, Xor(k.ks, t.at, data), q, t1.hash[..2], rest);
  }

  lemma PutIsTwo(v: uint16)
    ensures |PutLE16(v)| == 2 && GetLE16(PutLE16(v)) == v
  {
    RoundTrip16(v);
  }

  lemma LastTwo(h: Hash)
    ensures h[2..][12..14] == h[14..16]
  {
  }

  // The receiver recovers the length of the data and draws the same padding.
  lemma SizeIsSeen(k: Keys, s: State, t: Sender, size: nat)
    requires k.Valid() && InStep(s, t) && size <= PIECE
    ensures |Head(t, size)| == 2 && Xor16(GetLE16(Head(t, size)), HiddenLength(s.hash)) == size
    ensures var d, e := RandLength(k.variant, size, s.hash, s.prng), RandLength(k.variant, size, t.hash, t.prng);
            d.length == e.length && Start(size, d.length, d.prng).0 == Start(size, e.length, e.prng).0
            && size + d.length < 4096 && d.hash[2..] == t.hash[2..]
  {
    hide RandLength, Xor16, PutLE16, GetLE16, StartPos;
    LastTwo(s.hash);
    LastTwo(t.hash);
    assert size % 0x1_0000 == size;
    PutIsTwo(Xor16(size, HiddenLength(t.hash)));
    Xor16Twice(size, HiddenLength(t.hash));
    RandLengthIgnores(k.variant, size, s.hash, s.prng, t.hash, t.prng);
  }

  // What becomes of a genuine frame, exactly.  It waits if it has neither data nor padding and nothing
  // follows it, since the loop wants more than four bytes; the run-time panic SliceOutOfRange comes of
  // less than two bytes of data in a frame numbered 1; every other frame is taken off the front, with
  // its payload, and the two ends stay in step.
  lemma FrameOutcome(k: Keys, s: State, t: Sender, pad: seq<byte>, data: seq<byte>, rest: seq<byte>)
    requires k.Valid() && InStep(s, t) && Genuine(k, t, pad, data)
    ensures var o := Step(k, s, Pack(k, t, pad, data).0 + rest);
            && (o.More? <==> |data| + |pad| + |rest| == 0)
            && (o.Bad? <==> |data| + |pad| + |rest| > 0 && t.id == 1 && |data| < 2)
            && (o.More? ==> o.s == s)
            && (o.Bad? ==> o.error == SliceOutOfRange)
            && (o.Whole? ==> o.used == |Pack(k, t, pad, data).0| > 0 && o.payload == Payload(t.id, data)
                             && InStep(o.s, Pack(k, t, pad, data).1))
  {
    hide RandLength, Xor16, GetLE16, Start, Keys.HmacMD5, Xor, Head, HiddenLength, Mixed;
    PackLayout(k, t, pad, data, rest);
    SizeIsSeen(k, s, t, |data|);
    XorInvolution(k.ks, t.at, data);
  }

  lemma NothingDrawn(sizes: seq<nat>, sizes2: seq<nat>, r: Prng)
    requires Table(sizes) && Table(sizes2) && sizes[0] == sizes[|sizes| - 1] == 4
    ensures FromTables(sizes, sizes2, 4, 0, r).0 == 0
  {
    hide Draw, Modulo;
    assert Search(sizes, 4) == 0;
  }

  lemma NoPadding(v: Variant, h: Hash, r: Prng)
    requires v.Valid() && v.ChainB? && v.overhead == 4 && v.sizes[0] == v.sizes[|v.sizes| - 1] == 4
    ensures RandLength(v, 0, h, r).length == 0
  {
    hide Seeded, Overwritten, FromTables;
    NothingDrawn(v.sizes, v.sizes2, Seeded(Overwritten(h, 0)));
  }

  // A frame that waits so does occur: with an overhead of 4 and all sizes in the first table 4, no padding
  // is drawn for no data, whatever the hash.  When anything follows, it is taken.
  lemma BareFrame(k: Keys, s: State, t: Sender, rest: seq<byte>)
    requires k.Valid() && k.variant.ChainB? && k.variant.overhead == 4 && InStep(s, t)
    requires k.variant.sizes[0] == k.variant.sizes[|k.variant.sizes| - 1] == 4
    ensures Genuine(k, t, [], []) && Step(k, s, Pack(k, t, [], []).0) == More(s)
    ensures t.id != 1 && rest != [] ==> Step(k, s, Pack(k, t, [], []).0 + rest).Whole?
  {
    NoPadding(k.variant, t.hash, t.prng);
    assert Genuine(k, t, [], []);
    hide Step, Pack, Genuine, InStep, Keys.Valid;
    FrameOutcome(k, s, t, [], [], []);
    assert Pack(k, t, [], []).0 + [] == Pack(k, t, [], []).0;
    FrameOutcome(k, s, t, [], [], rest);
  }

  // Such tables: 4 and 8 are the fewest entries the two can have, and 4 is the protocol's own overhead.
  lemma BareFrameOccurs(userKey: seq<byte>, hmac: (seq<byte>, seq<byte>) -> seq<byte>, ks: nat -> byte, t: Sender,
                        next: byte)
    ensures var k := Keys(userKey, hmac, ks, ChainB([4, 4, 4, 4], [4, 4, 4, 4, 4, 4, 4, 4], 4));
            var s := State(t.hash, t.id, t.at, t.prng, false);
            && k.Valid() && InStep(s, t) && Genuine(k, t, [], []) && Step(k, s, Pack(k, t, [], []).0) == More(s)
            && (t.id != 1 ==> Step(k, s, Pack(k, t, [], []).0 + [next]).Whole?)
  {
    var k := Keys(userKey, hmac, ks, ChainB([4, 4, 4, 4], [4, 4, 4, 4, 4, 4, 4, 4], 4));
    var s := State(t.hash, t.id, t.at, t.prng, false);
    assert k.Valid() && InStep(s, t);
    hide Step, Pack, Genuine;
    BareFrame(k, s, t, [next]);
  }

  // Part of a frame is left alone.  Looking at it may overwrite the hash and reseed the generator,
  // which makes no difference.
  lemma StepWaits(k: Keys, s: State, t: Sender, pad: seq<byte>, data: seq<byte>, part: seq<byte>)
    requires k.Valid() && InStep(s, t) && MaySend(k, t, pad, data) && part < Pack(k, t, pad, data).0
    ensures var o := Step(k, s, part); o.More? && InStep(o.s, t)
  {
    hide RandLength, Xor16, GetLE16, Start, Keys.HmacMD5, Xor, Head, HiddenLength, Mixed;
    var f := Pack(k, t, pad, data).0;
    assert f + [] == f;
    PackLayout(k, t, pad, data, []);
    SizeIsSeen(k, s, t, |data|);
    hide Pack;
    if |part| > 4 {
      assert part[..2] == f[..2];
    }
  }

  lemma IsLockstep(k: Keys)
    requires k.Valid()
    ensures Lockstep(Sync(k))
  {
    hide Step, Pack, RandLength, InStep, MaySend, Payload;
    var p := Sync(k);
    forall s, t, f, rest | p.inStep(s, t) && p.emits(t, f)
      ensures var o := p.step(s, f.frame + rest);
              o.Whole? && o.used == |f.frame| > 0 && o.payload == f.payload && p.inStep(o.s, f.after)
    {
      TakesSent(k, s, t, f, rest);
    }
    forall s, t, f, part | p.inStep(s, t) && p.emits(t, f) && part < f.frame
      ensures var o := p.step(s, part); o.More? && p.inStep(o.s, t)
    {
      WaitsForSent(k, s, t, f, part);
    }
    EmptyWaits(k);
  }

  lemma TakesSent(k: Keys, s: State, t: Sender, f: Sent<Sender>, rest: seq<byte>)
    requires k.Valid() && InStep(s, t) && Sync(k).emits(t, f)
    ensures var o := Step(k, s, f.frame + rest);
            o.Whole? && o.used == |f.frame| > 0 && o.payload == f.payload && InStep(o.s, f.after)
  {
    hide Step, Pack, RandLength, InStep;
    var pad, data :| MaySend(k, t, pad, data)
      && f == Sent(Pack(k, t, pad, data).0, Payload(t.id, data), Pack(k, t, pad, data).1);
    FrameOutcome(k, s, t, pad, data, rest);
  }

  lemma WaitsForSent(k: Keys, s: State, t: Sender, f: Sent<Sender>, part: seq<byte>)
    requires k.Valid() && InStep(s, t) && Sync(k).emits(t, f) && part < f.frame
    ensures var o := Step(k, s, part); o.More? && InStep(o.s, t)
  {
    hide Step, Pack, RandLength, InStep;
    var pad, data :| MaySend(k, t, pad, data)
      && f == Sent(Pack(k, t, pad, data).0, Payload(t.id, data), Pack(k, t, pad, data).1);
    StepWaits(k, s, t, pad, data, part);
  }

  lemma EmptyWaits(k: Keys)
    requires k.Valid()
    ensures forall s :: Step(k, s, []) == More(s)
  {
  }

  // ----- whole streams -----

  // The frames for the pieces of one or more writes; `pads` supplies the random bytes.
  function PackAll(k: Keys, t: Sender, pads: (Sender, seq<byte>) -> seq<byte>,
                   chunks: seq<seq<byte>>): seq<Sent<Sender>>
    requires k.Valid()
    decreases |chunks|
  {
    if chunks == [] then []
    else
      var (f, t1) := Pack(k, t, pads(t, chunks[0]), chunks[0]);
      [Sent(f, Payload(t.id, chunks[0]), t1)] + PackAll(k, t1, pads, chunks[1..])
  }

  lemma PackAdvances(k: Keys, t: Sender, pad: seq<byte>, data: seq<byte>)
    requires k.Valid()
    ensures Pack(k, t, pad, data).1.id == AF.Next(t.id)
  {
    hide RandLength, Mixed, Xor, Xor16, HiddenLength;
  }

  // Pieces of 1 to 2800 bytes, and not less than two bytes whenever the frame's number is 1.
  ghost predicate MayBeSent(id: uint32, chunks: seq<seq<byte>>)
    decreases |chunks|
  {
    chunks == [] || (0 < |chunks[0]| <= PIECE && (id == 1 ==> |chunks[0]| >= 2) && MayBeSent(AF.Next(id), chunks[1..]))
  }

  ghost predicate Pads(k: Keys, pads: (Sender, seq<byte>) -> seq<byte>)
    requires k.Valid()
  {
    forall t, c :: |pads(t, c)| == RandLength(k.variant, |c|, t.hash, t.prng).length
  }

  // What is left of the pieces when every frame numbered 1 has lost two bytes.
  function Stripped(id: uint32, chunks: seq<seq<byte>>): seq<byte>
    decreases |chunks|
  {
    if chunks == [] then [] else Payload(id, chunks[0]) + Stripped(AF.Next(id), chunks[1..])
  }

  lemma {:induction false} PackAllIsChain(k: Keys, t: Sender, pads: (Sender, seq<byte>) -> seq<byte>,
                                          chunks: seq<seq<byte>>)
    requires k.Valid() && Pads(k, pads) && MayBeSent(t.id, chunks)
    ensures var fs := PackAll(k, t, pads, chunks);
            Chain(Sync(k), t, fs) && Payloads(fs) == Stripped(t.id, chunks)
    decreases |chunks|
  {
    hide RandLength, Pack;
    if chunks != [] {
      var c := chunks[0];
      var pad := pads(t, c);
      var (f, t1) := Pack(k, t, pad, c);
      PackAdvances(k, t, pad, c);
      PackAllIsChain(k, t1, pads, chunks[1..]);
      var fs := PackAll(k, t, pads, chunks);
      assert MaySend(k, t, pad, c);
      assert fs[0] == Sent(f, Payload(t.id, c), t1);
      assert fs[1..] == PackAll(k, t1, pads, chunks[1..]);
      assert Sync(k).emits(t, fs[0]);
    }
  }

  // For any data, any padding of the lengths drawn, however the bytes arrive and however often a
  // partial frame is looked at: the data comes out, in order, with nothing left over, less two bytes
  // of each frame numbered 1; hash chain, numbers and key streams agree afterwards.
  lemma StreamRoundTrip(k: Keys, s: State, t: Sender, pads: (Sender, seq<byte>) -> seq<byte>, chunks: seq<seq<byte>>,
                        pieces: seq<seq<byte>>)
    requires k.Valid() && Pads(k, pads) && MayBeSent(t.id, chunks) && InStep(s, t)
    requires Concat(pieces) == Frames(PackAll(k, t, pads, chunks))
    ensures var d := Feed(Sync(k).step, Receiver(s, []), pieces);
            d.error == None && d.out == Stripped(t.id, chunks) && d.rest == []
            && InStep(d.s, StateAfter(t, PackAll(k, t, pads, chunks)))
  {
    IsLockstep(k);
    PackAllIsChain(k, t, pads, chunks);
    hide Lockstep, Chain, PackAll, Feed, InStep, Stripped, Pads, MayBeSent;
    FeedDeliversAll(Sync(k), s, t, PackAll(k, t, pads, chunks), pieces);
  }

  // The same through Conn.Read, whatever the sizes of the buffers it is given, and at any time: while the
  // bytes taken are some of those sent, no read fails and what has been read is a prefix of the data; once
  // all have been taken, it is all there, read or decoded.
  lemma ConnRoundTrip(k: Keys, s: State, t: Sender, pads: (Sender, seq<byte>) -> seq<byte>, chunks: seq<seq<byte>>,
                      calls: seq<(nat, seq<byte>)>)
    requires k.Valid() && Pads(k, pads) && MayBeSent(t.id, chunks) && InStep(s, t)
    requires Concat(PiecesTaken(Sync(k).step, Conn(s, [], []), calls)) <= Frames(PackAll(k, t, pads, chunks))
    ensures var r := ReadAll(Sync(k).step, Conn(s, [], []), calls);
            r.error == None && r.result + r.conn.decoded <= Stripped(t.id, chunks)
            && (Concat(PiecesTaken(Sync(k).step, Conn(s, [], []), calls)) == Frames(PackAll(k, t, pads, chunks))
                ==> r.result + r.conn.decoded == Stripped(t.id, chunks) && r.conn.underDecoded == [])
  {
    IsLockstep(k);
    PackAllIsChain(k, t, pads, chunks);
    hide Lockstep, Chain, PackAll, ReadAll, PiecesTaken, InStep, Stripped, Pads, MayBeSent;
    ConnDelivers(Sync(k), s, t, PackAll(k, t, pads, chunks), calls);
  }

  // ----- streams from anyone -----

  // Receivers that differ in the two bytes of the hash and the generator that looking changes
  ghost predicate SameState(s: State, t: State) {
    !s.raw && !t.raw && s.id == t.id && s.at == t.at && s.hash[2..] == t.hash[2..]
  }

  // They see the same length and draw the same padding.
  lemma SameDraw(k: Keys, s: State, t: State, size: nat)
    requires k.Valid() && SameState(s, t)
    ensures HiddenLength(s.hash) == HiddenLength(t.hash)
    ensures var d, e := RandLength(k.variant, size, s.hash, s.prng), RandLength(k.variant, size, t.hash, t.prng);
            d.length == e.length && Start(size, d.length, d.prng).0 == Start(size, e.length, e.prng).0
            && d.hash[2..] == s.hash[2..] && e.hash[2..] == t.hash[2..]
  {
    hide RandLength, GetLE16, StartPos;
    assert s.hash[2..][12..14] == s.hash[14..16] && t.hash[2..][12..14] == t.hash[14..16];
    RandLengthIgnores(k.variant, size, s.hash, s.prng, t.hash, t.prng);
  }

  lemma StepSettles(k: Keys, s: State, t: State, src: seq<byte>, more: seq<byte>)
    requires k.Valid() && SameState(s, t)
    ensures Step(k, s, src).More? <==> Step(k, t, src).More?
    ensures SettledOn((s: State, t: State) => SameState(s, t), Step(k, s, src), Step(k, t, src + more), t, |src|)
  {
    hide RandLength, Xor16, GetLE16, HiddenLength, Open, Start;
    if |src| > 4 {
      AF.Prefixes(src, more, 2);
      var size: nat := Xor16(GetLE16(src[..2]), HiddenLength(s.hash));
      SameDraw(k, s, t, size);
      var d, e := RandLength(k.variant, size, s.hash, s.prng), RandLength(k.variant, size, t.hash, t.prng);
      if size + d.length < 4096 && 4 + size + d.length <= |src| {
        OpenSettles(k, s.(hash := d.hash, prng := d.prng), t.(hash := e.hash, prng := e.prng), size, d.length, src,
          more);
        OpenSettles(k, s.(hash := d.hash, prng := d.prng), t.(hash := e.hash, prng := e.prng), size, d.length, src, []);
        assert src + [] == src;
      }
    }
  }

  lemma OpenSettles(k: Keys, s: State, t: State, size: nat, padding: nat, src: seq<byte>, more: seq<byte>)
    requires SameState(s, t) && 4 + size + padding <= |src|
             && Start(size, padding, s.prng).0 == Start(size, padding, t.prng).0
    ensures var o, later := Open(k, s, size, padding, src), Open(k, t, size, padding, src + more);
            !o.More? && !later.More? && SettledOn((s: State, t: State) => SameState(s, t), o, later, t, |src|)
  {
    hide Start, Keys.HmacMD5, Xor, Payload, AF.Next;
    AF.Prefixes(src, more, size + padding + 2);
    AF.Prefixes(src, more, size + padding + 4);
    AF.Prefixes(src, more, 2 + Start(size, padding, s.prng).0 + size);
  }

  lemma StepIsSettled(k: Keys)
    requires k.Valid()
    ensures Settled(Sync(k).step, (s: State, t: State) => SameState(s, t))
  {
    hide Step, SameState;
    forall s, t, src | SameState(s, t)
      ensures Step(k, s, src).More? <==> Step(k, t, src).More?
    {
      StepSettles(k, s, t, src, []);
    }
    forall s, t, src, more | SameState(s, t)
      ensures SettledOn((s: State, t: State) => SameState(s, t), Step(k, s, src), Step(k, t, src + more), t, |src|)
    {
      StepSettles(k, s, t, src, more);
    }
  }

  // For every stream of bytes, sent by whomever: how it is cut into pieces makes no difference, although
  // every look at a partial frame changes the state.
  lemma Fragmentation(k: Keys, s: State, pieces: seq<seq<byte>>)
    requires k.Valid() && !s.raw
    ensures SameOutput(Feed(Sync(k).step, Receiver(s, []), pieces), DecodeAll(Sync(k).step, s, Concat(pieces)))
  {
    StepIsSettled(k);
    EmptyWaits(k);
    hide Settled, Feed, DecodeAll, Step;
    assert [] + Concat(pieces) == Concat(pieces);
    FragmentationIsInvisible(Sync(k).step, (s: State, t: State) => SameState(s, t), Receiver(s, []), s, pieces);
  }

  // A whole frame numbered 1 that passes the check, with less than two bytes of data
  predicate TooShort(k: Keys, s: State, src: seq<byte>)
    requires k.Valid()
  {
    s.id == 1 && |src| > 4 &&
    var size: nat := Xor16(GetLE16(src[..2]), HiddenLength(s.hash));
    var n := 2 + size + RandLength(k.variant, size, s.hash, s.prng).length;
    size < 2 && n + 2 <= |src| && k.HmacMD5(s.id, src[..n])[..2] == src[n..n + 2]
  }

  ghost predicate TooShortAfter(k: Keys, s: State, src: seq<byte>, n: nat)
    requires k.Valid()
  {
    var r := Skip(Sync(k).step, s, src, n);
    r.Some? && TooShort(k, r.value.s, r.value.held)
  }

  lemma RefusedForShortness(k: Keys, s: State, src: seq<byte>)
    requires k.Valid() && !s.raw
    ensures Step(k, s, src).Bad? && Step(k, s, src).error == SliceOutOfRange <==> TooShort(k, s, src)
  {
    hide RandLength, Xor16, GetLE16, Start, Keys.HmacMD5, Xor, HiddenLength, Payload;
    SmallPadding(k, s);
  }

  lemma SmallPadding(k: Keys, s: State)
    requires k.Valid()
    ensures forall size: nat :: size <= PIECE ==> size + RandLength(k.variant, size, s.hash, s.prng).length < 4096
  {
  }

  lemma {:induction false} SkipStaysLive(k: Keys, s: State, src: seq<byte>, n: nat)
    requires k.Valid() && !s.raw
    ensures var r := Skip(Sync(k).step, s, src, n); r.Some? ==> !r.value.s.raw
    decreases n
  {
    hide Step;
    if n > 0 {
      StepSettles(k, s, s, src, []);
      var o := Step(k, s, src);
      if o.Whole? && 0 < o.used <= |src| {
        SkipStaysLive(k, o.s, src[o.used..], n - 1);
      }
    }
  }

  // When Decode panics, over any stream in any pieces: exactly if, after some number of whole frames, one
  // numbered 1 has less than two bytes of data.
  lemma PanicsExactly(k: Keys, s: State, pieces: seq<seq<byte>>)
    requires k.Valid() && !s.raw
    ensures Feed(Sync(k).step, Receiver(s, []), pieces).error == Some(SliceOutOfRange)
      <==> exists n: nat :: TooShortAfter(k, s, Concat(pieces), n)
  {
    hide Feed, DecodeAll, FailsAfter, TooShortAfter;
    Fragmentation(k, s, pieces);
    FailsExactly(Sync(k).step, s, Concat(pieces), SliceOutOfRange);
    forall n: nat
      ensures FailsAfter(Sync(k).step, s, Concat(pieces), n, SliceOutOfRange) <==>
              TooShortAfter(k, s, Concat(pieces), n)
    {
      FailsForShortness(k, s, Concat(pieces), n);
    }
  }

  lemma FailsForShortness(k: Keys, s: State, src: seq<byte>, n: nat)
    requires k.Valid() && !s.raw
    ensures FailsAfter(Sync(k).step, s, src, n, SliceOutOfRange) <==> TooShortAfter(k, s, src, n)
  {
    hide Skip, Step, TooShort;
    var r := Skip(Sync(k).step, s, src, n);
    SkipStaysLive(k, s, src, n);
    if r.Some? {
      RefusedForShortness(k, r.value.s, r.value.held);
    }
  }

  // Such a frame: one of a sender in step, with one byte of data
  lemma OneByteIsTooShort(k: Keys, s: State, t: Sender, x: byte, pad: seq<byte>)
    requires k.Valid() && InStep(s, t) && t.id == 1 && |pad| == RandLength(k.variant, 1, t.hash, t.prng).length
    ensures TooShort(k, s, Pack(k, t, pad, [x]).0)
  {
    hide Step, Pack, TooShort, RandLength;
    FrameOutcome(k, s, t, pad, [x], []);
    assert Pack(k, t, pad, [x]).0 + [] == Pack(k, t, pad, [x]).0;
    RefusedForShortness(k, s, Pack(k, t, pad, [x]).0);
  }

  // ----- frames numbered 1 -----

  // The number of the i-th frame from the one numbered id on.
  function Number(id: uint32, i: nat): uint32 {
    (id + i) % 0x1_0000_0000
  }

  lemma NumberNext(id: uint32, i: nat)
    ensures Number(id, 0) == id && Number(AF.Next(id), i) == Number(id, i + 1)
  {
  }

  ghost predicate NoneIsFirst(id: uint32, n: nat) {
    forall i: nat :: i < n ==> Number(id, i) != 1
  }

  lemma NoneIsFirstFrom(id: uint32, n: nat)
    requires n > 0
    ensures NoneIsFirst(id, n) <==> id != 1 && NoneIsFirst(AF.Next(id), n - 1)
  {
    NumberNext(id, 0);
    if NoneIsFirst(id, n) {
      forall i: nat | i < n - 1
        ensures Number(AF.Next(id), i) != 1
      {
        NumberNext(id, i);
      }
    }
    if id != 1 && NoneIsFirst(AF.Next(id), n - 1) {
      forall i: nat | i < n
        ensures Number(id, i) != 1
      {
        if i > 0 {
          NumberNext(id, i - 1);
        }
      }
    }
  }

  // Frames are numbered modulo 2^32, and not only the very first loses two bytes: all of the data
  // comes out if and only if none of its frames is numbered 1.
  lemma {:induction false} AllComesOut(id: uint32, chunks: seq<seq<byte>>)
    requires MayBeSent(id, chunks)
    ensures |Stripped(id, chunks)| <= |Concat(chunks)|
    ensures Stripped(id, chunks) == Concat(chunks) <==> NoneIsFirst(id, |chunks|)
    decreases |chunks|
  {
    hide NoneIsFirst, AF.Next;
    if chunks != [] {
      AllComesOut(AF.Next(id), chunks[1..]);
      NoneIsFirstFrom(id, |chunks|);
      if id == 1 {
        assert |Stripped(id, chunks)| < |Concat(chunks)|;
      } else {
        SameTail(chunks[0], Stripped(AF.Next(id), chunks[1..]), Concat(chunks[1..]));
      }
    } else {
      NoneOfNone(id);
    }
  }

  lemma NoneOfNone(id: uint32)
    ensures NoneIsFirst(id, 0)
  {
  }

  lemma SameTail(a: seq<byte>, b: seq<byte>, c: seq<byte>)
    ensures a + b == a + c <==> b == c
  {
    assert (a + b)[|a|..] == b && (a + c)[|a|..] == c;
  }
}
