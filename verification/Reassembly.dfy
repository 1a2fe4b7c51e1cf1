/**
 Decoders that are handed a stream in pieces of any size: whatever is not yet a whole frame stays in
 a buffer and is looked at again when more has come in.
 */
module Reassembly {
  import opened Wrappers
  import opened Bytes

  datatype DecodeError = MacError | LengthError | ChecksumError | SliceOutOfRange

  // What one turn of a decode loop finds at the front of the buffer.  Looking at an incomplete frame
  // may change the decoder's state all the same.
  datatype Outcome<S> =
    | More(s: S)
    | Whole(s: S, used: nat, payload: seq<byte>)
    | Bad(s: S, error: DecodeError)

  // A decode loop run to its end: the state, what came out, what stays in the buffer.
  datatype Decoded<S> = Decoded(s: S, out: seq<byte>, rest: seq<byte>, error: Option<DecodeError>)

  function DecodeAll<S>(step: (S, seq<byte>) -> Outcome<S>, s: S, src: seq<byte>): Decoded<S>
    decreases |src|
  {
    match step(s, src)
    case More(s1) => Decoded(s1, [], src, None)
    case Bad(s1, e) => Decoded(s1, [], [], Some(e))
    case Whole(s1, used, payload) =>
      if 0 < used <= |src| then
        var d := DecodeAll(step, s1, src[used..]);
        d.(out := payload + d.out)
      else Decoded(s1, payload, src, None)
  }

  // ----- the sender's side -----

  // A frame, the payload it stands for, and the sender's state after it.
  datatype Sent<T> = Sent(frame: seq<byte>, payload: seq<byte>, after: T)

  // How a sender and a receiver belong together: which frames the sender may emit in a state, and
  // when the receiver's state is in step with the sender's.
  datatype Protocol<!S, !T> = Protocol(
    step: (S, seq<byte>) -> Outcome<S>,
    emits: (T, Sent<T>) -> bool,
    inStep: (S, T) -> bool)

  // A whole frame is taken off the front and keeps the two in step, whatever follows it.
  ghost predicate TakesFrames<S(!new), T(!new)>(p: Protocol<S, T>) {
    forall s, t, f, rest {:trigger p.emits(t, f), p.step(s, f.frame + rest)} :: p.inStep(s, t) && p.emits(t, f) ==>
      var o := p.step(s, f.frame + rest);
      o.Whole? && o.used == |f.frame| > 0 && o.payload == f.payload && p.inStep(o.s, f.after)
  }

  // Part of a frame is left alone, and the two stay in step however often it is looked at.
  ghost predicate WaitsForFrames<S(!new), T(!new)>(p: Protocol<S, T>) {
    forall s, t, f, part {:trigger p.emits(t, f), p.step(s, part)} ::
      p.inStep(s, t) && p.emits(t, f) && part < f.frame ==>
      var o := p.step(s, part);
      o.More? && p.inStep(o.s, t)
  }

  ghost predicate WaitsForAnything<S(!new), T(!new)>(p: Protocol<S, T>) {
    forall s :: p.step(s, []) == More(s)
  }

  ghost predicate Lockstep<S(!new), T(!new)>(p: Protocol<S, T>) {
    TakesFrames(p) && WaitsForFrames(p) && WaitsForAnything(p)
  }

  ghost predicate Chain<S, T>(p: Protocol<S, T>, t: T, fs: seq<Sent<T>>) {
    fs == [] || (p.emits(t, fs[0]) && Chain(p, fs[0].after, fs[1..]))
  }

  function Frames<T>(fs: seq<Sent<T>>): seq<byte> {
    if fs == [] then [] else fs[0].frame + Frames(fs[1..])
  }

  function Payloads<T>(fs: seq<Sent<T>>): seq<byte> {
    if fs == [] then [] else fs[0].payload + Payloads(fs[1..])
  }

  function StateAfter<T>(t: T, fs: seq<Sent<T>>): T {
    if fs == [] then t else fs[|fs| - 1].after
  }

  // ----- one call of Decode -----

  // The receiver is in step with a sender in state t, and holds part of the next of its frames.
  ghost predicate Waiting<S, T>(p: Protocol<S, T>, s: S, held: seq<byte>, t: T, fs: seq<Sent<T>>) {
    p.inStep(s, t) && if fs == [] then held == [] else held < fs[0].frame
  }

  // Of the frames fs, the first k were whole in src: their payloads came out, the rest of src is kept.
  ghost predicate Reassembled<S, T>(p: Protocol<S, T>, t: T, fs: seq<Sent<T>>, src: seq<byte>, d: Decoded<S>, k: nat) {
    && k <= |fs| && d.error == None
    && d.out == Payloads(fs[..k]) && src == Frames(fs[..k]) + d.rest
    && Waiting(p, d.s, d.rest, StateAfter(t, fs[..k]), fs[k..])
  }

  lemma NoneYet<S, T>(p: Protocol<S, T>, t: T, fs: seq<Sent<T>>, src: seq<byte>, d: Decoded<S>)
    requires Waiting(p, d.s, src, t, fs) && d == Decoded(d.s, [], src, None)
    ensures Reassembled(p, t, fs, src, d, 0)
  {
    assert fs[..0] == [] && fs[0..] == fs && [] + src == src;
  }

  lemma OneMore<S, T>(p: Protocol<S, T>, t: T, f: Sent<T>, rest: seq<Sent<T>>, tail: seq<byte>, d: Decoded<S>, j: nat)
    requires Reassembled(p, f.after, rest, tail, d, j)
    ensures Reassembled(p, t, [f] + rest, f.frame + tail, d.(out := f.payload + d.out), j + 1)
  {
    hide Waiting;
    var fs := [f] + rest;
    assert fs[..j + 1] == [f] + rest[..j] && fs[j + 1..] == rest[j..];
    assert fs[..j + 1][1..] == rest[..j];
    assert f.frame + (Frames(rest[..j]) + d.rest) == (f.frame + Frames(rest[..j])) + d.rest;
    assert StateAfter(t, fs[..j + 1]) == StateAfter(f.after, rest[..j]);
  }

  // On any prefix of a genuine stream, the decode loop delivers the payloads of the whole frames in
  // it and keeps the rest.
  lemma {:induction false} DecodePrefix<S(!new), T(!new)>(p: Protocol<S, T>, s: S, t: T, fs: seq<Sent<T>>,
                                                          src: seq<byte>) returns (k: nat)
    requires Lockstep(p) && p.inStep(s, t) && Chain(p, t, fs) && src <= Frames(fs)
    ensures Reassembled(p, t, fs, src, DecodeAll(p.step, s, src), k)
    decreases |fs|
  {
    hide Reassembled;
    var d := DecodeAll(p.step, s, src);
    k := 0;
    if fs == [] {
      NoneYet(p, t, fs, src, d);
    } else {
      var f, rest := fs[0], fs[1..];
      assert fs == [f] + rest;
      if |src| < |f.frame| {
        assert src < f.frame;
        assert p.step(s, src).More?;
        NoneYet(p, t, fs, src, d);
      } else {
        var tail := src[|f.frame|..];
        assert src == f.frame + tail;
        var o := p.step(s, f.frame + tail);
        assert o.Whole? && o.used == |f.frame| && p.inStep(o.s, f.after);
        var j := DecodePrefix(p, o.s, f.after, rest, tail);
        OneMore(p, t, f, rest, tail, DecodeAll(p.step, o.s, tail), j);
        k := j + 1;
      }
    }
  }

  // ----- the decode loop -----

  // Where the loop stops without an error.
  lemma StopsHere<S>(step: (S, seq<byte>) -> Outcome<S>, s: S, src: seq<byte>)
    requires step(s, src).More?
    ensures DecodeAll(step, s, src) == Decoded(step(s, src).s, [], src, None)
  {
  }

  // A decoder that takes everything there is, and leaves its state.
  lemma AllAtOnce<S>(step: (S, seq<byte>) -> Outcome<S>, s: S, src: seq<byte>)
    requires step(s, []) == More(s) && (src != [] ==> step(s, src) == Whole(s, |src|, src))
    ensures DecodeAll(step, s, src) == Decoded(s, src, [], None)
  {
    assert src[|src|..] == [] && src + [] == src;
    assert DecodeAll(step, s, []) == Decoded(s, [], [], None);
  }

  // What is decoded, put behind what is already out, is the same before and after a turn.
  lemma OneTurn<S>(step: (S, seq<byte>) -> Outcome<S>, s: S, src: seq<byte>, out: seq<byte>)
    ensures var d, o := DecodeAll(step, s, src), step(s, src);
            (o.More? ==> d == Decoded(o.s, [], src, None))
            && (o.Bad? ==> d == Decoded(o.s, [], [], Some(o.error)) && out + d.out == out)
            && (o.Whole? && 0 < o.used <= |src| ==>
              var later := DecodeAll(step, o.s, src[o.used..]);
              d.(out := out + d.out) == later.(out := (out + o.payload) + later.out))
  {
    var o := step(s, src);
    if o.Bad? {
      assert out + [] == out;
    }
    if o.Whole? && 0 < o.used <= |src| {
      var later := DecodeAll(step, o.s, src[o.used..]);
      assert out + (o.payload + later.out) == (out + o.payload) + later.out;
    }
  }

  // ----- a whole stream in pieces -----

  datatype Receiver<S> = Receiver(s: S, held: seq<byte>)

  // Handing the decoder one piece after the other: what comes out in all, and how it is left.
  function Feed<S>(step: (S, seq<byte>) -> Outcome<S>, r: Receiver<S>, pieces: seq<seq<byte>>): Decoded<S>
    decreases |pieces|
  {
    if pieces == [] then Decoded(r.s, [], r.held, None)
    else
      var d := DecodeAll(step, r.s, r.held + pieces[0]);
      if d.error.Some? then d
      else
        var e := Feed(step, Receiver(d.s, d.rest), pieces[1..]);
        e.(out := d.out + e.out)
  }

  lemma {:induction false} ChainFrom<S, T>(p: Protocol<S, T>, t: T, fs: seq<Sent<T>>, k: nat)
    requires Chain(p, t, fs) && k <= |fs|
    ensures Chain(p, StateAfter(t, fs[..k]), fs[k..])
    decreases |fs|
  {
    if k > 0 {
      ChainFrom(p, fs[0].after, fs[1..], k - 1);
      assert fs[1..][k - 1..] == fs[k..];
      assert fs[..k][k - 1] == fs[k - 1];
      assert k > 1 ==> fs[1..][..k - 1][k - 2] == fs[k - 1];
    } else {
      assert fs[0..] == fs && fs[..0] == [];
    }
  }

  lemma {:induction false} FramesSplit<T>(fs: seq<Sent<T>>, k: nat)
    requires k <= |fs|
    ensures Frames(fs) == Frames(fs[..k]) + Frames(fs[k..]) && Payloads(fs) == Payloads(fs[..k]) + Payloads(fs[k..])
  {
    if k > 0 {
      FramesSplit(fs[1..], k - 1);
      assert fs[..k][1..] == fs[1..][..k - 1] && fs[1..][k - 1..] == fs[k..];
    } else {
      assert fs[0..] == fs && fs[..0] == [];
    }
  }

  lemma {:induction false} ChainAppend<S, T>(p: Protocol<S, T>, t: T, a: seq<Sent<T>>, b: seq<Sent<T>>)
    requires Chain(p, t, a) && Chain(p, StateAfter(t, a), b)
    ensures Chain(p, t, a + b) && Payloads(a + b) == Payloads(a) + Payloads(b)
    decreases |a|
  {
    FramesSplit(a + b, |a|);
    assert (a + b)[..|a|] == a && (a + b)[|a|..] == b;
    if a == [] {
      assert a + b == b;
    } else {
      assert (a + b)[1..] == a[1..] + b;
      assert StateAfter(a[0].after, a[1..]) == StateAfter(t, a);
      ChainAppend(p, a[0].after, a[1..], b);
    }
  }

  // Two rounds of reassembly are one.
  lemma TwoRounds<S, T>(p: Protocol<S, T>, t: T, fs: seq<Sent<T>>, src: seq<byte>, d: Decoded<S>, k: nat,
                        more: seq<byte>, e: Decoded<S>, j: nat)
    requires Reassembled(p, t, fs, src, d, k)
    requires Reassembled(p, StateAfter(t, fs[..k]), fs[k..], d.rest + more, e, j)
    ensures Reassembled(p, t, fs, src + more, e.(out := d.out + e.out), k + j)
  {
    hide Waiting;
    var a, b := fs[..k], fs[k..][..j];
    assert fs[..k + j] == a + b && fs[k..][j..] == fs[k + j..];
    FramesSplit(fs[..k + j], k);
    assert (a + b)[..k] == a && (a + b)[k..] == b;
    assert src + more == Frames(a) + (d.rest + more);
    assert Frames(a) + (Frames(b) + e.rest) == (Frames(a) + Frames(b)) + e.rest;
    assert StateAfter(StateAfter(t, a), b) == StateAfter(t, a + b);
  }

  // However the bytes of a genuine stream are cut into pieces, and however often a partial frame is
  // looked at: the payloads of the whole frames received come out, in order, and no others; the
  // partial frame is kept; sender and receiver stay in step.
  lemma {:induction false} FeedReassembles<S(!new), T(!new)>(p: Protocol<S, T>, r: Receiver<S>, t: T, fs: seq<Sent<T>>,
                                                             pieces: seq<seq<byte>>)
    returns (k: nat)
    requires Lockstep(p) && Chain(p, t, fs) && Waiting(p, r.s, r.held, t, fs)
    requires r.held + Concat(pieces) <= Frames(fs)
    ensures Reassembled(p, t, fs, r.held + Concat(pieces), Feed(p.step, r, pieces), k)
    decreases |pieces|
  {
    hide Reassembled, Waiting, Lockstep, Chain, Frames, DecodeAll, StateAfter;
    WaitingInStep(p, r.s, r.held, t, fs);
    var d := Feed(p.step, r, pieces);
    if pieces == [] {
      assert r.held + [] == r.held;
      NoneYet(p, t, fs, r.held, d);
      k := 0;
    } else {
      var first, later := r.held + pieces[0], Concat(pieces[1..]);
      assert r.held + Concat(pieces) == first + later;
      assert first <= Frames(fs);
      var d1 := DecodeAll(p.step, r.s, first);
      var i := DecodePrefix(p, r.s, t, fs, first);
      Unpack(p, t, fs, first, d1, i);
      ChainFrom(p, t, fs, i);
      FramesSplit(fs, i);
      PrefixOfRest(Frames(fs[..i]), d1.rest, later, Frames(fs[i..]));
      var j := FeedReassembles(p, Receiver(d1.s, d1.rest), StateAfter(t, fs[..i]), fs[i..], pieces[1..]);
      TwoRounds(p, t, fs, first, d1, i, later, Feed(p.step, Receiver(d1.s, d1.rest), pieces[1..]), j);
      k := i + j;
    }
  }

  lemma WaitingInStep<S, T>(p: Protocol<S, T>, s: S, held: seq<byte>, t: T, fs: seq<Sent<T>>)
    requires Waiting(p, s, held, t, fs)
    ensures p.inStep(s, t)
  {
  }

  lemma Unpack<S, T>(p: Protocol<S, T>, t: T, fs: seq<Sent<T>>, src: seq<byte>, d: Decoded<S>, k: nat)
    requires Reassembled(p, t, fs, src, d, k)
    ensures k <= |fs| && d.error == None && src == Frames(fs[..k]) + d.rest
    ensures Waiting(p, d.s, d.rest, StateAfter(t, fs[..k]), fs[k..])
  {
  }

  lemma PrefixOfRest(a: seq<byte>, b: seq<byte>, c: seq<byte>, d: seq<byte>)
    requires (a + b) + c <= a + d
    ensures b + c <= d
  {
    assert (a + b) + c == a + (b + c);
    assert (a + d)[|a|..] == d && (a + (b + c))[|a|..] == b + c;
  }

  // When all bytes have arrived, all payloads have come out and nothing is left over.
  lemma FeedDeliversAll<S(!new), T(!new)>(p: Protocol<S, T>, s: S, t: T, fs: seq<Sent<T>>, pieces: seq<seq<byte>>)
    requires Lockstep(p) && Chain(p, t, fs) && p.inStep(s, t) && Concat(pieces) == Frames(fs)
    ensures var d := Feed(p.step, Receiver(s, []), pieces);
            d.error == None && d.out == Payloads(fs) && d.rest == [] && p.inStep(d.s, StateAfter(t, fs))
  {
    FirstIsNonempty(p, s, t, fs);
    assert [] + Concat(pieces) == Concat(pieces);
    var k := FeedReassembles(p, Receiver(s, []), t, fs, pieces);
    var d := Feed(p.step, Receiver(s, []), pieces);
    FramesSplit(fs, k);
    assert d.rest == Frames(fs[k..]);
    NoPartEqualsAll(fs[k..]);
    assert k == |fs| && fs[..k] == fs;
  }

  lemma NoPartEqualsAll<T>(fs: seq<Sent<T>>)
    ensures fs != [] ==> !(Frames(fs) < fs[0].frame)
  {
    assert fs != [] ==> |Frames(fs)| >= |fs[0].frame|;
  }

  lemma FirstIsNonempty<S(!new), T(!new)>(p: Protocol<S, T>, s: S, t: T, fs: seq<Sent<T>>)
    requires Lockstep(p) && Chain(p, t, fs) && p.inStep(s, t)
    ensures Waiting(p, s, [], t, fs)
  {
    if fs != [] {
      assert p.step(s, fs[0].frame + []).Whole?;
    }
  }

  // ----- any stream, genuine or not -----

  // Decoder states the decoder cannot tell apart, and what it settles on the bytes so far it keeps to
  // when more bytes follow.
  ghost predicate Settled<S(!new)>(step: (S, seq<byte>) -> Outcome<S>, same: (S, S) -> bool) {
    && (forall s, t, src {:trigger same(s, t), step(s, src), step(t, src)} :: same(s, t) ==>
        (step(s, src).More? <==> step(t, src).More?))
    && (forall s, t, src, more {:trigger same(s, t), step(s, src), step(t, src + more)} :: same(s, t) ==>
        SettledOn(same, step(s, src), step(t, src + more), t, |src|))
  }

  ghost predicate SettledOn<S>(same: (S, S) -> bool, o: Outcome<S>, later: Outcome<S>, t: S, n: nat) {
    && (o.More? ==> same(o.s, t))
    && (o.Bad? ==> later.Bad? && later.error == o.error)
    && (o.Whole? ==> 0 < o.used <= n && later.Whole? && later.used == o.used)
    && (o.Whole? ==> later.payload == o.payload && same(o.s, later.s))
  }

  // What two decodings give, whatever states they end in.
  ghost predicate SameOutput<S>(d: Decoded<S>, e: Decoded<S>) {
    d.error == e.error && d.out == e.out && (d.error == None ==> d.rest == e.rest)
  }

  lemma SettledAt<S(!new)>(step: (S, seq<byte>) -> Outcome<S>, same: (S, S) -> bool, s: S, t: S, src: seq<byte>,
                           more: seq<byte>)
    requires Settled(step, same) && same(s, t)
    ensures step(s, src).More? <==> step(t, src).More?
    ensures SettledOn(same, step(s, src), step(t, src + more), t, |src|)
  {
  }

  // Decoding what has come and going on with what follows is decoding all of it.
  lemma {:induction false} Resume<S(!new)>(step: (S, seq<byte>) -> Outcome<S>, same: (S, S) -> bool, s: S, t: S,
                                           src: seq<byte>, more: seq<byte>)
    returns (u: S)
    requires Settled(step, same) && same(s, t)
    ensures var d, all := DecodeAll(step, s, src), DecodeAll(step, t, src + more);
            if d.error.Some? then all.error == d.error && all.out == d.out
            else var e := DecodeAll(step, u, d.rest + more);
              same(d.s, u) && step(d.s, d.rest).More? && SameOutput(all, e.(out := d.out + e.out))
    decreases |src|
  {
    hide Settled;
    u := t;
    var o, p := step(s, src), step(t, src + more);
    SettledAt(step, same, s, t, src, more);
    match o
    case More(s1) =>
      SettledAt(step, same, s1, t, src, more);
      assert [] + DecodeAll(step, t, src + more).out == DecodeAll(step, t, src + more).out;
    case Bad(_, _) =>
    case Whole(s1, used, payload) =>
      assert (src + more)[used..] == src[used..] + more;
      u := Resume(step, same, s1, p.s, src[used..], more);
      var d := DecodeAll(step, s1, src[used..]);
      if d.error == None {
        var e := DecodeAll(step, u, d.rest + more);
        assert payload + (d.out + e.out) == (payload + d.out) + e.out;
      }
  }

  // However any stream is cut into pieces, the decoder puts out the same bytes, fails in the same way or
  // keeps the same rest: as if all had come at once.
  lemma {:induction false} FragmentationIsInvisible<S(!new)>(step: (S, seq<byte>) -> Outcome<S>, same: (S, S) -> bool,
                                                             r: Receiver<S>, t: S, pieces: seq<seq<byte>>)
    requires Settled(step, same) && same(r.s, t) && step(r.s, r.held).More?
    ensures SameOutput(Feed(step, r, pieces), DecodeAll(step, t, r.held + Concat(pieces)))
    decreases |pieces|
  {
    hide DecodeAll;
    if pieces == [] {
      assert r.held + [] == r.held;
      StopsHere(step, t, r.held);
    } else {
      var first, later := r.held + pieces[0], Concat(pieces[1..]);
      assert r.held + Concat(pieces) == first + later;
      var u := Resume(step, same, r.s, t, first, later);
      var d := DecodeAll(step, r.s, first);
      if d.error == None {
        FragmentationIsInvisible(step, same, Receiver(d.s, d.rest), u, pieces[1..]);
      }
    }
  }

  // The state and the bytes left after n whole frames, if there are that many.
  function Skip<S>(step: (S, seq<byte>) -> Outcome<S>, s: S, src: seq<byte>, n: nat): Option<Receiver<S>> {
    if n == 0 then Some(Receiver(s, src))
    else
      match step(s, src)
      case More(_) => None
      case Bad(_, _) => None
      case Whole(s1, used, _) => if 0 < used <= |src| then Skip(step, s1, src[used..], n - 1) else None
  }

  ghost predicate FailsAfter<S>(step: (S, seq<byte>) -> Outcome<S>, s: S, src: seq<byte>, n: nat, e: DecodeError) {
    var r := Skip(step, s, src, n);
    r.Some? && step(r.value.s, r.value.held).Bad? && step(r.value.s, r.value.held).error == e
  }

  // A decoding fails exactly if, after some number of whole frames, the next one is refused.
  lemma {:induction false} FailsExactly<S>(step: (S, seq<byte>) -> Outcome<S>, s: S, src: seq<byte>, e: DecodeError)
    ensures DecodeAll(step, s, src).error == Some(e) <==> exists n: nat :: FailsAfter(step, s, src, n, e)
    decreases |src|
  {
    var o := step(s, src);
    if o.Whole? && 0 < o.used <= |src| {
      var tail := src[o.used..];
      FailsExactly(step, o.s, tail, e);
      if n: nat :| FailsAfter(step, o.s, tail, n, e) {
        assert FailsAfter(step, s, src, n + 1, e);
      }
      if n: nat :| FailsAfter(step, s, src, n, e) {
        assert FailsAfter(step, o.s, tail, n - 1, e);
      }
    } else {
      assert FailsAfter(step, s, src, 0, e) <==> o.Bad? && o.error == e;
    }
  }

  // ----- reading through a connection -----

  // What has been decoded but not read, and what has been received but not decoded.
  datatype Conn<S> = Conn(s: S, decoded: seq<byte>, underDecoded: seq<byte>)

  // One Read into a buffer of n bytes: from what is decoded, or else from one more piece off the wire.
  datatype ConnStep<S> = ConnStep(conn: Conn<S>, result: seq<byte>, error: Option<DecodeError>)

  function ConnRead<S>(step: (S, seq<byte>) -> Outcome<S>, c: Conn<S>, n: nat, piece: seq<byte>): ConnStep<S> {
    if c.decoded != [] then
      ConnStep(c.(decoded := c.decoded[Min(n, |c.decoded|)..]), c.decoded[..Min(n, |c.decoded|)], None)
    else
      var d := DecodeAll(step, c.s, c.underDecoded + piece);
      if d.error.Some? then ConnStep(Conn(d.s, d.out, d.rest), [], d.error)
      else ConnStep(Conn(d.s, d.out[Min(n, |d.out|)..], d.rest), d.out[..Min(n, |d.out|)], None)
  }

  // A run of reads, each with a buffer size and the piece that would arrive next; the pieces the run
  // takes off the wire; and what it reads.
  function PiecesTaken<S>(step: (S, seq<byte>) -> Outcome<S>, c: Conn<S>, calls: seq<(nat, seq<byte>)>): seq<seq<byte>>
    decreases |calls|
  {
    if calls == [] then []
    else
      var r := ConnRead(step, c, calls[0].0, calls[0].1);
      (if c.decoded == [] then [calls[0].1] else [])
        + (if r.error.Some? then [] else PiecesTaken(step, r.conn, calls[1..]))
  }

  function ReadAll<S>(step: (S, seq<byte>) -> Outcome<S>, c: Conn<S>, calls: seq<(nat, seq<byte>)>): ConnStep<S>
    decreases |calls|
  {
    if calls == [] then ConnStep(c, [], None)
    else
      var r := ConnRead(step, c, calls[0].0, calls[0].1);
      if r.error.Some? then r
      else
        var later := ReadAll(step, r.conn, calls[1..]);
        later.(result := r.result + later.result)
  }

  // Whatever the buffer sizes: what has been read and what waits decoded are what the decoder has put
  // out for the pieces taken.
  lemma {:induction false} ReadsWhatIsFed<S>(step: (S, seq<byte>) -> Outcome<S>, c: Conn<S>,
                                             calls: seq<(nat, seq<byte>)>)
    ensures var r := ReadAll(step, c, calls);
            var d := Feed(step, Receiver(c.s, c.underDecoded), PiecesTaken(step, c, calls));
            d.error == r.error && c.decoded + d.out == r.result + r.conn.decoded
            && r.conn.s == d.s && r.conn.underDecoded == d.rest
    decreases |calls|
  {
    hide DecodeAll, Feed, ReadAll, PiecesTaken;
    if calls == [] {
      NoCalls(step, c);
    } else {
      var n := calls[0].0;
      var one := ConnRead(step, c, n, calls[0].1);
      var later := ReadAll(step, one.conn, calls[1..]);
      if c.decoded != [] {
        Served(step, c, calls);
        ReadsWhatIsFed(step, one.conn, calls[1..]);
        Regroup(c.decoded, Min(n, |c.decoded|),
          Feed(step, Receiver(c.s, c.underDecoded), PiecesTaken(step, c, calls)).out, later.result, later.conn.decoded);
      } else {
        Fetched(step, c, calls);
        var d := DecodeAll(step, c.s, c.underDecoded + calls[0].1);
        if d.error == None {
          var e := Feed(step, Receiver(d.s, d.rest), PiecesTaken(step, one.conn, calls[1..]));
          ReadsWhatIsFed(step, one.conn, calls[1..]);
          Regroup(d.out, Min(n, |d.out|), e.out, later.result, later.conn.decoded);
          assert [] + (d.out + e.out) == d.out + e.out;
        }
      }
    }
  }

  lemma NoCalls<S>(step: (S, seq<byte>) -> Outcome<S>, c: Conn<S>)
    ensures ReadAll(step, c, []) == ConnStep(c, [], None) && PiecesTaken(step, c, []) == []
    ensures Feed(step, Receiver(c.s, c.underDecoded), []) == Decoded(c.s, [], c.underDecoded, None)
    ensures c.decoded + [] == [] + c.decoded
  {
  }

  // A read served from what is decoded takes nothing off the wire.
  lemma Served<S>(step: (S, seq<byte>) -> Outcome<S>, c: Conn<S>, calls: seq<(nat, seq<byte>)>)
    requires calls != [] && c.decoded != []
    ensures var one := ConnRead(step, c, calls[0].0, calls[0].1);
            var later := ReadAll(step, one.conn, calls[1..]);
            PiecesTaken(step, c, calls) == PiecesTaken(step, one.conn, calls[1..])
            && ReadAll(step, c, calls) == later.(result := one.result + later.result)
  {
    hide DecodeAll;
  }

  // Any other read takes one piece, and decodes.
  lemma Fetched<S>(step: (S, seq<byte>) -> Outcome<S>, c: Conn<S>, calls: seq<(nat, seq<byte>)>)
    requires calls != [] && c.decoded == []
    ensures var one := ConnRead(step, c, calls[0].0, calls[0].1);
            var d := DecodeAll(step, c.s, c.underDecoded + calls[0].1);
            var rest := PiecesTaken(step, one.conn, calls[1..]);
            var later := ReadAll(step, one.conn, calls[1..]);
            var e := Feed(step, Receiver(d.s, d.rest), rest);
            var fed := Feed(step, Receiver(c.s, c.underDecoded), PiecesTaken(step, c, calls));
            if d.error.Some? then fed == d && ReadAll(step, c, calls) == ConnStep(Conn(d.s, d.out, d.rest), [], d.error)
            else
              fed == e.(out := d.out + e.out)
              && ReadAll(step, c, calls) == later.(result := one.result + later.result)
  {
    hide DecodeAll;
    var one := ConnRead(step, c, calls[0].0, calls[0].1);
    var taken := PiecesTaken(step, c, calls);
    assert taken[0] == calls[0].1;
    if one.error == None {
      assert taken[1..] == PiecesTaken(step, one.conn, calls[1..]);
    }
  }

  // Serving k bytes of what is decoded and then reading on: nothing gets lost or reordered.
  lemma Regroup(decoded: seq<byte>, k: nat, out: seq<byte>, result: seq<byte>, left: seq<byte>)
    requires k <= |decoded| && decoded[k..] + out == result + left
    ensures decoded + out == (decoded[..k] + result) + left
  {
    assert decoded + out == decoded[..k] + (decoded[k..] + out);
    assert decoded[..k] + (result + left) == (decoded[..k] + result) + left;
  }

  // While a genuine stream is still arriving: what has been read and what waits decoded are the payloads
  // of the whole frames among the bytes taken, in order; no read fails.
  lemma ConnReassembles<S(!new), T(!new)>(p: Protocol<S, T>, s: S, t: T, fs: seq<Sent<T>>, calls: seq<(nat, seq<byte>)>)
    returns (k: nat)
    requires Lockstep(p) && Chain(p, t, fs) && p.inStep(s, t)
    requires Concat(PiecesTaken(p.step, Conn(s, [], []), calls)) <= Frames(fs)
    ensures var r := ReadAll(p.step, Conn(s, [], []), calls);
            k <= |fs| && r.error == None && r.result + r.conn.decoded == Payloads(fs[..k])
            && Concat(PiecesTaken(p.step, Conn(s, [], []), calls)) == Frames(fs[..k]) + r.conn.underDecoded
            && Waiting(p, r.conn.s, r.conn.underDecoded, StateAfter(t, fs[..k]), fs[k..])
  {
    var pieces := PiecesTaken(p.step, Conn(s, [], []), calls);
    FirstIsNonempty(p, s, t, fs);
    assert [] + Concat(pieces) == Concat(pieces);
    k := FeedReassembles(p, Receiver(s, []), t, fs, pieces);
    hide Feed, ReadAll, PiecesTaken, Waiting, Frames, Lockstep, Chain, StateAfter;
    ReadsWhatIsFed(p.step, Conn(s, [], []), calls);
    var d, r := Feed(p.step, Receiver(s, []), pieces), ReadAll(p.step, Conn(s, [], []), calls);
    assert [] + d.out == d.out;
  }

  // So what has been read is a prefix of what was sent, and all of it is there once all bytes are taken.
  lemma ConnDelivers<S(!new), T(!new)>(p: Protocol<S, T>, s: S, t: T, fs: seq<Sent<T>>, calls: seq<(nat, seq<byte>)>)
    requires Lockstep(p) && Chain(p, t, fs) && p.inStep(s, t)
    requires Concat(PiecesTaken(p.step, Conn(s, [], []), calls)) <= Frames(fs)
    ensures var r := ReadAll(p.step, Conn(s, [], []), calls);
            r.error == None && r.result + r.conn.decoded <= Payloads(fs)
            && (Concat(PiecesTaken(p.step, Conn(s, [], []), calls)) == Frames(fs) ==>
              r.result + r.conn.decoded == Payloads(fs) && r.conn.underDecoded == [])
  {
    var k := ConnReassembles(p, s, t, fs, calls);
    FramesSplit(fs, k);
    var r := ReadAll(p.step, Conn(s, [], []), calls);
    if Concat(PiecesTaken(p.step, Conn(s, [], []), calls)) == Frames(fs) {
      PrefixOfRest(Frames(fs[..k]), [], Frames(fs[k..]), r.conn.underDecoded);
      PrefixOfRest(Frames(fs[..k]), [], r.conn.underDecoded, Frames(fs[k..]));
      assert r.conn.underDecoded == Frames(fs[k..]);
      NoPartEqualsAll(fs[k..]);
      assert k == |fs| && fs[..k] == fs;
    }
  }
}
