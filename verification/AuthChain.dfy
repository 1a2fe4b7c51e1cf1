/**
 The objects of auth_chain_a and auth_chain_b: hashes overwritten in place, data encrypted in place,
 generators reseeded, proved against AuthChainSpec.
 */
module AuthChain {
  import opened Wrappers
  import opened Bytes
  import opened Reassembly
  import opened Buffers
  import opened XorShift
  import opened XorStream
  import opened AuthChainSpec
  import AF = AuthFrame

  // ----- the size tables of auth_chain_b -----

  function Entry(v: bv64): (e: nat)
    ensures e < 1440
  {
    Modulo(v, 2340) % 2040 % 1440
  }

  function DrawSizes(r: Prng, n: nat): (d: (seq<nat>, Prng))
    ensures |d.0| == n
  {
    if n == 0 then ([], r)
    else
      var (sizes, r1) := DrawSizes(r, n - 1);
      var (v, r2) := Draw(r1);
      (sizes + [Entry(v)], r2)
  }

  // sort.Ints
  function Insert(x: nat, s: seq<nat>): seq<nat> {
    if s == [] || x <= s[0] then [x] + s else [s[0]] + Insert(x, s[1..])
  }

  function Sorted(s: seq<nat>): seq<nat> {
    if s == [] then [] else Insert(s[0], Sorted(s[1..]))
  }

  ghost predicate Ascending(s: seq<nat>) {
    forall i, j :: 0 <= i < j < |s| ==> s[i] <= s[j]
  }

  lemma {:induction false} InsertKeepsMembers(x: nat, s: seq<nat>)
    ensures multiset(Insert(x, s)) == multiset(s) + multiset{x}
  {
    if s != [] && x > s[0] {
      InsertKeepsMembers(x, s[1..]);
      assert s == [s[0]] + s[1..];
    }
  }

  lemma {:induction false} InsertKeepsOrder(x: nat, s: seq<nat>)
    requires Ascending(s)
    ensures Ascending(Insert(x, s))
  {
    if s != [] && x > s[0] {
      var rest := s[1..];
      InsertKeepsOrder(x, rest);
      InsertKeepsMembers(x, rest);
      var t := Insert(x, rest);
      forall i | 0 <= i < |t|
        ensures s[0] <= t[i]
      {
        assert t[i] in multiset(t);
        assert t[i] == x || t[i] in rest;
      }
    }
  }

  lemma {:induction false} SortedSorts(s: seq<nat>)
    ensures Ascending(Sorted(s)) && multiset(Sorted(s)) == multiset(s)
  {
    if s != [] {
      SortedSorts(s[1..]);
      InsertKeepsOrder(s[0], Sorted(s[1..]));
      InsertKeepsMembers(s[0], Sorted(s[1..]));
      assert s == [s[0]] + s[1..];
    }
  }

  lemma {:induction false} EntriesAreSmall(r: Prng, n: nat)
    ensures forall x :: x in DrawSizes(r, n).0 ==> x < 1440
  {
    if n > 0 {
      EntriesAreSmall(r, n - 1);
    }
  }

  // A table drawn and sorted is one the protocol's padding may be taken from.
  lemma DrawnIsTable(r: Prng, n: nat)
    requires n > 0
    ensures Table(Sorted(DrawSizes(r, n).0)) && multiset(Sorted(DrawSizes(r, n).0)) == multiset(DrawSizes(r, n).0)
  {
    var s := DrawSizes(r, n).0;
    SortedSorts(s);
    EntriesAreSmall(r, n);
    hide DrawSizes, Sorted;
    var t := Sorted(s);
    assert |t| == |multiset(t)| == |multiset(s)| == n;
    forall i | 0 <= i < |t|
      ensures t[i] < 1440
    {
      assert t[i] in multiset(t);
      assert t[i] in s;
    }
  }

  method DrawTable(random: XorShift128Plus, length: nat) returns (sizes: seq<nat>)
    requires length > 0
    modifies random
    ensures var d := DrawSizes(old(random.AsPrng()), length);
            sizes == Sorted(d.0) && random.AsPrng() == d.1 && Table(sizes) && |sizes| == length
  {
    hide Draw, Sorted, Entry;
    ghost var r := random.AsPrng();
    var list: seq<nat> := [];
    var left := length;
    while left > 0
      invariant left <= length && (list, random.AsPrng()) == DrawSizes(r, length - left)
    {
      var v := random.Next();
      list := list + [Entry(v)];
      left := left - 1;
    }
    DrawnIsTable(r, length);
    sizes := Sorted(list);
    assert |sizes| == |multiset(sizes)| == |multiset(list)|;
  }

  // What initDataSize makes of a key.
  function TablesFor(key: seq<byte>): (seq<nat>, seq<nat>)
    requires |key| >= 16
  {
    var (v, r) := Draw(FromBin(key));
    var (one, r1) := DrawSizes(r, Modulo(v, 8) + 4);
    var (v2, r2) := Draw(r1);
    (Sorted(one), Sorted(DrawSizes(r2, Modulo(v2, 16) + 8).0))
  }

  // initDataSize: two sorted tables of 4 to 11 and 8 to 23 entries, all below 1440
  method InitDataSize(key: seq<byte>, overhead: nat, random: XorShift128Plus) returns (variant: Variant)
    requires |key| >= 16
    modifies random
    ensures variant.Valid() && variant.ChainB? && variant.overhead == overhead
    ensures (variant.sizes, variant.sizes2) == TablesFor(key) && 4 <= |variant.sizes| < 12 && 8 <= |variant.sizes2| < 24
  {
    hide Draw, DrawSizes, Sorted, Modulo, Table, FromBin;
    random.InitFromBin(key);
    var v := random.Next();
    var one := DrawTable(random, Modulo(v, 8) + 4);
    v := random.Next();
    var two := DrawTable(random, Modulo(v, 16) + 8);
    variant := ChainB(one, two, overhead);
  }

  lemma {:induction false} SearchIsUnique(sizes: seq<nat>, x: nat, i: nat)
    requires i <= |sizes| && (forall m :: 0 <= m < i ==> sizes[m] < x) && (i < |sizes| ==> sizes[i] >= x)
    ensures i == AuthChainSpec.Search(sizes, x)
  {
    if i > 0 {
      SearchIsUnique(sizes[1..], x, i - 1);
    }
  }

  // sort.Search for the first entry that is at least x
  method BinarySearch(sizes: seq<nat>, x: nat) returns (i: nat)
    requires Ascending(sizes)
    ensures i == AuthChainSpec.Search(sizes, x)
  {
    hide AuthChainSpec.Search;
    i := 0;
    var j := |sizes|;
    while i < j
      invariant i <= j <= |sizes|
      invariant forall m :: 0 <= m < i ==> sizes[m] < x
      invariant forall m :: j <= m < |sizes| ==> sizes[m] >= x
    {
      var h := (i + j) / 2;
      if sizes[h] < x {
        i := h + 1;
      } else {
        j := h;
      }
    }
    SearchIsUnique(sizes, x, i);
  }

  // One turn of the decode loop, and where it stops
  lemma TurnOfLoop(k: Keys, s: State, src: seq<byte>, out: seq<byte>)
    requires k.Valid()
    ensures var d, o := DecodeAll(Sync(k).step, s, src), Step(k, s, src);
            (o.More? ==> d == Decoded(o.s, [], src, None))
            && (o.Bad? ==> d == Decoded(o.s, [], [], Some(o.error)) && out + d.out == out)
            && (o.Whole? && 0 < o.used <= |src| ==>
              var later := DecodeAll(Sync(k).step, o.s, src[o.used..]);
              d.(out := out + d.out) == later.(out := (out + o.payload) + later.out))
    ensures |src| <= 4 && !s.raw ==> DecodeAll(Sync(k).step, s, src) == Decoded(s, [], src, None)
    ensures out + [] == out
  {
    assert |src| <= 4 && !s.raw ==> Step(k, s, src) == More(s);
    hide Step, DecodeAll;
    OneTurn(Sync(k).step, s, src, out);
  }

  // What is encrypted in place, piece by piece, is encrypted as a whole.
  lemma Advance(ks: nat -> byte, start: nat, was: seq<byte>, now: seq<byte>, clear: seq<byte>, lo: nat, hi: nat)
    requires lo <= hi <= |clear| == |was| == |now|
    requires was[..lo] == Xor(ks, start, clear[..lo]) && was[lo..] == clear[lo..]
    requires now[..lo] == was[..lo] && now[hi..] == was[hi..] && now[lo..hi] == Xor(ks, start + lo, was[lo..hi])
    ensures now[..hi] == Xor(ks, start, clear[..hi]) && now[hi..] == clear[hi..]
  {
    hide XorByte;
    assert was[hi..] == was[lo..][hi - lo..] && clear[hi..] == clear[lo..][hi - lo..];
    assert was[lo..hi] == was[lo..][..hi - lo] && clear[lo..hi] == clear[lo..][..hi - lo];
    forall i | 0 <= i < hi
      ensures now[..hi][i] == Xor(ks, start, clear[..hi])[i]
    {
      if i < lo {
        assert now[..hi][i] == now[..lo][i] && clear[..lo][i] == clear[..hi][i];
      } else {
        assert now[..hi][i] == now[lo..hi][i - lo] && clear[lo..hi][i - lo] == clear[..hi][i];
      }
    }
  }

  // One turn of Encode: the first piece is packed, the rest still makes up the whole.
  lemma PackNext(k: Keys, t: Sender, pads: (Sender, seq<byte>) -> seq<byte>, b: seq<byte>, sent: seq<byte>)
    requires k.Valid() && b != []
    ensures var r := if |b| <= PIECE then |b| else PIECE;
            var (f, t1) := Pack(k, t, pads(t, b[..r]), b[..r]);
            var fs, later := PackAll(k, t, pads, Cut(b, PIECE)), PackAll(k, t1, pads, Cut(b[r..], PIECE));
            (sent + f) + Frames(later) == sent + Frames(fs) && StateAfter(t1, later) == StateAfter(t, fs)
  {
    hide Pack;
    var r := if |b| <= PIECE then |b| else PIECE;
    if |b| <= PIECE {
      assert b[..r] == b && b[r..] == [];
    }
    assert Cut(b, PIECE) == [b[..r]] + Cut(b[r..], PIECE);
    assert Cut(b, PIECE)[1..] == Cut(b[r..], PIECE);
    var (f, t1) := Pack(k, t, pads(t, b[..r]), b[..r]);
    var fs, later := PackAll(k, t, pads, Cut(b, PIECE)), PackAll(k, t1, pads, Cut(b[r..], PIECE));
    assert fs[1..] == later;
    assert (sent + f) + Frames(later) == sent + (f + Frames(later));
  }

  // The draws of getRandLength: of auth_chain_b ...
  method DrawFromTables(sizes: seq<nat>, sizes2: seq<nat>, overhead: nat, length: nat, random: XorShift128Plus)
    returns (n: nat)
    requires Table(sizes) && Table(sizes2)
    modifies random
    ensures (n, random.AsPrng()) == FromTables(sizes, sizes2, overhead, length, old(random.AsPrng()))
  {
    hide Draw, Modulo, AuthChainSpec.Search, ByLength;
    var pos := BinarySearch(sizes, length + overhead);
    var v := random.Next();
    var finalPos := pos + Modulo(v, |sizes|);
    if finalPos < |sizes| {
      return sizes[finalPos] - length - overhead;
    }
    pos := BinarySearch(sizes2, length + overhead);
    v := random.Next();
    finalPos := pos + Modulo(v, |sizes2|);
    if finalPos < |sizes2| {
      return sizes2[finalPos] - length - overhead;
    }
    if finalPos < pos + |sizes2| - 1 {
      return 0;
    }
    n := DrawByLength(length, random);
  }

  // ... and of both.
  method DrawByLength(length: nat, random: XorShift128Plus) returns (n: nat)
    modifies random
    ensures (n, random.AsPrng()) == ByLength(length, old(random.AsPrng()))
  {
    hide Draw, Modulo;
    var v := random.Next();
    if length > 1300 {
      return Modulo(v, 31);
    }
    if length > 900 {
      return Modulo(v, 127);
    }
    if length > 400 {
      return Modulo(v, 521);
    }
    n := Modulo(v, 1021);
  }

  lemma NothingLeft(k: Keys, t: Sender, pads: (Sender, seq<byte>) -> seq<byte>, sent: seq<byte>)
    requires k.Valid()
    ensures var fs := PackAll(k, t, pads, Cut([], PIECE)); sent + Frames(fs) == sent && StateAfter(t, fs) == t
  {
    assert sent + [] == sent;
  }

  // ----- one connection -----

  class AuthChain {
    const k: Keys
    var rawTrans: bool
    var lastClientHash: array<byte>
    var lastServerHash: array<byte>
    var encrypted: nat
    var decrypted: nat
    const randomClient: XorShift128Plus
    const randomServer: XorShift128Plus
    var packID: uint32
    var recvID: uint32

    ghost predicate Valid()
      reads this
    {
      && k.Valid() && lastClientHash.Length == 16 && lastServerHash.Length == 16
      && lastClientHash != lastServerHash && randomClient != randomServer
    }

    function AsSender(): Sender
      reads this, lastClientHash, randomClient
      requires Valid()
    {
      Sender(lastClientHash[..], packID, encrypted, randomClient.AsPrng())
    }

    ghost function AsReceiver(): State
      reads this, lastServerHash, randomServer
      requires Valid()
    {
      State(lastServerHash[..], recvID, decrypted, randomServer.AsPrng(), rawTrans)
    }

    // The object once the header packet has set the two hashes.
    constructor (k: Keys, client: array<byte>, server: array<byte>)
      requires k.Valid() && client != server && client.Length == 16 && server.Length == 16
      ensures Valid() && this.k == k && fresh(randomClient) && fresh(randomServer)
      ensures lastClientHash == client && lastServerHash == server
      ensures AsSender() == Sender(client[..], 1, 0, Prng(0, 0))
      ensures AsReceiver() == State(server[..], 1, 0, Prng(0, 0), false)
    {
      this.k := k;
      rawTrans := false;
      lastClientHash, lastServerHash := client, server;
      encrypted, decrypted := 0, 0;
      randomClient := new XorShift128Plus();
      randomServer := new XorShift128Plus();
      packID, recvID := 1, 1;
    }

    // getRandLength of the two protocols
    method GetRandLength(length: nat, lastHash: array<byte>, random: XorShift128Plus) returns (n: nat)
      requires k.Valid() && lastHash.Length == 16
      modifies lastHash, random
      ensures Drawn(n, lastHash[..], random.AsPrng())
              == RandLength(k.variant, length, old(lastHash[..]), old(random.AsPrng()))
    {
      hide Seeded, FromTables, ByLength, Overwritten, Table;
      if length > 1440 || (k.variant.ChainB? && length == 1440) {
        return 0;
      }
      random.InitFromBinAndLength(lastHash, length);
      if k.variant.ChainB? {
        n := DrawFromTables(k.variant.sizes, k.variant.sizes2, k.variant.overhead, length, random);
      } else {
        n := DrawByLength(length, random);
      }
    }

    // putMixedRandDataAndData, for data already encrypted; `pad` are the random bytes, as many as
    // will be drawn
    method PutMixedRandDataAndData(buf: Buffer, data: seq<byte>, pad: seq<byte>)
      requires Valid() && |pad| == RandLength(k.variant, |data|, lastClientHash[..], randomClient.AsPrng()).length
      modifies lastClientHash, randomClient, buf
      ensures var d := RandLength(k.variant, |data|, old(lastClientHash[..]), old(randomClient.AsPrng()));
              lastClientHash[..] == d.hash && buf.data == old(buf.data) + Mixed(data, pad, d.prng).0
              && randomClient.AsPrng() == Mixed(data, pad, d.prng).1
    {
      hide RandLength, Draw, Modulo;
      ghost var was := buf.data;
      var n := GetRandLength(|data|, lastClientHash, randomClient);
      if |data| == 0 {
        buf.Write(pad);
        return;
      }
      if n > 0 {
        var startPos := GetRandStartPos(n, randomClient);
        buf.Write(pad[..startPos]);
        buf.Write(data);
        buf.Write(pad[startPos..]);
        assert was + pad[..startPos] + data + pad[startPos..] == was + (pad[..startPos] + data + pad[startPos..]);
        return;
      }
      buf.Write(data);
    }

    method GetRandStartPos(length: nat, random: XorShift128Plus) returns (p: nat)
      modifies random
      ensures (p, random.AsPrng()) == StartPos(length, old(random.AsPrng()))
    {
      if length == 0 {
        return 0;
      }
      var v := random.Next();
      p := Modulo(v, 8589934609) % length;
    }

    // packData, on bytes lo to hi of the caller's array, which are encrypted where they are
    method PackData(buf: Buffer, b: array<byte>, lo: nat, hi: nat, pad: seq<byte>)
      requires Valid() && lo <= hi <= b.Length && b != lastClientHash && b != lastServerHash
      requires |pad| == RandLength(k.variant, hi - lo, lastClientHash[..], randomClient.AsPrng()).length
      modifies this`packID, this`encrypted, this`lastClientHash, lastClientHash, randomClient, buf, b
      ensures Valid() && fresh(lastClientHash)
      ensures var t := old(AsSender()); var data := old(b[lo..hi]);
              var (f, t1) := Pack(k, t, pad, data);
              buf.data == old(buf.data) + f && AsSender() == t1 && b[lo..hi] == Xor(k.ks, t.at, data)
      ensures encrypted == old(encrypted) + (hi - lo)
      ensures b[..lo] == old(b[..lo]) && b[hi..] == old(b[hi..])
    {
      hide RandLength, Mixed, Xor16, Keys.HmacMD5, Keys.Valid, HiddenLength, Xor, PutLE16, GetLE16, AF.Next;
      ghost var t, was, data := AsSender(), buf.data, b[lo..hi];
      XorInPlace(k.ks, encrypted, b, lo, hi);
      encrypted := encrypted + (hi - lo);
      var id := packID;
      packID := AF.Next(packID);
      var length := PutLE16(Xor16((hi - lo) % 0x1_0000, HiddenLength(lastClientHash[..])));
      var originalLength := |buf.data|;
      buf.Write(length);
      PutMixedRandDataAndData(buf, b[lo..hi], pad);
      Appended(was, length, buf.data);
      ghost var body := buf.data[originalLength..];
      Sign(buf, originalLength, id);
      assert was + body + k.HmacMD5(id, body)[..2] == was + (body + k.HmacMD5(id, body)[..2]);
    }

    // The hash of what has been written since `from` becomes the last one, and two bytes of it end the frame.
    method Sign(buf: Buffer, from: nat, id: uint32)
      requires Valid() && from <= |buf.data|
      modifies this`lastClientHash, buf
      ensures Valid() && fresh(lastClientHash) && lastClientHash[..] == k.HmacMD5(id, old(buf.data)[from..])
      ensures buf.data == old(buf.data) + lastClientHash[..2]
    {
      hide Keys.HmacMD5, Keys.Valid;
      lastClientHash := NewHash(k.HmacMD5(id, buf.data[from..]));
      buf.Write(lastClientHash[..2]);
    }

    // Encode, once the header packet is out.  The caller's array is left encrypted.
    method Encode(buf: Buffer, b: array<byte>, pads: (Sender, seq<byte>) -> seq<byte>)
      requires Valid() && b != lastClientHash && b != lastServerHash && Pads(k, pads)
      modifies this`packID, this`encrypted, this`lastClientHash, lastClientHash, randomClient, buf, b
      ensures Valid()
      ensures var t := old(AsSender()); var fs := PackAll(k, t, pads, Cut(old(b[..]), PIECE));
              buf.data == old(buf.data) + Frames(fs) && AsSender() == StateAfter(t, fs)
      ensures b[..] == Xor(k.ks, old(encrypted), old(b[..]))
    {
      hide Pack, RandLength, Xor, PackAll, Frames, StateAfter, Cut, Keys.Valid, Pads;
      ghost var clear, fs := b[..], PackAll(k, AsSender(), pads, Cut(b[..], PIECE));
      ghost var total, last := buf.data + Frames(fs), StateAfter(AsSender(), fs);
      ghost var start := encrypted;
      var lo := 0;
      assert b[..0] == [] && clear[..0] == [] && b[0..] == clear[0..] == clear;
      while b.Length - lo > PIECE
        invariant Valid() && lo <= b.Length && encrypted == start + lo && b != lastClientHash && b != lastServerHash
        invariant (lastClientHash == old(lastClientHash) || fresh(lastClientHash))
                  && lastServerHash == old(lastServerHash)
        invariant b[..lo] == Xor(k.ks, start, clear[..lo]) && b[lo..] == clear[lo..]
        invariant buf.data + Frames(PackAll(k, AsSender(), pads, Cut(clear[lo..], PIECE))) == total
        invariant StateAfter(AsSender(), PackAll(k, AsSender(), pads, Cut(clear[lo..], PIECE))) == last
      {
        PackPiece(buf, b, lo, lo + PIECE, pads, clear, start);
        lo := lo + PIECE;
      }
      if b.Length - lo > 0 {
        PackPiece(buf, b, lo, b.Length, pads, clear, start);
        lo := b.Length;
      }
      assert clear[lo..] == [] && clear[..lo] == clear && b[..lo] == b[..];
      NothingLeft(k, AsSender(), pads, buf.data);
    }

    // One turn of Encode: what is left to pack still makes up the whole.
    method PackPiece(buf: Buffer, b: array<byte>, lo: nat, hi: nat, pads: (Sender, seq<byte>) -> seq<byte>,
                     ghost clear: seq<byte>, ghost start: nat)
      requires Valid() && b != lastClientHash && b != lastServerHash && Pads(k, pads)
      requires |clear| == b.Length && lo < b.Length && hi == (if b.Length - lo > PIECE then lo + PIECE else b.Length)
      requires encrypted == start + lo && b[..lo] == Xor(k.ks, start, clear[..lo]) && b[lo..] == clear[lo..]
      modifies this`packID, this`encrypted, this`lastClientHash, lastClientHash, randomClient, buf, b
      ensures Valid() && fresh(lastClientHash)
      ensures encrypted == start + hi && b[..hi] == Xor(k.ks, start, clear[..hi]) && b[hi..] == clear[hi..]
      ensures var fs := PackAll(k, old(AsSender()), pads, Cut(clear[lo..], PIECE));
              var later := PackAll(k, AsSender(), pads, Cut(clear[hi..], PIECE));
              buf.data + Frames(later) == old(buf.data) + Frames(fs)
              && StateAfter(AsSender(), later) == StateAfter(old(AsSender()), fs)
    {
      hide Pack, PackAll, RandLength, Xor, Frames, StateAfter, Cut;
      ghost var was := b[..];
      assert was[lo..hi] == was[lo..][..hi - lo] && clear[lo..hi] == clear[lo..][..hi - lo];
      assert clear[lo..][hi - lo..] == clear[hi..];
      PackNext(k, AsSender(), pads, clear[lo..], buf.data);
      assert |pads(AsSender(), b[lo..hi])|
        == RandLength(k.variant, hi - lo, lastClientHash[..], randomClient.AsPrng()).length;
      PackData(buf, b, lo, hi, pads(AsSender(), b[lo..hi]));
      Advance(k.ks, start, was, b[..], clear, lo, hi);
    }

    // Decode: everything, once a frame has been refused; else the frames
    method Decode(dst: Buffer, src: Buffer) returns (err: Option<DecodeError>)
      requires Valid() && dst != src
      modifies this`rawTrans, this`lastServerHash, this`decrypted, this`recvID, lastServerHash, randomServer, dst, src
      ensures Valid()
      ensures var d := DecodeAll(Sync(k).step, old(AsReceiver()), old(src.data));
              err == d.error && AsReceiver() == d.s && src.data == d.rest && dst.data == old(dst.data) + d.out
    {
      if rawTrans {
        AllAtOnce(Sync(k).step, AsReceiver(), src.data);
        hide Step, DecodeAll;
        dst.Write(src.data);
        src.Reset();
        return None;
      }
      err := DecodeFrames(dst, src);
    }

    // The loop over the frames in src
    method DecodeFrames(dst: Buffer, src: Buffer) returns (err: Option<DecodeError>)
      requires Valid() && dst != src && !rawTrans
      modifies this`rawTrans, this`lastServerHash, this`decrypted, this`recvID, lastServerHash, randomServer, dst, src
      ensures Valid()
      ensures var d := DecodeAll(Sync(k).step, old(AsReceiver()), old(src.data));
              err == d.error && AsReceiver() == d.s && src.data == d.rest && dst.data == old(dst.data) + d.out
    {
      hide Step, DecodeAll, Sync, Keys.Valid;
      ghost var whole := DecodeAll(Sync(k).step, AsReceiver(), src.data);
      ghost var out := [];
      while |src.data| > 4
        invariant Valid() && (lastServerHash == old(lastServerHash) || fresh(lastServerHash))
        invariant !rawTrans && dst.data == old(dst.data) + out
        invariant var d := DecodeAll(Sync(k).step, AsReceiver(), src.data); d.(out := out + d.out) == whole
        decreases |src.data|
      {
        ghost var s, b := AsReceiver(), src.data;
        TurnOfLoop(k, s, b, out);
        var taken;
        taken, err := Turn(dst, src);
        if err != None || !taken {
          return;
        }
        ghost var payload := Step(k, s, b).payload;
        assert (old(dst.data) + out) + payload == old(dst.data) + (out + payload);
        out := out + payload;
      }
      TurnOfLoop(k, AsReceiver(), src.data, out);
      err := None;
    }

    // The body of the loop: takes a frame, or finds that there is no whole one, or refuses it.
    method Turn(dst: Buffer, src: Buffer) returns (taken: bool, err: Option<DecodeError>)
      requires Valid() && dst != src && !rawTrans && |src.data| > 4
      modifies this`rawTrans, this`lastServerHash, this`decrypted, this`recvID, lastServerHash, randomServer, dst, src
      ensures Valid() && (lastServerHash == old(lastServerHash) || fresh(lastServerHash))
      ensures var o := Step(k, old(AsReceiver()), old(src.data));
              AsReceiver() == o.s && taken == o.Whole? && err == (if o.Bad? then Some(o.error) else None)
              && (o.More? ==> src.data == old(src.data) && dst.data == old(dst.data))
              && (o.Bad? ==> src.data == [] && dst.data == old(dst.data))
              && (o.Whole? ==> !o.s.raw && 0 < o.used <= |old(src.data)| && src.data == old(src.data)[o.used..]
                               && dst.data == old(dst.data) + o.payload)
    {
      hide RandLength, Xor16, GetLE16, Keys.Valid, HiddenLength, Open;
      taken, err := false, None;
      var b := src.data;
      var dataLength: nat := Xor16(GetLE16(b[..2]), HiddenLength(lastServerHash[..]));
      var randDataLength := GetRandLength(dataLength, lastServerHash, randomServer);
      var length := dataLength + randDataLength;
      if length >= 4096 {
        rawTrans := true;
        src.Reset();
        return false, Some(LengthError);
      }
      if 4 + length > |b| {
        return;
      }
      taken, err := OpenFrame(dst, src, dataLength, randDataLength);
    }

    // The second half of the loop's body, for a frame that is all there
    method OpenFrame(dst: Buffer, src: Buffer, dataLength: nat, randDataLength: nat)
      returns (taken: bool, err: Option<DecodeError>)
      requires Valid() && dst != src && !rawTrans && 4 + dataLength + randDataLength <= |src.data|
      modifies this`rawTrans, this`lastServerHash, this`decrypted, this`recvID, randomServer, dst, src
      ensures Valid() && (lastServerHash == old(lastServerHash) || fresh(lastServerHash))
      ensures var o := Open(k, old(AsReceiver()), dataLength, randDataLength, old(src.data));
              AsReceiver() == o.s && taken == o.Whole? && err == (if o.Bad? then Some(o.error) else None) && !o.More?
              && (o.Bad? ==> src.data == [] && dst.data == old(dst.data))
              && (o.Whole? ==> !o.s.raw && 0 < o.used <= |old(src.data)| && src.data == old(src.data)[o.used..]
                               && dst.data == old(dst.data) + o.payload)
    {
      hide Keys.HmacMD5, Keys.Valid, Xor, Start, Payload, AF.Next;
      var b, length := src.data, dataLength + randDataLength;
      var serverHash := k.HmacMD5(recvID, b[..length + 2]);
      if serverHash[..2] != b[length + 2..length + 4] {
        rawTrans := true;
        src.Reset();
        return false, Some(ChecksumError);
      }
      lastServerHash := NewHash(serverHash);
      taken := Deliver(dst, b, dataLength, randDataLength);
      err := None;
      if !taken {
        src.Reset();
        return false, Some(SliceOutOfRange);
      }
      recvID := AF.Next(recvID);
      src.Next(length + 4);
    }

    // The data of a frame that passed the check is found, decrypted and put out.
    method Deliver(dst: Buffer, b: seq<byte>, dataLength: nat, randDataLength: nat) returns (ok: bool)
      requires 4 + dataLength + randDataLength <= |b|
      modifies this`decrypted, randomServer, dst
      ensures var (start, r) := Start(dataLength, randDataLength, old(randomServer.AsPrng()));
              randomServer.AsPrng() == r && decrypted == old(decrypted) + dataLength
              && ok == (recvID != 1 || dataLength >= 2)
              && dst.data == old(dst.data)
                 + if ok then Payload(recvID, Xor(k.ks, old(decrypted), b[2 + start..2 + start + dataLength])) else []
    {
      hide Xor, StartPos;
      var pos := 2;
      if dataLength > 0 && randDataLength > 0 {
        var startPos := GetRandStartPos(randDataLength, randomServer);
        pos := pos + startPos;
      }
      var wantedData := Xor(k.ks, decrypted, b[pos..pos + dataLength]);
      decrypted := decrypted + dataLength;
      ok := true;
      if recvID == 1 {
        if |wantedData| < 2 {
          return false;
        }
        dst.Write(wantedData[2..]);
      } else {
        dst.Write(wantedData);
      }
    }
  }

  method NewHash(h: Hash) returns (a: array<byte>)
    ensures fresh(a) && a[..] == h
  {
    a := new byte[16](i requires 0 <= i < 16 => h[i]);
    assert a[..] == h;
  }

  lemma Appended(was: seq<byte>, a: seq<byte>, now: seq<byte>)
    requires was + a <= now
    ensures now[|was|..] == a + now[|was + a|..] && now == was + now[|was|..]
  {
  }

  // XORKeyStream with source and destination the same
  method XorInPlace(ks: nat -> byte, at: nat, b: array<byte>, lo: nat, hi: nat)
    requires lo <= hi <= b.Length
    modifies b
    ensures b[lo..hi] == Xor(ks, at, old(b[lo..hi])) && b[..lo] == old(b[..lo]) && b[hi..] == old(b[hi..])
  {
    hide XorByte;
    var i := lo;
    while i < hi
      invariant lo <= i <= hi
      invariant forall j :: lo <= j < i ==> b[j] == XorByte(old(b[j]), ks(at + (j - lo)))
      invariant forall j :: 0 <= j < lo || i <= j < b.Length ==> b[j] == old(b[j])
    {
      b[i] := XorByte(b[i], ks(at + (i - lo)));
      i := i + 1;
    }
  }
}
