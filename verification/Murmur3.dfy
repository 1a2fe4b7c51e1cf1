/**
 32-bit murmur3: a digest that is written to in pieces, against the hash of the whole.
 */
module Murmur3 {
  import opened Bytes

  // ----- the hash of a whole -----

  function Wide(b: bv8): bv32 {
    b as bv32
  }

  // Four bytes as a little-endian machine loads them
  function Word(b: seq<bv8>): bv32
    requires |b| == 4
  {
    Wide(b[0]) | (Wide(b[1]) << 8) | (Wide(b[2]) << 16) | (Wide(b[3]) << 24)
  }

  // The four factors
  function Times1(x: bv32): bv32 {
    x * 0xcc9e2d51
  }

  function Times2(x: bv32): bv32 {
    x * 0x1b873593
  }

  function Times3(x: bv32): bv32 {
    x * 0x85ebca6b
  }

  function Times4(x: bv32): bv32 {
    x * 0xc2b2ae35
  }

  function Xor(x: bv32, y: bv32): bv32 {
    x ^ y
  }

  function Fold16(x: bv32): bv32 {
    x ^ (x >> 16)
  }

  function Fold13(x: bv32): bv32 {
    x ^ (x >> 13)
  }

  function Scramble(k: bv32): bv32 {
    Times2(Times1(k).RotateLeft(15))
  }

  function Round(h: bv32, k: bv32): bv32 {
    var x := Xor(h, Scramble(k)).RotateLeft(13);
    x * 4 + x + 0xe6546b64
  }

  // All whole blocks of p, from the running hash h
  function Absorb(h: bv32, p: seq<bv8>): bv32
    decreases |p|
  {
    if |p| < 4 then h else Absorb(Round(h, Word(p[..4])), p[4..])
  }

  // The bytes after the last whole block
  function Left(p: seq<bv8>): (t: seq<bv8>)
    ensures |t| < 4
  {
    if |p| < 4 then p else Left(p[4..])
  }

  // The switch on the length of the tail, with its fallthroughs
  function TailWord(t: seq<bv8>): bv32
    requires 0 < |t| < 4
  {
    var three := if |t| >= 3 then Wide(t[2]) << 16 else 0;
    var two := if |t| >= 2 then three ^ (Wide(t[1]) << 8) else three;
    two ^ Wide(t[0])
  }

  function TailMix(h: bv32, t: seq<bv8>): bv32
    requires |t| < 4
  {
    if t == [] then h else Xor(h, Scramble(TailWord(t)))
  }

  function Low32(n: nat): uint32 {
    n % 0x1_0000_0000
  }

  function Word32(n: uint32): bv32 {
    n as bv32
  }

  function Length32(length: nat): bv32 {
    Word32(Low32(length))
  }

  function Finish(h: bv32, t: seq<bv8>, length: nat): bv32
    requires |t| < 4
  {
    var h1 := Xor(TailMix(h, t), Length32(length));
    Fold16(Times4(Fold13(Times3(Fold16(h1)))))
  }

  // Sum32WithSeed
  function Hash(data: seq<bv8>, seed: bv32): bv32 {
    Finish(Absorb(seed, data), Left(data), |data|)
  }

  // What is written first goes in first, and its last bytes wait for what comes next.
  lemma {:induction false} AbsorbInPieces(h: bv32, a: seq<bv8>, b: seq<bv8>)
    ensures Absorb(h, a + b) == Absorb(Absorb(h, a), Left(a) + b) && Left(a + b) == Left(Left(a) + b)
    decreases |a|
  {
    hide Round, Word;
    if |a| >= 4 {
      AbsorbInPieces(Round(h, Word(a[..4])), a[4..], b);
      assert (a + b)[..4] == a[..4] && (a + b)[4..] == a[4..] + b;
    }
  }

  // The sum after writing the chunks one by one, from a running hash, pending bytes and a length.
  function SumAfter(h: bv32, t: seq<bv8>, length: nat, chunks: seq<seq<bv8>>): bv32
    requires |t| < 4
    decreases |chunks|
  {
    if chunks == [] then Finish(h, t, length)
    else SumAfter(Absorb(h, t + chunks[0]), Left(t + chunks[0]), length + |chunks[0]|, chunks[1..])
  }

  // However the data is cut into writes, the sum is the hash of the whole.
  lemma {:induction false} AnyPartition(seed: bv32, done: seq<bv8>, chunks: seq<seq<bv8>>)
    ensures SumAfter(Absorb(seed, done), Left(done), |done|, chunks) == Hash(done + Concat(chunks), seed)
    decreases |chunks|
  {
    hide Absorb, Left, Finish;
    if chunks == [] {
      assert done + [] == done;
    } else {
      AbsorbInPieces(seed, done, chunks[0]);
      AnyPartition(seed, done + chunks[0], chunks[1..]);
      assert done + Concat(chunks) == done + chunks[0] + Concat(chunks[1..]);
    }
  }

  lemma {:induction false} LeftIsSuffix(p: seq<bv8>)
    ensures Left(p) == p[|p| / 4 * 4..]
  {
    if |p| >= 4 {
      LeftIsSuffix(p[4..]);
      assert p[4..][(|p| - 4) / 4 * 4..] == p[|p| / 4 * 4..];
    }
  }

  // The i-th turn of the block loop, and its end
  lemma AbsorbBlock(h: bv32, p: seq<bv8>, i: nat)
    requires i <= |p| / 4
    ensures i < |p| / 4 ==> Absorb(h, p[i * 4..]) == Absorb(Round(h, Word(p[i * 4..i * 4 + 4])), p[(i + 1) * 4..])
    ensures i == |p| / 4 ==> Absorb(h, p[i * 4..]) == h
  {
    hide Round, Word;
    if i < |p| / 4 {
      assert p[i * 4..][..4] == p[i * 4..i * 4 + 4] && p[i * 4..][4..] == p[(i + 1) * 4..];
    }
  }

  // ----- the digest -----

  // A slice of an array
  datatype Slice = Slice(a: array<bv8>, lo: nat, hi: nat)
  {
    ghost predicate Valid() {
      lo <= hi <= a.Length
    }

    function Bytes(): (s: seq<bv8>)
      reads a
      requires Valid()
      ensures |s| == hi - lo
    {
      a[lo..hi]
    }
  }

  lemma PartOf(s: Slice, i: nat, j: nat)
    requires s.Valid() && i <= j <= s.hi - s.lo
    ensures Slice(s.a, s.lo + i, s.lo + j).Bytes() == s.Bytes()[i..j]
    ensures i == 0 ==> s.Bytes()[i..j] == s.Bytes()[..j]
    ensures j == s.hi - s.lo ==> s.Bytes()[i..j] == s.Bytes()[i..]
  {
  }

  class Digest32 {
    const seed: bv32
    const buf: array<bv8>
    var clen: nat
    var tail: nat  // the pending bytes are buf[..tail]
    var h1: bv32
    ghost var written: seq<bv8>  // since the last Reset

    ghost predicate Valid()
      reads this, buf
    {
      && buf.Length == 16 && tail <= buf.Length
      && h1 == Absorb(seed, written) && buf[..tail] == Left(written) && clen == |written|
    }

    constructor (seed: bv32)
      ensures Valid() && fresh(buf) && this.seed == seed && written == []
    {
      this.seed := seed;
      buf := new bv8[16];
      clen, tail, h1, written := 0, 0, seed, [];
    }

    method Reset()
      requires Valid()
      modifies this
      ensures Valid() && written == []
    {
      clen, tail, h1, written := 0, 0, seed, [];
    }

    // bmix: absorbs the whole blocks, gives back the rest
    method Bmix(p: Slice) returns (rest: Slice)
      requires p.Valid()
      modifies this`h1
      ensures rest.Valid() && rest.a == p.a && rest.hi == p.hi
      ensures h1 == Absorb(old(h1), p.Bytes()) && rest.Bytes() == Left(p.Bytes())
    {
      hide Round, Word, Left, Absorb, Slice.Bytes;
      var nblocks := (p.hi - p.lo) / 4;
      ghost var all := p.Bytes();
      var i := 0;
      while i < nblocks
        invariant i <= nblocks && all == p.Bytes()
        invariant Absorb(old(h1), all) == Absorb(h1, all[i * 4..])
      {
        AbsorbBlock(h1, all, i);
        PartOf(p, i * 4, i * 4 + 4);
        h1 := Round(h1, Word(Slice(p.a, p.lo + i * 4, p.lo + i * 4 + 4).Bytes()));
        i := i + 1;
      }
      AbsorbBlock(h1, all, nblocks);
      LeftIsSuffix(all);
      PartOf(p, nblocks * 4, p.hi - p.lo);
      rest := Slice(p.a, p.lo + nblocks * 4, p.hi);
    }

    // append(d.tail, p...) where it fits into buf: writes behind the tail
    method AppendToTail(p: Slice) returns (s: Slice)
      requires buf.Length == 16 && p.Valid() && p.a != buf && tail + (p.hi - p.lo) <= 16
      modifies buf
      ensures s.Valid() && s.a == buf && s.Bytes() == old(buf[..tail]) + p.Bytes()
    {
      var n := CopyInto(buf, tail, p);
      s := Slice(buf, 0, tail + n);
      assert buf[..tail + n] == buf[..tail] + buf[tail..tail + n];
    }

    method Write(data: Slice) returns (n: nat)
      requires Valid() && data.Valid() && data.a != buf
      modifies this, buf
      ensures Valid() && n == |data.Bytes()| && written == old(written) + data.Bytes()
    {
      hide Absorb, Left, Slice.Bytes;
      n := data.hi - data.lo;
      clen := clen + n;
      ghost var b := data.Bytes();
      AbsorbInPieces(seed, written, b);
      var p := StickBack(data);
      var rest := Bmix(p);
      ghost var left := rest.Bytes();
      assert left == Left(written + b) && h1 == Absorb(seed, written + b);
      tail := CopyInto(buf, 0, rest);
      assert buf[..tail] == buf[0..tail] == left;
      written := written + b;
    }

    // Sticks back the pending bytes: completes and absorbs their block, or puts the data behind them.
    method StickBack(data: Slice) returns (p: Slice)
      requires buf.Length == 16 && tail < 4 && data.Valid() && data.a != buf
      modifies this`h1, buf
      ensures p.Valid() && p.a in {buf, data.a} && p.hi - p.lo <= tail + (data.hi - data.lo)
      ensures var all := old(buf[..tail]) + data.Bytes();
              Absorb(h1, p.Bytes()) == Absorb(old(h1), all) && Left(p.Bytes()) == Left(all)
    {
      hide Absorb, Left, Slice.Bytes;
      p := data;
      ghost var pending := buf[..tail];
      ghost var b := data.Bytes();
      if tail > 0 {
        var nfree := 4 - tail;
        if nfree < p.hi - p.lo {
          PartOf(p, 0, nfree);
          PartOf(p, nfree, p.hi - p.lo);
          var block := AppendToTail(Slice(p.a, p.lo, p.lo + nfree));
          p := Slice(p.a, p.lo + nfree, p.hi);
          ghost var h := h1;
          var _ := Bmix(block);
          OneBlock(h, pending, b, nfree);
        } else {
          p := AppendToTail(p);
        }
      } else {
        assert pending + b == b;
      }
    }

    method Sum32() returns (r: bv32)
      requires Valid()
      ensures r == Hash(written, seed)
    {
      r := Finish(h1, buf[..tail], clen);
    }
  }

  // Filling the tail up to a block and absorbing that first makes no difference.
  lemma OneBlock(h: bv32, pending: seq<bv8>, b: seq<bv8>, n: nat)
    requires |pending| + n == 4 && n <= |b|
    ensures Absorb(Absorb(h, pending + b[..n]), b[n..]) == Absorb(h, pending + b) && Left(b[n..]) == Left(pending + b)
  {
    hide Round, Word;
    assert (pending + b)[..4] == pending + b[..n] && (pending + b)[4..] == b[n..];
    assert (pending + b[..n])[..4] == pending + b[..n] && |(pending + b[..n])[4..]| == 0;
  }

  // copy(dst[at:], src), which may be the same memory
  method CopyInto(dst: array<bv8>, at: nat, src: Slice) returns (n: nat)
    requires src.Valid() && at + (src.hi - src.lo) <= dst.Length
    modifies dst
    ensures n == src.hi - src.lo && dst[at..at + n] == old(src.Bytes()) && dst[..at] == old(dst[..at])
  {
    n := src.hi - src.lo;
    forall j | at <= j < at + n {
      dst[j] := src.a[src.lo + (j - at)];
    }
  }

  // Sum32WithSeed
  method Sum32WithSeed(data: seq<bv8>, seed: bv32) returns (r: bv32)
    ensures r == Hash(data, seed)
  {
    hide Round, Word, Finish, Absorb, Left;
    var h1 := seed;
    var nblocks := |data| / 4;
    var i := 0;
    while i < nblocks
      invariant i <= nblocks && Absorb(seed, data) == Absorb(h1, data[i * 4..])
    {
      AbsorbBlock(h1, data, i);
      h1 := Round(h1, Word(data[i * 4..i * 4 + 4]));
      i := i + 1;
    }
    AbsorbBlock(h1, data, nblocks);
    LeftIsSuffix(data);
    r := Finish(h1, data[nblocks * 4..], |data|);
  }
}
