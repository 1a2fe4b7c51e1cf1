/**
 What the decoders of the SSR auth protocols take, told on the bytes of a frame and the digests alone.
 */
module AuthLaws {
  import opened Wrappers
  import opened Bytes
  import opened Reassembly
  import AF = AuthFrame
  import AC = AuthChainSpec
  import opened XorStream

  // A number's four bytes, the lowest first
  function Four(n: uint32): seq<byte> {
    [n % 0x100, n / 0x100 % 0x100, n / 0x1_0000 % 0x100, n / 0x100_0000]
  }

  ghost predicate Digests(hmac: (seq<byte>, seq<byte>) -> seq<byte>) {
    forall k, b :: |hmac(k, b)| >= 16
  }

  lemma FirstOf(b: seq<byte>, n: nat)
    requires |b| >= n
    ensures AF.First(b, n) == b[..n]
  {
    assert (b + seq(n, _ => 0))[..n] == b[..n];
  }

  // Writes are cut into pieces of 8100 bytes, or of 2800 by the chain protocols, and a shorter last one.
  ghost predicate Pieces(data: seq<byte>, ps: seq<seq<byte>>, n: nat) {
    && Concat(ps) == data && (forall i :: 0 <= i < |ps| - 1 ==> |ps[i]| == n)
    && forall i :: 0 <= i < |ps| ==> 0 < |ps[i]| <= n
  }

  lemma PiecesOfWrites(data: seq<byte>)
    ensures Pieces(data, Cut(data, AF.PIECE), 8100) && Pieces(data, Cut(data, AC.PIECE), 2800)
  {
    CutKeepsAll(data, 8100);
    CutSizes(data, 8100);
    CutKeepsAll(data, 2800);
    CutSizes(data, 2800);
  }

  function LowFirst(b: seq<byte>, i: nat): nat
    requires i + 2 <= |b|
  {
    b[i] as int + 0x100 * b[i + 1] as int
  }

  function HighFirst(b: seq<byte>, i: nat): nat
    requires i + 2 <= |b|
  {
    0x100 * b[i] as int + b[i + 1] as int
  }

  // A frame of auth_aes128_sha1: its length in the first two bytes, the low byte first; the first two bytes
  // of the digest of these; where the data starts, told by the padding; and the first four bytes of the
  // digest of all before.  The digests are keyed by user key and frame number.
  ghost predicate TakesAes128(key: seq<byte>, hmac: (seq<byte>, seq<byte>) -> seq<byte>, id: uint32, src: seq<byte>)
    requires Digests(hmac)
  {
    && |src| >= 7 && 7 <= LowFirst(src, 0) < 8192
    && var n := LowFirst(src, 0);
    && n <= |src| && src[2..4] == hmac(key + Four(id), src[..2])[..2]
    && src[n - 4..n] == hmac(key + Four(id), src[..n - 4])[..4] && LowStart(src) <= n - 4
  }

  function LowStart(src: seq<byte>): nat
    requires |src| >= 7
  {
    if src[4] < 255 then src[4] as int + 4 else LowFirst(src, 5) + 4
  }

  function HighStart(src: seq<byte>): nat
    requires |src| >= 7
  {
    if src[4] < 255 then src[4] as int + 4 else HighFirst(src, 5) + 4
  }

  lemma Aes128TakesExactly(key: seq<byte>, hmac: (seq<byte>, seq<byte>) -> seq<byte>, id: uint32, src: seq<byte>)
    requires Digests(hmac)
    ensures var o := AF.Step(AF.Aes128(key, hmac), AF.State(id, false), src);
            && (o.Whole? <==> TakesAes128(key, hmac, id, src))
            && (o.Whole? ==>
                  var n := LowFirst(src, 0);
                  && n <= |src| && o.used == n && LowStart(src) <= n - 4 && o.payload == src[LowStart(src)..n - 4]
                  && o.s == AF.State(if id == 0xffff_ffff then 0 else id + 1, false))
  {
    var sch := AF.Aes128(key, hmac);
    assert AF.PutLE32(id) == Four(id);
    hide AF.PutLE32, Four, GetLE16, AF.First;
    if |src| >= 7 {
      var n := LowFirst(src, 0);
      LowTwoOf(src[..2]);
      LowTwoOf(src[5..7]);
      FirstOf(hmac(key + Four(id), src[..2]), 2);
      if 7 <= n <= |src| {
        FirstOf(hmac(key + Four(id), src[..n - 4]), 4);
      }
    } else if |src| > 4 {
      LowTwoOf(src[..2]);
    }
  }

  // A frame of auth_sha1_v4: the length high byte first; the low 16 bits of its CRC32, low byte first; and
  // the Adler32 of all before, low byte first.
  ghost predicate TakesSha1V4(crc32: seq<byte> -> uint32, adler32: seq<byte> -> uint32, src: seq<byte>) {
    && |src| >= 7 && 7 <= HighFirst(src, 0) < 8192
    && var n := HighFirst(src, 0);
    && n <= |src| && LowFirst(src, 2) == crc32(src[..2]) % 0x1_0000
    && src[n - 4..n] == Four(adler32(src[..n - 4])) && HighStart(src) <= n - 4
  }

  lemma Sha1V4TakesExactly(crc32: seq<byte> -> uint32, adler32: seq<byte> -> uint32, id: uint32, src: seq<byte>)
    ensures var o := AF.Step(AF.Sha1V4(crc32, adler32), AF.State(id, false), src);
            && (o.Whole? <==> TakesSha1V4(crc32, adler32, src))
            && (o.Whole? ==>
                  var n := HighFirst(src, 0);
                  && n <= |src| && o.used == n && HighStart(src) <= n - 4 && o.payload == src[HighStart(src)..n - 4]
                  && o.s == AF.State(if id == 0xffff_ffff then 0 else id + 1, false))
  {
    var sch := AF.Sha1V4(crc32, adler32);
    hide AF.PutLE32, Four, GetBE16, PutLE16, AF.First;
    if |src| >= 7 {
      var n := HighFirst(src, 0);
      HighTwoOf(src[..2]);
      HighTwoOf(src[5..7]);
      LowTwo(crc32(src[..2]) % 0x1_0000, src[2], src[3]);
      assert src[2..4] == [src[2], src[3]];
      if 7 <= n <= |src| {
        SameFour(adler32(src[..n - 4]));
      }
    } else if |src| > 4 {
      HighTwoOf(src[..2]);
    }
  }

  // What is not taken: too little, or a frame whose head, length, tail or start is wrong, in this order.  After a
  // wrong length or tail everything goes through as it is.
  ghost predicate Declines(id: uint32, src: seq<byte>, o: Outcome<AF.State>, n: nat, head: bool, tail: bool,
                           start: nat) {
    && (|src| <= 4 ==> o == More(AF.State(id, false)))
    && (|src| > 4 && !head ==> o == Bad(AF.State(id, false), MacError))
    && (|src| > 4 && head && !(7 <= n < 8192) ==> o == Bad(AF.State(id, true), LengthError))
    && (|src| > 4 && head && 7 <= n < 8192 && n > |src| ==> o == More(AF.State(id, false)))
    && (head && 7 <= n < 8192 && n <= |src| && !tail ==> o == Bad(AF.State(id, true), ChecksumError))
    && (head && 7 <= n < 8192 && n <= |src| && tail && start > n - 4 ==>
          o == Bad(AF.State(if id == 0xffff_ffff then 0 else id + 1, false), SliceOutOfRange))
  }

  lemma Aes128Declines(key: seq<byte>, hmac: (seq<byte>, seq<byte>) -> seq<byte>, id: uint32, src: seq<byte>)
    requires Digests(hmac)
    ensures var o := AF.Step(AF.Aes128(key, hmac), AF.State(id, false), src);
            var n := if |src| > 4 then LowFirst(src, 0) else 0;
            Declines(id, src, o, n, |src| > 4 && src[2..4] == hmac(key + Four(id), src[..2])[..2],
                     4 < n <= |src| && src[n - 4..n] == hmac(key + Four(id), src[..n - 4])[..4],
                     if |src| >= 7 then LowStart(src) else 0)
  {
    SameFour(id);
    hide AF.PutLE32, Four, GetLE16, AF.First;
    if |src| > 4 {
      var n := LowFirst(src, 0);
      LowTwoOf(src[..2]);
      FirstOf(hmac(key + Four(id), src[..2]), 2);
      if 7 <= n <= |src| {
        LowTwoOf(src[5..7]);
        FirstOf(hmac(key + Four(id), src[..n - 4]), 4);
      }
    }
  }

  lemma Sha1V4Declines(crc32: seq<byte> -> uint32, adler32: seq<byte> -> uint32, id: uint32, src: seq<byte>)
    ensures var o := AF.Step(AF.Sha1V4(crc32, adler32), AF.State(id, false), src);
            var n := if |src| > 4 then HighFirst(src, 0) else 0;
            Declines(id, src, o, n, |src| > 4 && LowFirst(src, 2) == crc32(src[..2]) % 0x1_0000,
                     4 < n <= |src| && src[n - 4..n] == Four(adler32(src[..n - 4])),
                     if |src| >= 7 then HighStart(src) else 0)
  {
    hide AF.PutLE32, Four, GetBE16, PutLE16, AF.First;
    if |src| > 4 {
      var n := HighFirst(src, 0);
      HighTwoOf(src[..2]);
      LowTwo(crc32(src[..2]) % 0x1_0000, src[2], src[3]);
      assert src[2..4] == [src[2], src[3]];
      if 7 <= n <= |src| {
        HighTwoOf(src[5..7]);
        SameFour(adler32(src[..n - 4]));
      }
    }
  }

  // After that, in every piece all bytes come out as they are.
  lemma RawGoesThrough(sch: AF.Scheme, id: uint32, piece: seq<byte>)
    ensures DecodeAll(AF.Sync(sch).step, AF.State(id, true), piece) == Decoded(AF.State(id, true), piece, [], None)
  {
    AllAtOnce(AF.Sync(sch).step, AF.State(id, true), piece);
  }

  lemma SameFour(n: uint32)
    ensures AF.PutLE32(n) == Four(n)
  {
  }

  lemma LowTwo(v: uint16, lo: byte, hi: byte)
    ensures PutLE16(v) == [lo, hi] <==> v == lo as int + 0x100 * hi as int
  {
  }

  lemma LowTwoOf(b: seq<byte>)
    requires |b| == 2
    ensures GetLE16(b) == b[0] as int + 0x100 * b[1] as int
  {
  }

  lemma HighTwoOf(b: seq<byte>)
    requires |b| == 2
    ensures GetBE16(b) == 0x100 * b[0] as int + b[1] as int
  {
  }

  // ----- the chain protocols -----

  // The length of the data, in the first two bytes, the low byte first, hidden by bytes 14 and 15 of the digest
  // of the frame before
  function Size(s: AC.State, src: seq<byte>): nat
    requires |src| >= 2
  {
    Xor16(LowFirst(src, 0), LowFirst(s.hash, 14))
  }

  ghost function Padding(k: AC.Keys, s: AC.State, src: seq<byte>): AC.Drawn
    requires |src| >= 2 && k.Valid()
  {
    AC.RandLength(k.variant, Size(s, src), s.hash, s.prng)
  }

  // A frame: that length; data and padding, under 4096 bytes, and not less than two of data in a frame numbered
  // 1; and the first two bytes of the digest of all before, keyed by user key and frame number.
  ghost predicate TakesChain(k: AC.Keys, s: AC.State, src: seq<byte>)
    requires k.Valid() && Digests(k.hmac)
  {
    hide Size, Padding;
    && 4 < |src|
    && var n := Size(s, src) + Padding(k, s, src).length + 2;
    && n < 4098 && n + 2 <= |src| && src[n..n + 2] == k.hmac(k.userKey + Four(s.id), src[..n])[..2]
    && (s.id == 1 ==> Size(s, src) >= 2)
  }

  // What is taken: the decrypted data, less two bytes in a frame numbered 1.  The digest of the frame hides the
  // next length, and the key stream goes on behind the data.
  ghost predicate IsTaken(k: AC.Keys, s: AC.State, src: seq<byte>, o: Outcome<AC.State>)
    requires k.Valid() && Digests(k.hmac) && |src| >= 2
  {
    hide Size, Padding, AC.RandLength, AC.StartPos, Xor;
    var size, d := Size(s, src), Padding(k, s, src);
    var n, start := size + d.length + 2, if size > 0 && d.length > 0 then AC.StartPos(d.length, d.prng).0 else 0;
    && o.Whole? && n <= |src| && o.used == n + 2 && 2 + start + size <= n && (s.id == 1 ==> size >= 2)
    && o.payload == Xor(k.ks, s.at, src[2 + start..2 + start + size])[if s.id == 1 then 2 else 0..]
    && o.s.hash == k.hmac(k.userKey + Four(s.id), src[..n])[..16]
    && o.s.id == (if s.id == 0xffff_ffff then 0 else s.id + 1) && o.s.at == s.at + size && !o.s.raw
  }

  lemma ChainTakesExactly(k: AC.Keys, s: AC.State, src: seq<byte>)
    requires k.Valid() && Digests(k.hmac) && !s.raw
    ensures AC.Step(k, s, src).Whole? <==> TakesChain(k, s, src)
    ensures TakesChain(k, s, src) ==> IsTaken(k, s, src, AC.Step(k, s, src))
  {
    hide AC.RandLength, Xor16, Xor, GetLE16, AC.StartPos, AC.Open;
    if |src| > 4 {
      LowTwoOf(src[..2]);
      LowTwoOf(s.hash[14..16]);
      var size, d := Size(s, src), Padding(k, s, src);
      if size + d.length < 4096 && 4 + size + d.length <= |src| {
        OpensExactly(k, s.(hash := d.hash, prng := d.prng), size, d.length, src);
      }
    }
  }

  lemma OpensExactly(k: AC.Keys, s: AC.State, size: nat, padding: nat, src: seq<byte>)
    requires Digests(k.hmac) && !s.raw && 4 + size + padding <= |src|
    ensures var o, n := AC.Open(k, s, size, padding, src), size + padding + 2;
            var h := k.hmac(k.userKey + Four(s.id), src[..n]);
            var start := if size > 0 && padding > 0 then AC.StartPos(padding, s.prng).0 else 0;
            && (o.Whole? <==> src[n..n + 2] == h[..2] && (s.id == 1 ==> size >= 2))
            && !o.More?
            && (o.Whole? ==>
                  && o.used == n + 2 && 2 + start + size <= n && o.s.hash == h[..16]
                  && o.payload == Xor(k.ks, s.at, src[2 + start..2 + start + size])[if s.id == 1 then 2 else 0..]
                  && o.s.id == (if s.id == 0xffff_ffff then 0 else s.id + 1) && o.s.at == s.at + size && !o.s.raw)
  {
    hide Xor, AC.StartPos, Four, AF.PutLE32, AF.First;
    var n := size + padding + 2;
    SameFour(s.id);
    FirstOf(k.hmac(k.userKey + Four(s.id), src[..n]), 16);
  }

  // What is not taken, in this order: too little; too much data and padding; part of a frame; a wrong digest;
  // less than two bytes of data in a frame numbered 1.  After too much and a wrong digest everything goes through.
  lemma ChainDeclines(k: AC.Keys, s: AC.State, src: seq<byte>)
    requires k.Valid() && Digests(k.hmac) && !s.raw
    ensures var o := AC.Step(k, s, src);
            if |src| <= 4 then o == More(s)
            else
              var n := Size(s, src) + Padding(k, s, src).length + 2;
              if n >= 4098 then o.Bad? && o.error == LengthError && o.s.raw
              else if n + 2 > |src| then o.More? && !o.s.raw && o.s.id == s.id && o.s.at == s.at
              else if src[n..n + 2] != k.hmac(k.userKey + Four(s.id), src[..n])[..2] then
                o.Bad? && o.error == ChecksumError && o.s.raw
              else if s.id == 1 && Size(s, src) < 2 then o.Bad? && o.error == SliceOutOfRange && !o.s.raw
              else o.Whole?
  {
    hide AC.RandLength, Xor16, Xor, GetLE16, AC.StartPos, AC.Open;
    if |src| > 4 {
      LowTwoOf(src[..2]);
      LowTwoOf(s.hash[14..16]);
      var size, d := Size(s, src), Padding(k, s, src);
      if size + d.length < 4096 && 4 + size + d.length <= |src| {
        OpensExactly(k, s.(hash := d.hash, prng := d.prng), size, d.length, src);
        BadExactly(k, s.(hash := d.hash, prng := d.prng), size, d.length, src);
      }
    }
  }

  lemma BadExactly(k: AC.Keys, s: AC.State, size: nat, padding: nat, src: seq<byte>)
    requires Digests(k.hmac) && !s.raw && 4 + size + padding <= |src|
    ensures var o, n := AC.Open(k, s, size, padding, src), size + padding + 2;
            var h := k.hmac(k.userKey + Four(s.id), src[..n]);
            && (src[n..n + 2] != h[..2] ==> o.Bad? && o.error == ChecksumError && o.s.raw)
            && (src[n..n + 2] == h[..2] && s.id == 1 && size < 2 ==> o.Bad? && o.error == SliceOutOfRange && !o.s.raw)
  {
    hide Xor, AC.StartPos, Four, AF.PutLE32, AF.First;
    SameFour(s.id);
    FirstOf(k.hmac(k.userKey + Four(s.id), src[..size + padding + 2]), 16);
  }
}
