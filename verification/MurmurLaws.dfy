/**
 What makes murmur3 a hash: every step can be undone, so data of one length that differ in one block,
 or in the tail, or seeds that differ, never have the same sum; and the sums known from elsewhere.
 */
module MurmurLaws {
  import opened Bytes
  import opened Murmur3

  // ----- undoing the steps -----

  function Unround(y: bv32): bv32 {
    ((y - 0xe6546b64) * 0xcccccccd).RotateRight(13)
  }

  function Unfold16(y: bv32): bv32 {
    y ^ (y >> 16)
  }

  function Unfold13(y: bv32): bv32 {
    y ^ (y >> 13) ^ (y >> 26)
  }

  // The four factors' inverses
  function Untimes1(y: bv32): bv32 {
    y * 0xdee13bb1
  }

  function Untimes2(y: bv32): bv32 {
    y * 0x56ed309b
  }

  function Untimes3(y: bv32): bv32 {
    y * 0xa5cb9243
  }

  function Untimes4(y: bv32): bv32 {
    y * 0x7ed1b41d
  }

  function Unturn(y: bv32): bv32 {
    y.RotateRight(15)
  }

  lemma UnroundUndoes(z: bv32)
    ensures Unround(z.RotateLeft(13) * 4 + z.RotateLeft(13) + 0xe6546b64) == z
  {
  }

  lemma UnfoldsUndo(z: bv32)
    ensures Unfold16(z ^ (z >> 16)) == z && Unfold13(z ^ (z >> 13)) == z
  {
  }

  lemma FoldsUndone(z: bv32)
    ensures Unfold16(Fold16(z)) == z && Unfold13(Fold13(z)) == z
  {
    hide Unfold16, Unfold13;
    UnfoldsUndo(z);
  }

  lemma Untimes1Undoes(z: bv32)
    ensures Untimes1(z * 0xcc9e2d51) == z
  {
  }

  lemma Times1Is(z: bv32)
    ensures Times1(z) == z * 0xcc9e2d51
  {
  }

  lemma Times1Undone(z: bv32)
    ensures Untimes1(Times1(z)) == z
  {
    hide *;
    Times1Is(z);
    Untimes1Undoes(z);
  }

  lemma Untimes2Undoes(z: bv32)
    ensures Untimes2(z * 0x1b873593) == z
  {
  }

  lemma Times2Is(z: bv32)
    ensures Times2(z) == z * 0x1b873593
  {
  }

  lemma Times2Undone(z: bv32)
    ensures Untimes2(Times2(z)) == z
  {
    hide *;
    Times2Is(z);
    Untimes2Undoes(z);
  }

  lemma Untimes3Undoes(z: bv32)
    ensures Untimes3(z * 0x85ebca6b) == z
  {
  }

  lemma Times3Is(z: bv32)
    ensures Times3(z) == z * 0x85ebca6b
  {
  }

  lemma Times3Undone(z: bv32)
    ensures Untimes3(Times3(z)) == z
  {
    hide *;
    Times3Is(z);
    Untimes3Undoes(z);
  }

  lemma Untimes4Undoes(z: bv32)
    ensures Untimes4(z * 0xc2b2ae35) == z
  {
  }

  lemma Times4Is(z: bv32)
    ensures Times4(z) == z * 0xc2b2ae35
  {
  }

  lemma Times4Undone(z: bv32)
    ensures Untimes4(Times4(z)) == z
  {
    hide *;
    Times4Is(z);
    Untimes4Undoes(z);
  }

  lemma XorUndone(x: bv32, y: bv32)
    ensures Xor(Xor(x, y), y) == x && Xor(Xor(x, y), x) == y
  {
  }

  lemma UnturnUndoes(x: bv32)
    ensures Unturn(x.RotateLeft(15)) == x
  {
  }

  lemma ScrambleIsInjective(k: bv32, l: bv32)
    ensures Scramble(k) == Scramble(l) ==> k == l
  {
    hide *;
    ScrambleUndone(k);
    ScrambleUndone(l);
  }

  lemma ScrambleUndone(k: bv32)
    ensures Untimes1(Unturn(Untimes2(Scramble(k)))) == k
  {
    hide Times1, Times2, Untimes1, Untimes2, Unturn;
    Times1Undone(k);
    Times2Undone(Times1(k).RotateLeft(15));
    UnturnUndoes(Times1(k));
  }

  lemma RoundIs(h: bv32, k: bv32)
    ensures var z := Xor(h, Scramble(k)); Round(h, k) == z.RotateLeft(13) * 4 + z.RotateLeft(13) + 0xe6546b64
  {
    hide Scramble, Xor;
  }

  lemma RoundUndone(h: bv32, k: bv32)
    ensures Unround(Round(h, k)) == Xor(h, Scramble(k))
  {
    hide *;
    RoundIs(h, k);
    UnroundUndoes(Xor(h, Scramble(k)));
  }

  // A round loses neither the running hash nor the block.
  lemma RoundIsInjective(h: bv32, k: bv32, h': bv32, k': bv32)
    requires Round(h, k) == Round(h', k')
    ensures h == h' <==> k == k'
  {
    hide Round, Scramble, Unround, Xor;
    RoundUndone(h, k);
    RoundUndone(h', k');
    XorUndone(h, Scramble(k));
    XorUndone(h', Scramble(k'));
    ScrambleIsInjective(k, k');
  }

  lemma {:induction false} AbsorbIsInjective(h: bv32, h': bv32, p: seq<bv8>)
    requires Absorb(h, p) == Absorb(h', p)
    ensures h == h'
    decreases |p|
  {
    hide Round, Word;
    if |p| >= 4 {
      var k := Word(p[..4]);
      AbsorbIsInjective(Round(h, k), Round(h', k), p[4..]);
      RoundIsInjective(h, k, h', k);
    }
  }

  // ----- bytes -----

  lemma WideIsInjective(a: bv8, b: bv8)
    ensures Wide(a) == Wide(b) ==> a == b
    ensures Wide(a) < 0x100
  {
  }

  lemma Parts(a: bv32, b: bv32, c: bv32, d: bv32)
    requires a < 0x100 && b < 0x100 && c < 0x100 && d < 0x100
    ensures var w := a | (b << 8) | (c << 16) | (d << 24);
            w & 0xff == a && (w >> 8) & 0xff == b && (w >> 16) & 0xff == c && w >> 24 == d
    ensures var w := (c << 16) ^ (b << 8) ^ a; w & 0xff == a && (w >> 8) & 0xff == b && (w >> 16) & 0xff == c
  {
  }

  lemma WordIsInjective(p: seq<bv8>, q: seq<bv8>)
    requires |p| == |q| == 4
    ensures Word(p) == Word(q) ==> p == q
  {
    forall i | 0 <= i < 4
      ensures Wide(p[i]) == Wide(q[i]) ==> p[i] == q[i]
      ensures Wide(p[i]) < 0x100 && Wide(q[i]) < 0x100
    {
      WideIsInjective(p[i], q[i]);
    }
    hide Wide;
    Parts(Wide(p[0]), Wide(p[1]), Wide(p[2]), Wide(p[3]));
    Parts(Wide(q[0]), Wide(q[1]), Wide(q[2]), Wide(q[3]));
  }

  lemma TailParts(a: bv32, b: bv32, c: bv32)
    requires a < 0x100 && b < 0x100 && c < 0x100
    ensures var w := ((c << 16) ^ (b << 8)) ^ a; w & 0xff == a && (w >> 8) & 0xff == b && (w >> 16) & 0xff == c
    ensures var w := (0 ^ (b << 8)) ^ a; w & 0xff == a && (w >> 8) & 0xff == b
    ensures 0 ^ a == a
  {
  }

  lemma TailWordIsInjective(p: seq<bv8>, q: seq<bv8>)
    requires 0 < |p| == |q| < 4
    ensures TailWord(p) == TailWord(q) ==> p == q
  {
    forall i | 0 <= i < |p|
      ensures Wide(p[i]) == Wide(q[i]) ==> p[i] == q[i]
      ensures Wide(p[i]) < 0x100 && Wide(q[i]) < 0x100
    {
      WideIsInjective(p[i], q[i]);
    }
    hide Wide;
    var n := |p|;
    TailParts(Wide(p[0]), if n >= 2 then Wide(p[1]) else 0, if n >= 3 then Wide(p[2]) else 0);
    TailParts(Wide(q[0]), if n >= 2 then Wide(q[1]) else 0, if n >= 3 then Wide(q[2]) else 0);
  }

  lemma FinishUndone(h: bv32, t: seq<bv8>, n: nat)
    requires |t| < 4
    ensures Unfold16(Untimes3(Unfold13(Untimes4(Unfold16(Finish(h, t, n)))))) == Xor(TailMix(h, t), Length32(n))
  {
    hide TailMix, Xor, Unfold16, Untimes3, Unfold13, Untimes4, Times3, Times4, Fold16, Fold13, Length32;
    var h1 := Xor(TailMix(h, t), Length32(n));
    var h2 := Times3(Fold16(h1));
    FoldsUndone(h1);
    Times3Undone(Fold16(h1));
    FoldsUndone(h2);
    Times4Undone(Fold13(h2));
    FoldsUndone(Times4(Fold13(h2)));
  }

  lemma FinishIsInjective(h: bv32, t: seq<bv8>, h': bv32, t': seq<bv8>, n: nat)
    requires |t| == |t'| < 4 && Finish(h, t, n) == Finish(h', t', n)
    ensures h == h' <==> t == t'
  {
    hide *;
    FinishUndone(h, t, n);
    FinishUndone(h', t', n);
    XorUndone(TailMix(h, t), Length32(n));
    XorUndone(TailMix(h', t'), Length32(n));
    TailMixIsInjective(h, t, h', t');
  }

  lemma TailMixIs(h: bv32, t: seq<bv8>)
    requires |t| < 4
    ensures TailMix(h, t) == if t == [] then h else Xor(h, Scramble(TailWord(t)))
  {
  }

  lemma TailMixIsInjective(h: bv32, t: seq<bv8>, h': bv32, t': seq<bv8>)
    requires |t| == |t'| < 4 && TailMix(h, t) == TailMix(h', t')
    ensures h == h' <==> t == t'
  {
    hide *;
    TailMixIs(h, t);
    TailMixIs(h', t');
    if t != [] {
      XorUndone(h, Scramble(TailWord(t)));
      XorUndone(h', Scramble(TailWord(t')));
      ScrambleIsInjective(TailWord(t), TailWord(t'));
      TailWordIsInjective(t, t');
    }
  }

  // ----- what the sums tell apart -----

  lemma {:induction false} WholeBlocks(h: bv32, a: seq<bv8>, b: seq<bv8>)
    requires |a| % 4 == 0
    ensures Absorb(h, a + b) == Absorb(Absorb(h, a), b) && Left(a + b) == Left(b)
    decreases |a|
  {
    hide Absorb, Left;
    AbsorbInPieces(h, a, b);
    LeftIsSuffix(a);
    assert Left(a) == [];
    assert [] + b == b;
  }

  lemma BlockFirst(h: bv32, b: seq<bv8>, c: seq<bv8>)
    requires |b| == 4
    ensures Absorb(h, b + c) == Absorb(Round(h, Word(b)), c) && Left(b + c) == Left(c)
  {
    hide Round, Word;
    assert (b + c)[..4] == b && (b + c)[4..] == c;
  }

  // Data that differ in one block
  lemma BlocksMatter(a: seq<bv8>, b: seq<bv8>, b': seq<bv8>, c: seq<bv8>, seed: bv32)
    requires |a| % 4 == 0 && |b| == |b'| == 4 && b != b'
    ensures Hash(a + (b + c), seed) != Hash(a + (b' + c), seed)
  {
    hide Absorb, Left, Finish, Round, Word;
    var h := Absorb(seed, a);
    WholeBlocks(seed, a, b + c);
    WholeBlocks(seed, a, b' + c);
    BlockFirst(h, b, c);
    BlockFirst(h, b', c);
    var x, y := Round(h, Word(b)), Round(h, Word(b'));
    if Hash(a + (b + c), seed) == Hash(a + (b' + c), seed) {
      FinishIsInjective(Absorb(x, c), Left(c), Absorb(y, c), Left(c), |a| + 4 + |c|);
      AbsorbIsInjective(x, y, c);
      RoundIsInjective(h, Word(b), h, Word(b'));
      WordIsInjective(b, b');
    }
  }

  // Data that differ in the last bytes
  lemma TailsMatter(a: seq<bv8>, t: seq<bv8>, t': seq<bv8>, seed: bv32)
    requires |a| % 4 == 0 && |t| == |t'| < 4 && t != t'
    ensures Hash(a + t, seed) != Hash(a + t', seed)
  {
    hide Finish;
    WholeBlocks(seed, a, t);
    WholeBlocks(seed, a, t');
    if Hash(a + t, seed) == Hash(a + t', seed) {
      FinishIsInjective(Absorb(seed, a), t, Absorb(seed, a), t', |a| + |t|);
    }
  }

  lemma SeedsMatter(data: seq<bv8>, seed: bv32, seed': bv32)
    requires seed != seed'
    ensures Hash(data, seed) != Hash(data, seed')
  {
    hide Absorb, Left, Finish;
    if Hash(data, seed) == Hash(data, seed') {
      FinishIsInjective(Absorb(seed, data), Left(data), Absorb(seed', data), Left(data), |data|);
      AbsorbIsInjective(seed, seed', data);
    }
  }

  // ----- known sums -----

  // Of nothing, of a tail of three bytes, of a block under a seed, and of "hello" and "hello, world"
  lemma KnownSums()
    ensures Hash([], 0) == 0 && Hash([], 1) == 0x514e28b7
    ensures Hash([0x21, 0x43, 0x65], 0) == 0x7e4a8634
    ensures Hash([0x21, 0x43, 0x65, 0x87], 0x5082edee) == 0x2362f9de
    ensures Hash([104, 101, 108, 108, 111], 0) == 0x248bfa47
    ensures Hash([104, 101, 108, 108, 111, 44, 32, 119, 111, 114, 108, 100], 0) == 0x149bbb7f
  {
    hide *;
    SumOfNothing();
    SumOfTail();
    SumOfBlock();
    SumOfHello();
    SumOfHelloWorld();
  }

  lemma SumOfNothing()
    ensures Hash([], 0) == 0 && Hash([], 1) == 0x514e28b7
  {
    NoBytes(0);
    NoBytes(1);
    NoLength();
    hide Absorb, Left, Length32;
  }

  lemma NoLength()
    ensures Length32(0) == 0
  {
  }

  // The bytes of the examples, and their lengths
  lemma Letters()
    ensures Wide(104) == 104 && Wide(101) == 101 && Wide(108) == 108 && Wide(111) == 111
  {
  }

  lemma MoreLetters()
    ensures Wide(44) == 44 && Wide(32) == 32 && Wide(119) == 119 && Wide(114) == 114 && Wide(100) == 100
  {
  }

  lemma FourBytes()
    ensures Wide(0x21) == 0x21 && Wide(0x43) == 0x43 && Wide(0x65) == 0x65 && Wide(0x87) == 0x87
  {
  }

  lemma Lengths()
    ensures Length32(3) == 3 && Length32(4) == 4 && Length32(5) == 5 && Length32(12) == 12
  {
    assert Low32(3) == 3 && Low32(4) == 4 && Low32(5) == 5 && Low32(12) == 12;
    hide Low32, Word32;
    SmallWords();
  }

  lemma SmallWords()
    ensures Word32(3) == 3 && Word32(4) == 4 && Word32(5) == 5 && Word32(12) == 12
  {
  }

  lemma SumOfTail()
    ensures Hash([0x21, 0x43, 0x65], 0) == 0x7e4a8634
  {
    FourBytes();
    Lengths();
    var t: seq<bv8> := [0x21, 0x43, 0x65];
    TailMixIs(0, t);
    hide Wide, Length32;
    assert TailWord(t) == 0x654321;
    hide TailMix, TailWord;
  }

  lemma SumOfBlock()
    ensures Hash([0x21, 0x43, 0x65, 0x87], 0x5082edee) == 0x2362f9de
  {
    FourBytes();
    Lengths();
    hide Wide, Length32;
    Block(0x5082edee, [0x21, 0x43, 0x65, 0x87], [], 0x87654321);
    hide Word, Absorb, Left;
    assert [0x21, 0x43, 0x65, 0x87] + [] == [0x21, 0x43, 0x65, 0x87];
    NoBytes(Round(0x5082edee, 0x87654321));
  }

  lemma NoBytes(h: bv32)
    ensures Absorb(h, []) == h && Left([]) == []
  {
  }

  lemma OneByte(h: bv32, b: bv8)
    ensures Absorb(h, [b]) == h && Left([b]) == [b] && TailMix(h, [b]) == Xor(h, Scramble(Wide(b)))
  {
    TailMixIs(h, [b]);
    hide Scramble, Wide, Xor;
    assert TailWord([b]) == Wide(b);
  }

  // One block of known bytes, as the number it is
  lemma Block(h: bv32, b: seq<bv8>, c: seq<bv8>, w: bv32)
    requires |b| == 4 && Word(b) == w
    ensures Absorb(h, b + c) == Absorb(Round(h, w), c) && Left(b + c) == Left(c)
  {
    BlockFirst(h, b, c);
  }

  lemma SumOfHello()
    ensures Hash([104, 101, 108, 108, 111], 0) == 0x248bfa47
  {
    Letters();
    Lengths();
    Rounds();
    hide Wide, Length32, Round;
    Block(0, [104, 101, 108, 108], [111], 0x6c6c6568);
    hide Word, Absorb, Left, TailMix;
    assert [104, 101, 108, 108] + [111] == [104, 101, 108, 108, 111];
    OneByte(0xef13efcd, 111);
  }

  lemma Rounds()
    ensures Round(0, 0x6c6c6568) == 0xef13efcd && Round(0xef13efcd, 0x77202c6f) == 0x2470c6c2
    ensures Round(0x2470c6c2, 0x646c726f) == 0x98b32401
  {
  }

  lemma SumOfHelloWorld()
    ensures Hash([104, 101, 108, 108, 111, 44, 32, 119, 111, 114, 108, 100], 0) == 0x149bbb7f
  {
    var a: seq<bv8>, b: seq<bv8>, c: seq<bv8> := [104, 101, 108, 108], [111, 44, 32, 119], [111, 114, 108, 100];
    Words();
    Lengths();
    Rounds();
    hide Wide, Length32, Round, Word, Absorb, Left;
    Block(0, a, b + c, 0x6c6c6568);
    Block(0xef13efcd, b, c, 0x77202c6f);
    Block(0x2470c6c2, c, [], 0x646c726f);
    assert a + (b + c) == [104, 101, 108, 108, 111, 44, 32, 119, 111, 114, 108, 100];
    assert c + [] == c;
    NoBytes(0x98b32401);
  }

  lemma Words()
    ensures Word([104, 101, 108, 108]) == 0x6c6c6568 && Word([111, 44, 32, 119]) == 0x77202c6f
    ensures Word([111, 114, 108, 100]) == 0x646c726f
  {
    Letters();
    MoreLetters();
    hide Wide;
  }
}
