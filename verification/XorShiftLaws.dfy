/**
 The generator of the chain protocols: no state is reached from two others, and the values it is known to
 draw for a digest of the bytes 0 to 15.
 */
module XorShiftLaws {
  import opened Bytes
  import opened XorShift

  // ----- no two states lead to one -----

  function Unshift(y: bv64): bv64 {
    y ^ (y << 23) ^ (y << 46)
  }

  function Unfold(y: bv64): bv64 {
    y ^ (y >> 17) ^ (y >> 34) ^ (y >> 51)
  }

  lemma UnshiftUndoes(x: bv64)
    ensures Unshift(x ^ (x << 23)) == x
  {
  }

  lemma UnfoldUndoes(x: bv64)
    ensures Unfold(x ^ (x >> 17)) == x
  {
  }

  function Xor3(x: bv64, y: bv64, z: bv64): bv64 {
    x ^ y ^ z
  }

  lemma XorRight(x: bv64, y: bv64, z: bv64)
    ensures Xor64(x, y ^ z) == Xor3(x, y, z)
  {
  }

  lemma XorLeft(x: bv64, y: bv64, z: bv64)
    ensures Xor64(x ^ y, z) == Xor3(x, y, z)
  {
  }

  lemma XorIs(x: bv64, y: bv64)
    ensures Xor64(x, y) == x ^ y
  {
  }

  lemma Assoc(x: bv64, y: bv64, z: bv64)
    ensures Xor64(x, Xor64(y, z)) == Xor64(Xor64(x, y), z)
  {
    hide *;
    XorIs(y, z);
    XorIs(x, y);
    XorRight(x, y, z);
    XorLeft(x, y, z);
  }

  lemma Comm(x: bv64, y: bv64)
    ensures Xor64(x, y) == Xor64(y, x)
  {
  }

  lemma XorUndone(x: bv64, y: bv64)
    ensures Xor64(Xor64(x, y), y) == x
  {
  }

  lemma FoldUndone(x: bv64)
    ensures Unfold(Xor64(x, x >> 17)) == x
  {
    hide Unfold;
    UnfoldUndoes(x);
  }

  lemma ShiftUndone(x: bv64)
    ensures Unshift(Shift(x)) == x
  {
    hide Unshift;
    UnshiftUndoes(x);
  }

  lemma StirIs(x: bv64, y: bv64)
    ensures Stir(x, y) == Xor64(Xor64(x, x >> 17), Xor64(y, y >> 26))
  {
    hide Xor64;
    Comm(y, x >> 17);
    Assoc(x >> 17, y, y >> 26);
    Assoc(x, x >> 17, Xor64(y, y >> 26));
  }

  lemma StirUndone(x: bv64, y: bv64)
    ensures Unfold(Xor64(Stir(x, y), Xor64(y, y >> 26))) == x
  {
    hide *;
    StirIs(x, y);
    XorUndone(Xor64(x, x >> 17), Xor64(y, y >> 26));
    FoldUndone(x);
  }

  lemma DrawIsInjective(r: Prng, q: Prng)
    ensures Draw(r).1 == Draw(q).1 ==> r == q
  {
    hide Shift, Stir, Plus, Unshift, Unfold, Xor64;
    StirUndone(Shift(r.s0), r.s1);
    StirUndone(Shift(q.s0), q.s1);
    ShiftUndone(r.s0);
    ShiftUndone(q.s0);
  }

  // ----- known draws -----

  // A draw from a state written out
  lemma Step1(a: bv64, b: bv64, c: bv64)
    requires Stir(Shift(a), b) == c
    ensures Draw(Prng(a, b)) == (Plus(c, b), Prng(b, c))
  {
  }

  lemma Bytes16()
    ensures Wide(2) == 2 && Wide(3) == 3 && Wide(4) == 4 && Wide(5) == 5 && Wide(6) == 6 && Wide(7) == 7
    ensures Wide(8) == 8 && Wide(9) == 9 && Wide(10) == 10 && Wide(11) == 11 && Wide(12) == 12 && Wide(13) == 13
    ensures Wide(14) == 14 && Wide(15) == 15
  {
  }

  lemma LengthBytes()
    ensures Wide(0x64) == 0x64 && Wide(0) == 0 && Wide(0x78) == 0x78 && Wide(5) == 5
  {
  }

  function Digest(): Hash {
    [0, 1, 2, 3, 4, 5, 6, 7, 8, 9, 10, 11, 12, 13, 14, 15]
  }

  lemma Seeded100()
    ensures Overwritten(Digest(), 100) == [100, 0, 2, 3, 4, 5, 6, 7, 8, 9, 10, 11, 12, 13, 14, 15]
    ensures FromBin(Overwritten(Digest(), 100)) == Prng(0x706050403020064, 0xf0e0d0c0b0a0908)
  {
    Loaded100();
    hide GetLE64;
    var b := Overwritten(Digest(), 100);
    assert b == [100, 0, 2, 3, 4, 5, 6, 7, 8, 9, 10, 11, 12, 13, 14, 15];
    assert b[..8] == [100, 0, 2, 3, 4, 5, 6, 7] && b[8..16] == [8, 9, 10, 11, 12, 13, 14, 15];
  }

  lemma Loaded100()
    ensures GetLE64([100, 0, 2, 3, 4, 5, 6, 7]) == 0x706050403020064
    ensures GetLE64([8, 9, 10, 11, 12, 13, 14, 15]) == 0xf0e0d0c0b0a0908
  {
    Bytes16();
    LengthBytes();
    hide Wide;
  }

  // Seeded with a length of 100, the generator draws this.
  lemma Draws100()
    ensures Draw(Seeded(Overwritten(Digest(), 100)))
            == (0xf4b4c1afdc21b022, Prng(0xdded1aba467f9c73, 0x16c7a6f595a213af))
  {
    Seeded100();
    Stirs100();
    hide Draw, Stir, Shift, FromBin, Overwritten;
    Step1(0x706050403020064, 0xf0e0d0c0b0a0908, 0x8a09cb883b8952ef);
    Step1(0xf0e0d0c0b0a0908, 0x8a09cb883b8952ef, 0x3020727f2f5fe6c);
    Step1(0x8a09cb883b8952ef, 0x3020727f2f5fe6c, 0x4d162f0c79edc37b);
    Step1(0x3020727f2f5fe6c, 0x4d162f0c79edc37b, 0xdded1aba467f9c73);
    Step1(0x4d162f0c79edc37b, 0xdded1aba467f9c73, 0x16c7a6f595a213af);
  }

  lemma Stirs100()
    ensures Stir(Shift(0x706050403020064), 0xf0e0d0c0b0a0908) == 0x8a09cb883b8952ef
    ensures Stir(Shift(0xf0e0d0c0b0a0908), 0x8a09cb883b8952ef) == 0x3020727f2f5fe6c
    ensures Stir(Shift(0x8a09cb883b8952ef), 0x3020727f2f5fe6c) == 0x4d162f0c79edc37b
    ensures Stir(Shift(0x3020727f2f5fe6c), 0x4d162f0c79edc37b) == 0xdded1aba467f9c73
    ensures Stir(Shift(0x4d162f0c79edc37b), 0xdded1aba467f9c73) == 0x16c7a6f595a213af
  {
  }

  lemma Seeded1400()
    ensures Overwritten(Digest(), 1400) == [120, 5, 2, 3, 4, 5, 6, 7, 8, 9, 10, 11, 12, 13, 14, 15]
    ensures FromBin(Overwritten(Digest(), 1400)) == Prng(0x706050403020578, 0xf0e0d0c0b0a0908)
  {
    Loaded1400();
    hide GetLE64;
    var b := Overwritten(Digest(), 1400);
    assert b == [120, 5, 2, 3, 4, 5, 6, 7, 8, 9, 10, 11, 12, 13, 14, 15];
    assert b[..8] == [120, 5, 2, 3, 4, 5, 6, 7] && b[8..16] == [8, 9, 10, 11, 12, 13, 14, 15];
  }

  lemma Loaded1400()
    ensures GetLE64([120, 5, 2, 3, 4, 5, 6, 7]) == 0x706050403020578
    ensures GetLE64([8, 9, 10, 11, 12, 13, 14, 15]) == 0xf0e0d0c0b0a0908
  {
    Bytes16();
    LengthBytes();
    hide Wide;
  }

  // Seeded with a length of 1400, the generator draws this.
  lemma Draws1400()
    ensures Draw(Seeded(Overwritten(Digest(), 1400)))
            == (0xf4b4a8ce4a02f5a7, Prng(0xdded1ab8c83ef6af, 0x16c78e1581c3fef8))
  {
    Seeded1400();
    Stirs1400();
    hide Draw, Stir, Shift, FromBin, Overwritten;
    Step1(0x706050403020578, 0xf0e0d0c0b0a0908, 0x8a09cb8ab58810f3);
    Step1(0xf0e0d0c0b0a0908, 0x8a09cb8ab58810f3, 0x30207257cf4bcd3);
    Step1(0x8a09cb8ab58810f3, 0x30207257cf4bcd3, 0x4c512f0ef7bc037b);
    Step1(0x30207257cf4bcd3, 0x4c512f0ef7bc037b, 0xdded1ab8c83ef6af);
    Step1(0x4c512f0ef7bc037b, 0xdded1ab8c83ef6af, 0x16c78e1581c3fef8);
  }

  lemma Stirs1400()
    ensures Stir(Shift(0x706050403020578), 0xf0e0d0c0b0a0908) == 0x8a09cb8ab58810f3
    ensures Stir(Shift(0xf0e0d0c0b0a0908), 0x8a09cb8ab58810f3) == 0x30207257cf4bcd3
    ensures Stir(Shift(0x8a09cb8ab58810f3), 0x30207257cf4bcd3) == 0x4c512f0ef7bc037b
    ensures Stir(Shift(0x30207257cf4bcd3), 0x4c512f0ef7bc037b) == 0xdded1ab8c83ef6af
    ensures Stir(Shift(0x4c512f0ef7bc037b), 0xdded1ab8c83ef6af) == 0x16c78e1581c3fef8
  {
  }
}
