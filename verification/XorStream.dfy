// A stream cipher as the exclusive or of the data with a key stream.
module XorStream {
  import opened Bytes

  // The exclusive or of the n lowest bits.
  function XorBits(a: nat, b: nat, n: nat): nat {
    if n == 0 then 0 else (a + b) % 2 + 2 * XorBits(a / 2, b / 2, n - 1)
  }

  lemma LowBit(a: nat, b: nat, c: nat, d: nat)
    requires c == (a + b) % 2 + 2 * d
    ensures c / 2 == d && (c + b) % 2 == a % 2 && (c + b) % 2 + 2 * (a / 2) == a
  {
  }

  lemma {:induction false} XorBitsTwice(a: nat, b: nat, n: nat)
    ensures XorBits(a, b, n) < Pow2(n)
    ensures a < Pow2(n) ==> XorBits(XorBits(a, b, n), b, n) == a
    decreases n
  {
    if n > 0 {
      XorBitsTwice(a / 2, b / 2, n - 1);
      LowBit(a, b, XorBits(a, b, n), XorBits(a / 2, b / 2, n - 1));
    }
  }

  // Bit by bit: a bit of the result is set if exactly one of the two is.
  lemma {:induction false} XorBitsByBit(a: nat, b: nat, n: nat, i: nat)
    requires i < n
    ensures Shr(XorBits(a, b, n), i) % 2 == 1 <==> (Shr(a, i) % 2 == 1) != (Shr(b, i) % 2 == 1)
  {
    var x, y := XorBits(a, b, n), XorBits(a / 2, b / 2, n - 1);
    assert x == (a + b) % 2 + 2 * y;
    hide XorBits, Shr;
    LowBit(a, b, x, y);
    if i > 0 {
      XorBitsByBit(a / 2, b / 2, n - 1, i - 1);
      OneMore(x, i);
      OneMore(a, i);
      OneMore(b, i);
    } else {
      NoShift(x);
      NoShift(a);
      NoShift(b);
      LowBitXor(a, b, x, y);
    }
  }

  lemma OneMore(n: nat, i: nat)
    requires i > 0
    ensures Shr(n, i) == Shr(n / 2, i - 1)
  {
  }

  lemma NoShift(n: nat)
    ensures Shr(n, 0) == n
  {
  }

  lemma LowBitXor(a: nat, b: nat, c: nat, d: nat)
    requires c == (a + b) % 2 + 2 * d
    ensures c % 2 == 1 <==> (a % 2 == 1) != (b % 2 == 1)
  {
  }

  // Every byte that comes out of the stream cipher, bit by bit
  lemma XorByBit(ks: nat -> byte, at: nat, data: seq<byte>, j: nat, i: nat)
    requires j < |data| && i < 8
    ensures Shr(Xor(ks, at, data)[j], i) % 2 == 1 <==> (Shr(data[j], i) % 2 == 1) != (Shr(ks(at + j), i) % 2 == 1)
  {
    XorBitsByBit(data[j], ks(at + j), 8, i);
  }

  lemma Pow16()
    ensures Pow2(16) == 0x1_0000
  {
    assert Pow2(8) == 0x100;
    assert Pow2(12) == 16 * Pow2(8);
    assert Pow2(16) == 16 * Pow2(12);
  }

  function XorByte(a: byte, b: byte): byte {
    XorBitsTwice(a, b, 8);
    assert Pow2(8) == 0x100;
    XorBits(a, b, 8)
  }

  lemma XorTwice(a: byte, b: byte)
    ensures XorByte(XorByte(a, b), b) == a
  {
    XorBitsTwice(a, b, 8);
    assert Pow2(8) == 0x100;
  }

  function Xor16(a: uint16, b: uint16): uint16 {
    XorBitsTwice(a, b, 16);
    Pow16();
    XorBits(a, b, 16)
  }

  lemma Xor16Twice(a: uint16, b: uint16)
    ensures Xor16(Xor16(a, b), b) == a
  {
    XorBitsTwice(a, b, 16);
    Pow16();
  }

  // XORKeyStream from position `at` of the key stream
  function Xor(ks: nat -> byte, at: nat, data: seq<byte>): (r: seq<byte>)
    ensures |r| == |data|
  {
    seq(|data|, i requires 0 <= i < |data| => XorByte(data[i], ks(at + i)))
  }

  lemma XorInvolution(ks: nat -> byte, at: nat, data: seq<byte>)
    ensures Xor(ks, at, Xor(ks, at, data)) == data
  {
    var once := Xor(ks, at, data);
    var twice := Xor(ks, at, once);
    forall i | 0 <= i < |data|
      ensures twice[i] == data[i]
    {
      XorTwice(data[i], ks(at + i));
    }
  }
}
