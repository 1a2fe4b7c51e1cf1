// The generator the chain protocols take their padding from (tools/random.go).
module XorShift {
  import opened Bytes

  datatype Prng = Prng(s0: bv64, s1: bv64)

  function Shift(x: bv64): bv64 {
    x ^ (x << 23)
  }

  function Xor64(x: bv64, y: bv64): bv64 {
    x ^ y
  }

  function Stir(x: bv64, y: bv64): bv64 {
    Xor64(x, Xor64(Xor64(y, x >> 17), y >> 26))
  }

  function Plus(x: bv64, y: bv64): bv64 {
    x + y
  }

  // XorShift128Plus.Next: the value, and the state after it
  function Draw(r: Prng): (bv64, Prng) {
    var x := Stir(Shift(r.s0), r.s1);
    (Plus(x, r.s1), Prng(r.s1, x))
  }

  function AsNat(v: bv64): nat {
    v as int
  }

  function Modulo(v: bv64, m: nat): (r: nat)
    requires m > 0
    ensures r < m
  {
    AsNat(v) % m
  }

  function Wide(b: byte): bv64 {
    b as bv64
  }

  function GetLE64(b: seq<byte>): bv64
    requires |b| == 8
  {
    Wide(b[0]) | (Wide(b[1]) << 8) | (Wide(b[2]) << 16) | (Wide(b[3]) << 24)
    | (Wide(b[4]) << 32) | (Wide(b[5]) << 40) | (Wide(b[6]) << 48) | (Wide(b[7]) << 56)
  }

  type Hash = h: seq<byte> | |h| == 16 witness seq(16, _ => 0)

  // InitFromBinAndLength: two bytes of its input become the length ...
  function Overwritten(bin: seq<byte>, length: nat): (r: seq<byte>)
    requires |bin| >= 16
    ensures |r| == |bin|
  {
    PutLE16(length % 0x1_0000) + bin[2..]
  }

  // ... and the state is read from it, with four values thrown away.
  function Seeded(bin: seq<byte>): Prng
    requires |bin| >= 16
  {
    Draw(Draw(Draw(Draw(FromBin(bin)).1).1).1).1
  }

  // InitFromBin
  function FromBin(bin: seq<byte>): Prng
    requires |bin| >= 16
  {
    Prng(GetLE64(bin[..8]), GetLE64(bin[8..16]))
  }

  class XorShift128Plus {
    var s0: bv64
    var s1: bv64

    constructor ()
      ensures AsPrng() == Prng(0, 0)
    {
      s0, s1 := 0, 0;
    }

    function AsPrng(): Prng
      reads this
    {
      Prng(s0, s1)
    }

    method Next() returns (v: bv64)
      modifies this
      ensures (v, AsPrng()) == Draw(old(AsPrng()))
    {
      hide Shift, Stir, Plus;
      var x, y := s0, s1;
      s0 := y;
      x := Shift(x);
      x := Stir(x, y);
      s1 := x;
      v := Plus(x, y);
    }

    method InitFromBin(bin: seq<byte>)
      requires |bin| >= 16
      modifies this
      ensures AsPrng() == FromBin(bin)
    {
      s0, s1 := GetLE64(bin[..8]), GetLE64(bin[8..16]);
    }

    // Two bytes of the caller's array are overwritten.
    method InitFromBinAndLength(bin: array<byte>, length: nat)
      requires bin.Length >= 16
      modifies this, bin
      ensures bin[..] == Overwritten(old(bin[..]), length) && AsPrng() == Seeded(bin[..])
    {
      hide Draw, GetLE64;
      var two := PutLE16(length % 0x1_0000);
      bin[0], bin[1] := two[0], two[1];
      assert bin[..] == Overwritten(old(bin[..]), length);
      InitFromBin(bin[..]);
      var _ := Next();
      var _ := Next();
      var _ := Next();
      var _ := Next();
    }
  }
}
