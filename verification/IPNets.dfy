/**
 IPv4 networks, bit by bit: which addresses belong to one, and which of them are reserved.
 */
module IPNets {
  import opened Bytes
  import opened Net

  // The network's address, and its mask's number of ones and of bits
  datatype IPNet = IPNet(ip: IP, ones: nat, bits: nat)

  // Bit j of an address, the highest bit of the first byte being bit 0
  predicate Bit(ip: IP, j: nat)
    requires j < 8 * |ip|
  {
    Shr(ip[j / 8], 7 - j % 8) % 2 == 1
  }

  // An IPv4 network whose address has no bits behind the mask
  ghost predicate IsMasked(net: IPNet) {
    && |net.ip| == 4 && net.bits == 32 && net.ones <= 30
    && forall j :: net.ones <= j < 32 ==> !Bit(net.ip, j)
  }

  ghost predicate Contains(net: IPNet, ip: IP)
    requires |net.ip| == 4 && net.ones <= 32
  {
    |ip| == 4 && forall j :: 0 <= j < net.ones ==> Bit(ip, j) == Bit(net.ip, j)
  }

  // The bits of byte i that are behind the mask, all set
  function HostPart(ones: nat, i: nat): nat {
    if ones >= 8 * (i + 1) then 0 else if ones <= 8 * i then 255 else Pow2(8 * (i + 1) - ones) - 1
  }

  ghost predicate IsBroadcast(net: IPNet, ip: IP)
    requires |net.ip| == 4 && |ip| == 4
  {
    forall i :: 0 <= i < 4 ==> ip[i] as int == net.ip[i] as int + HostPart(net.ones, i)
  }

  // Network address, gateway and broadcast address are never handed out.
  ghost predicate IsReserved(net: IPNet, ip: IP)
    requires |net.ip| == 4 && |ip| == 4
  {
    ip == net.ip || (ip[..3] == net.ip[..3] && ip[3] as int == net.ip[3] as int + 1) || IsBroadcast(net, ip)
  }

  // ----- bits of addresses and of numbers -----

  lemma {:induction false} ShrTwice(n: nat, k: nat, m: nat)
    ensures Shr(n, k + m) == Shr(Shr(n, k), m)
  {
    if k > 0 {
      ShrTwice(n / 2, k - 1, m);
    }
  }

  // A number with s bits below p: those bits, and p
  function Above(p: nat, s: nat, low: nat): nat {
    if s == 0 then p else low % 2 + 2 * Above(p, s - 1, low / 2)
  }

  lemma Halves(a: nat, b: nat)
    ensures (a % 2 + 2 * b) / 2 == b && (a % 2 + 2 * b) % 2 == a % 2
  {
  }

  lemma ShrUnfold(n: nat, k: nat)
    ensures Shr(n, 0) == n && (k > 0 ==> Shr(n, k) == Shr(n / 2, k - 1))
  {
  }

  lemma AboveUnfold(p: nat, s: nat, low: nat)
    ensures Above(p, 0, low) == p && (s > 0 ==> Above(p, s, low) == low % 2 + 2 * Above(p, s - 1, low / 2))
  {
  }

  lemma {:induction false} ShrAbove(p: nat, s: nat, low: nat, k: nat)
    requires k <= s
    ensures k < s ==> Shr(Above(p, s, low), k) % 2 == Shr(low, k) % 2
    ensures k == s ==> Shr(Above(p, s, low), k) == p
  {
    hide Shr, Above;
    var n := Above(p, s, low);
    AboveUnfold(p, s, low);
    ShrUnfold(n, k);
    ShrUnfold(low, k);
    if s > 0 {
      Halves(low, Above(p, s - 1, low / 2));
      if k > 0 {
        ShrAbove(p, s - 1, low / 2, k - 1);
      }
    }
  }

  lemma Doubled(p: nat, x: nat)
    ensures 2 * (p * x) == p * (2 * x)
  {
  }

  lemma {:induction false} AboveIs(p: nat, s: nat, low: nat)
    requires low < Pow2(s)
    ensures Above(p, s, low) == p * Pow2(s) + low
  {
    if s > 0 {
      AboveIs(p, s - 1, low / 2);
      Doubled(p, Pow2(s - 1));
    }
  }

  lemma BitOfByte(p: nat, b: byte, t: nat)
    requires t < 8
    ensures Shr(p * 0x100 + b, t) % 2 == Shr(b, t) % 2 && Shr(p * 0x100 + b, 8) == p
  {
    hide Shr, Above;
    Pow2Of8();
    AboveIs(p, 8, b);
    ShrAbove(p, 8, b, t);
    ShrAbove(p, 8, b, 8);
  }

  lemma Pow2Of8()
    ensures Pow2(8) == 0x100
  {
    assert Pow2(4) == 16;
  }

  // The number of the first n bytes
  function Number(ip: IP, n: nat): nat
    requires n <= |ip|
  {
    if n == 0 then 0 else Number(ip, n - 1) * 0x100 + ip[n - 1]
  }

  lemma {:induction false} BitOfFirst(ip: IP, n: nat, j: nat)
    requires n <= |ip| && j < 8 * n
    ensures Bit(ip, j) == (Shr(Number(ip, n), 8 * n - 1 - j) % 2 == 1)
  {
    hide Shr;
    var p, t := Number(ip, n - 1), 7 - j % 8;
    BitOfByte(p, ip[n - 1], t);
    if j < 8 * (n - 1) {
      var k := 8 * (n - 1) - 1 - j;
      BitOfFirst(ip, n - 1, j);
      ShrTwice(Number(ip, n), 8, k);
    } else {
      assert j / 8 == n - 1 && 8 * n - 1 - j == t;
    }
  }

  lemma NumberOfFour(ip: IP)
    requires |ip| == 4
    ensures Number(ip, 4) == IPToUint(ip)
  {
    var a: nat := ip[0];
    var b := a * 0x100 + ip[1];
    var c := b * 0x100 + ip[2];
    assert Number(ip, 0) == 0;
    assert Number(ip, 1) == a;
    assert Number(ip, 2) == b;
    assert Number(ip, 3) == c;
  }

  // The bits of an address are those of its number.
  lemma BitOfNumber(ip: IP, j: nat)
    requires |ip| == 4 && j < 32
    ensures Bit(ip, j) == (Shr(IPToUint(ip), 31 - j) % 2 == 1)
  {
    hide Shr, Bit, Number, IPToUint;
    BitOfFirst(ip, 4, j);
    NumberOfFour(ip);
  }

  // The last k bits are zero.
  predicate LowZero(n: nat, k: nat) {
    k == 0 || (n % 2 == 0 && LowZero(n / 2, k - 1))
  }

  lemma {:induction false} NoLowBits(n: nat, k: nat)
    requires forall m :: 0 <= m < k ==> Shr(n, m) % 2 == 0
    ensures LowZero(n, k)
  {
    if k > 0 {
      assert Shr(n, 0) == n;
      forall m | 0 <= m < k - 1
        ensures Shr(n / 2, m) % 2 == 0
      {
        assert Shr(n, m + 1) == Shr(n / 2, m);
      }
      NoLowBits(n / 2, k - 1);
    }
  }

  // What is added below them changes no bit above, and room is left for all of it.
  lemma {:induction false} AddLow(n: nat, k: nat, o: nat, size: nat)
    requires LowZero(n, k) && o < Pow2(k) && k <= size && n < Pow2(size)
    ensures Shr(n + o, k) == Shr(n, k) && n + Pow2(k) <= Pow2(size)
  {
    if k > 0 {
      AddLow(n / 2, k - 1, o / 2, size - 1);
      assert (n + o) / 2 == n / 2 + o / 2;
    }
  }

  lemma MaskedIsLowZero(net: IPNet)
    requires IsMasked(net)
    ensures LowZero(IPToUint(net.ip), 32 - net.ones)
  {
    hide Shr, LowZero, IPToUint, Bit;
    forall m | 0 <= m < 32 - net.ones
      ensures Shr(IPToUint(net.ip), m) % 2 == 0
    {
      BitOfNumber(net.ip, 31 - m);
      assert !Bit(net.ip, 31 - m);
    }
    NoLowBits(IPToUint(net.ip), 32 - net.ones);
  }

  // The address so many after the network's own
  lemma OffsetIsContained(net: IPNet, o: nat, ip: IP)
    requires IsMasked(net) && o < Pow2(32 - net.ones) && |ip| == 4 && IPToUint(ip) as int == IPToUint(net.ip) + o
    ensures Contains(net, ip)
  {
    hide Shr, LowZero, IPToUint, Bit, Pow2;
    MaskedIsLowZero(net);
    var n, k := IPToUint(net.ip), 32 - net.ones;
    Pow32();
    AddLow(n, k, o, 32);
    forall j | 0 <= j < net.ones
      ensures Bit(ip, j) == Bit(net.ip, j)
    {
      BitOfNumber(ip, j);
      BitOfNumber(net.ip, j);
      ShrTwice(n + o, k, 31 - j - k);
      ShrTwice(n, k, 31 - j - k);
    }
  }

  lemma HostParts(ones: nat)
    requires ones <= 32
    ensures HostPart(ones, 0) * 0x100_0000 + HostPart(ones, 1) * 0x1_0000 + HostPart(ones, 2) * 0x100
            + HostPart(ones, 3)
            == Pow2(32 - ones) - 1
  {
    Pow2Of8();
    hide Pow2;
    Pow2Sum(8, 8);
    Pow2Sum(8, 16);
    Pow32();
    if ones < 8 {
      Pow2Sum(8 - ones, 24);
    } else if ones < 16 {
      Pow2Sum(16 - ones, 16);
    } else if ones < 24 {
      Pow2Sum(24 - ones, 8);
    } else if ones == 32 {
      NoBits();
    }
  }

  lemma NoBits()
    ensures Pow2(0) == 1
  {
  }

  lemma OffsetIsFree(net: IPNet, o: nat, ip: IP)
    requires IsMasked(net) && 2 <= o <= Pow2(32 - net.ones) - 2 && |ip| == 4
             && IPToUint(ip) as int == IPToUint(net.ip) + o
    ensures !IsReserved(net, ip)
  {
    HostParts(net.ones);
  }
}
