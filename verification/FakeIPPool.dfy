/**
 The fake-ip pool: hands out an address of its network for every host, probing for a free one from
 a running offset, and taking one from its holder when all are in use.
 */
module FakeIPPool {
  import opened Wrappers
  import opened Bytes
  import opened Net
  import opened IPNets
  import opened PoolSpec
  import opened FakeIPStore

  // (offset + 1) % span
  function Next(offset: nat, span: nat): (r: nat)
    requires offset < span
    ensures r == Slot(span, offset, 1)
  {
    (offset + 1) % span
  }

  // uint32 arithmetic
  function Plus(a: uint32, b: uint32): (r: uint32) {
    if a + b < 0x1_0000_0000 then a + b else a + b - 0x1_0000_0000
  }

  function Minus(a: uint32, b: uint32): (r: uint32) {
    if a >= b then a - b else a - b + 0x1_0000_0000
  }

  class Pool {
    const ipnet: IPNet
    const max: uint32
    const min: uint32
    const gateway: uint32
    const size: int
    // strings.ToLower
    const lower: string -> string
    const store: MemoryStore
    var offset: uint32

    ghost function P(): Params {
      Params(min, Minus(max, min), size, lower)
    }

    ghost function State(): PoolSpec.State
      reads this, store
    {
      PoolSpec.State(store.pairs, offset)
    }

    ghost predicate Valid()
      reads this, store, store.cache, store.cache.Repr
    {
      && this !in store.cache.Repr && min != max && store.size == size && store.Valid() && Good(P(), State())
      && ServesNetwork()
    }

    // The addresses are those of the network, less the first two and the last.
    ghost predicate ServesNetwork() {
      && |ipnet.ip| >= 4 && ipnet.ones + 2 <= ipnet.bits
      && min == Plus(IPToUint(ipnet.ip), 2) && Minus(max, min) == Span(ipnet.bits - ipnet.ones)
    }

    constructor (ipnet: IPNet, min: uint32, max: uint32, size: int, lower: string -> string)
      requires min != max && |ipnet.ip| >= 4 && ipnet.ones + 2 <= ipnet.bits
      requires min == Plus(IPToUint(ipnet.ip), 2) && Minus(max, min) == Span(ipnet.bits - ipnet.ones)
      ensures Valid() && fresh(store) && fresh(store.cache.Repr)
      ensures this.ipnet == ipnet && this.min == min && this.max == max && gateway == Minus(min, 1) && this.size == size
              && this.lower == lower
      ensures State() == PoolSpec.State([], 0)
    {
      this.ipnet := ipnet;
      this.min := min;
      this.max := max;
      this.gateway := Minus(min, 1);
      this.size := size;
      this.lower := lower;
      this.offset := 0;
      store := new MemoryStore(size);
    }

    // The address for a host; also what becomes of the pool.
    method Lookup(host: string) returns (ip: IP)
      requires Valid()
      modifies this, store, store.cache.Repr
      ensures Valid() && fresh(store.cache.Repr - old(store.cache.Repr))
      ensures State() == PoolSpec.Lookup(P(), old(State()), host)
      ensures |ip| == 4 && store.pairs != [] && store.pairs[|store.pairs| - 1] == Pair(lower(host), IPToUint(ip))
      ensures IsMasked(ipnet) ==> Contains(ipnet, ip) && !IsReserved(ipnet, ip)
    {
      ghost var st := State();
      hide ServesNetwork, IsMasked, Contains, IsReserved, Span, Bijective;
      hide UintToIP, IPToUint, MemoryStore.Valid, MemoryStore.HalfIn, HasHost, HasIP, Allocate;
      StepKeepsGood(P(), State(), OpLookup(host));
      var h := lower(host);
      var found := store.GetByHost(h);
      if found.Some? {
        UintRoundTrip(store.pairs[|store.pairs| - 1].ip);
        ip := found.value;
      } else {
        ip := GetFor(h);
        store.PutByHost(h, ip);
      }
      Serves(st, host, ip);
    }

    lemma Serves(st: PoolSpec.State, host: string, ip: IP)
      requires ServesNetwork() && Good(P(), st)
      requires var r := PoolSpec.Lookup(P(), st, host).pairs;
               |ip| == 4 && r != [] && IPToUint(ip) as int == r[|r| - 1].ip
      ensures IsMasked(ipnet) ==> Contains(ipnet, ip) && !IsReserved(ipnet, ip)
    {
      HandsOut(P(), st, host, ipnet, ip);
    }

    // Pool.get: finds an address and enters the host for it.
    method GetFor(host: string) returns (ip: IP)
      requires Valid() && !HasHost(store.pairs, host)
      modifies this, store, store.cache.Repr
      ensures fresh(store.cache.Repr - old(store.cache.Repr))
      ensures State() == Allocate(P(), old(State())) && store.size == size
      ensures |ip| == 4 && IPToUint(ip) == P().At(offset) && store.HalfIn(Pair(host, P().At(offset)))
    {
      hide UintToIP, IPToUint, MemoryStore.Valid, MemoryStore.HalfIn, HasHost, HasIP, Exhausted, Allocate, Drop, Next;
      AllocateFacts(P(), State(), host);
      var wrapped := Probing();
      if wrapped {
        offset := Next(offset, Minus(max, min));
        var victim := UintToIP(Plus(min, offset));
        UintRoundTrip(Plus(min, offset));
        store.DelByIP(victim);
      }
      UintRoundTrip(Plus(min, offset));
      ip := UintToIP(Plus(min, offset));
      store.PutByIP(ip, host);
    }

    // The loop of Pool.get: advances the offset to a free address, or once around.
    method Probing() returns (wrapped: bool)
      requires store.Valid() && this !in store.cache.Repr && min != max && offset < Minus(max, min)
      modifies this`offset
      ensures offset < Minus(max, min) && wrapped == Exhausted(P(), old(State()))
      ensures Probe(P(), store.pairs, old(offset), 0) <= Minus(max, min)
      ensures offset == if wrapped then old(offset)
              else Slot(Minus(max, min), old(offset), Probe(P(), store.pairs, old(offset), 0))
    {
      hide UintToIP, IPToUint, MemoryStore.Valid, HasIP, Next, Probe, Minus;
      var current := offset;
      ghost var k := 0;
      ProbeRange(P(), store.pairs, offset, 0);
      while true
        invariant k < Minus(max, min) && offset == Slot(Minus(max, min), current, k)
        invariant Probe(P(), store.pairs, current, 0) == Probe(P(), store.pairs, current, k)
        decreases Minus(max, min) - k
      {
        ProbeNext(P(), store.pairs, current, k);
        ProbeNext(P(), store.pairs, current, k + 1);
        assert Plus(min, offset) == P().At(offset);
        var ip := UintToIP(Plus(min, offset));
        UintRoundTrip(Plus(min, offset));
        var taken := store.Exist(ip);
        if !taken {
          return false;
        }
        offset := Next(offset, Minus(max, min));
        k := k + 1;
        // all the way round
        if offset == current {
          return true;
        }
      }
    }

    method LookBack(ip: IP) returns (host: Option<string>)
      requires Valid()
      modifies this, store, store.cache.Repr
      ensures Valid() && store.cache.Repr == old(store.cache.Repr)
      ensures var a := To4(ip);
              if a.Some? && HasIP(old(store.pairs), IPToUint(a.value))
              then State() == PoolSpec.LookBack(old(State()), IPToUint(a.value))
                   && host == Some(old(store.pairs)[IPIndex(old(store.pairs), IPToUint(a.value))].host)
              else State() == old(State()) && host == None
    {
      hide IPToUint, MemoryStore.Valid;
      var a := To4(ip);
      if a == None {
        return None;
      }
      StepKeepsGood(P(), State(), OpLookBack(IPToUint(a.value)));
      host := store.GetByIP(a.value);
    }

    method Exist(ip: IP) returns (ok: bool)
      requires Valid()
      ensures ok <==> To4(ip).Some? && HasIP(store.pairs, IPToUint(To4(ip).value))
    {
      hide IPToUint, MemoryStore.Valid;
      var a := To4(ip);
      if a == None {
        return false;
      }
      ok := store.Exist(a.value);
    }
  }

  // A masked network address has room for all its hosts below 2^32.
  lemma NetworkFits(base: uint32, bits: nat)
    requires bits <= 32 && base % Pow2(bits) == 0
    ensures base + Pow2(bits) <= 0x1_0000_0000
  {
    Pow2Sum(bits, 32 - bits);
    Pow32();
    hide Pow2;
    MultipleBelow(base, Pow2(bits), Pow2(32 - bits));
  }

  lemma MultipleBelow(x: nat, m: nat, n: nat)
    requires m > 0 && x % m == 0 && x < m * n
    ensures x + m <= m * n
  {
    var q := x / m;
    assert x == m * q;
    Monotone(m, n, q);
    Monotone(m, q + 1, n);
  }

  lemma Monotone(m: nat, a: nat, b: nat)
    ensures a <= b ==> m * a <= m * b
  {
    if a <= b {
      assert m * (b - a) >= 0;
    }
  }

  // int(1) << n, where int has 64 bits
  function Shifted(n: nat): int {
    if n < 63 then Pow2(n) else if n == 63 then 0 - Pow2(63) else 0
  }

  // ... less 2, which wraps around for the smallest int
  function Total(n: nat): int {
    if n == 63 then Pow2(63) - 2 else Shifted(n) - 2
  }

  // How many addresses the pool of a network with n free bits hands out
  function Span(n: nat): (r: uint32)
    requires n >= 2
    ensures r >= 1
  {
    BigEnough(n);
    if n < 32 then
      Pow2Grows(n, 32);
      Pow32();
      Pow2(n) - 3
    else 0xffff_fffd
  }

  lemma Multiple(k: nat, r: uint32)
    ensures (k * 0x1_0000_0000 + r) % 0x1_0000_0000 == r
  {
  }

  lemma {:induction false} TotalMod(n: nat)
    requires 2 <= n <= 63
    ensures 0 < Total(n)
    ensures Total(n) % 0x1_0000_0000 == Span(n) + 1
  {
    hide Pow2;
    BigEnough(n);
    Pow32();
    if n < 32 {
      Pow2Grows(n, 32);
    } else {
      Pow2Sum(32, n - 32);
      var k := Pow2(n - 32);
      assert Total(n) == (k - 1) * 0x1_0000_0000 + 0xffff_fffe;
      Multiple(k - 1, 0xffff_fffe);
    }
  }

  // IPv4 has 32 bits; of an IPv6 address the first four bytes are taken.  No mask that is a prefix
  // at all gives 0 of 0.
  method New(ipnet: IPNet, size: int, lower: string -> string) returns (r: Option<Pool>)
    requires |ipnet.ip| >= 4 && ipnet.ones <= ipnet.bits
    ensures r.Some? <==> 2 <= ipnet.bits - ipnet.ones <= 63
    ensures r.Some? ==>
            r.value.ipnet == ipnet && fresh(r.value) && r.value.Valid() && r.value.State() == PoolSpec.State([], 0)
    ensures r.Some? ==> r.value.P() == Params(Plus(IPToUint(ipnet.ip), 2), Span(ipnet.bits - ipnet.ones), size, lower)
    ensures r.Some? ==> r.value.gateway == Plus(IPToUint(ipnet.ip), 1)
  {
    hide IPToUint, Pow2;
    var min := Plus(IPToUint(ipnet.ip), 2);
    var total := Total(ipnet.bits - ipnet.ones);
    SmallTotal(ipnet.bits - ipnet.ones);
    if total <= 0 {
      return None;
    }
    TotalMod(ipnet.bits - ipnet.ones);
    var max := Minus(Plus(min, total % 0x1_0000_0000), 1);
    var pool := new Pool(ipnet, min, max, size, lower);
    r := Some(pool);
  }

  // Every address of a masked network's pool lies in the network, and is not reserved.
  lemma InNetwork(net: IPNet, size: int, lower: string -> string, ip: IP)
    requires IsMasked(net) && |ip| == 4
    requires Params(Plus(IPToUint(net.ip), 2), Span(32 - net.ones), size, lower).InRange(IPToUint(ip))
    ensures Contains(net, ip) && !IsReserved(net, ip)
  {
    hide IPToUint, Pow2, LowZero, Contains, IsReserved;
    var n, k := IPToUint(net.ip), 32 - net.ones;
    MaskedIsLowZero(net);
    Pow32();
    BigEnough(k);
    AddLow(n, k, 0, 32);
    Pow2Grows(k, 32);
    var p := Params(Plus(n, 2), Span(k), size, lower);
    var o := p.OffsetOf(IPToUint(ip));
    assert p.At(o) == IPToUint(ip);
    OffsetIsContained(net, 2 + o, ip);
    OffsetIsFree(net, 2 + o, ip);
  }

  // The address at the end of the list, after a lookup
  lemma HandsOut(p: Params, st: PoolSpec.State, host: string, net: IPNet, ip: IP)
    requires Good(p, st) && |net.ip| >= 4 && net.ones + 2 <= net.bits
    requires p.min == Plus(IPToUint(net.ip), 2) && p.span == Span(net.bits - net.ones)
    requires var r := PoolSpec.Lookup(p, st, host).pairs;
             |ip| == 4 && r != [] && IPToUint(ip) as int == r[|r| - 1].ip
    ensures IsMasked(net) ==> Contains(net, ip) && !IsReserved(net, ip)
  {
    hide IPToUint, Contains, IsReserved, Span, PoolSpec.Lookup;
    StepKeepsGood(p, st, OpLookup(host));
    if IsMasked(net) {
      InNetwork(net, p.size, p.lower, ip);
    }
  }

  lemma SmallTotal(n: nat)
    ensures Total(n) <= 0 <==> n < 2 || n > 63
  {
    BigEnough(n);
    BigEnough(63);
  }

  // What the pool of a masked IPv4 network hands out: base + 2 to base + 2^k - 2, with no wrapping around.
  lemma NetworkRange(base: uint32, k: nat, size: int, lower: string -> string, o: nat)
    requires 2 <= k <= 32 && base % Pow2(k) == 0 && o < Span(k)
    ensures Params(Plus(base, 2), Span(k), size, lower).At(o) == base + 2 + o <= base + Pow2(k) - 2
  {
    NetworkFits(base, k);
    BigEnough(k);
    Pow32();
  }

  // Of any network, the pool's addresses go up without wrapping around exactly if the last is below 2^32.
  lemma GoesUpExactly(ip: uint32, n: nat, size: int, lower: string -> string)
    requires n >= 2
    ensures var p := Params(Plus(ip, 2), Span(n), size, lower);
            (forall o: nat :: o < p.span ==> p.At(o) == p.min + o) <==> Plus(ip, 2) + Span(n) <= 0x1_0000_0000
  {
    var p := Params(Plus(ip, 2), Span(n), size, lower);
    assert p.At(p.span - 1) == p.min + (p.span - 1) <==> p.min + p.span <= 0x1_0000_0000;
  }

  // 2001:db8::/96 has 32 free bits and wraps around; 2001:db8::/100, with 28, does not.
  lemma SomeWrapAround(size: int, lower: string -> string)
    ensures Params(Plus(0x2001_0db8, 2), Span(32), size, lower).At(0xdffe_f246) == 0
    ensures forall o: nat :: o < Span(28) ==>
            Params(Plus(0x2001_0db8, 2), Span(28), size, lower).At(o) == 0x2001_0dba + o
  {
    assert Pow2(4) == 16;
    hide Pow2;
    Pow32();
    Pow2Sum(28, 4);
    GoesUpExactly(0x2001_0db8, 28, size, lower);
  }

  lemma BigEnough(bits: nat)
    ensures bits >= 2 <==> Pow2(bits) > 2
    ensures bits >= 2 ==> Pow2(bits) >= 4
  {
    if bits > 2 {
      BigEnough(bits - 1);
    }
  }
}
