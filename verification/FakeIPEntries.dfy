/**
 How the pool's pairs lie in its LRU: each as two adjacent entries, host -> address and
 address -> host, in either order.  The lemmas follow pairs of cache operations, between which
 the two directions are out of step.
 */
module FakeIPEntries {
  import opened Wrappers
  import opened Net
  import opened PoolSpec
  import Lru = LruSpec

  // Hosts and numeric addresses are keys of different Go types, so they never collide.
  datatype Key = HostKey(host: string) | IPKey(ip: nat)
  datatype Value = IPValue(ip: IP) | HostValue(host: string)

  type Record = Lru.Item<Key, Value>

  function Plain(size: int): Lru.Config {
    Lru.Config(0, 2 * size, false, false)
  }

  predicate Addressable(pairs: seq<Pair>) {
    forall i :: 0 <= i < |pairs| ==> pairs[i].ip < 0x1_0000_0000
  }

  function HostEntry(pair: Pair): Record
    requires pair.ip < 0x1_0000_0000
  {
    Lru.Item(HostKey(pair.host), IPValue(UintToIP(pair.ip)), 0)
  }

  function IPEntry(pair: Pair): Record {
    Lru.Item(IPKey(pair.ip), HostValue(pair.host), 0)
  }

  ghost predicate Halves(a: Record, b: Record, pair: Pair)
    requires pair.ip < 0x1_0000_0000
  {
    || (a == HostEntry(pair) && b == IPEntry(pair))
    || (a == IPEntry(pair) && b == HostEntry(pair))
  }

  ghost predicate Paired(s: seq<Record>, pairs: seq<Pair>) {
    && Addressable(pairs)
    && |s| == 2 * |pairs|
    && forall i :: 0 <= i < |pairs| ==> Halves(s[2 * i], s[2 * i + 1], pairs[i])
  }

  // The two keys of a pair, the one to be used first in front.
  function Keys(pair: Pair, hostFirst: bool): (Key, Key) {
    if hostFirst then (HostKey(pair.host), IPKey(pair.ip)) else (IPKey(pair.ip), HostKey(pair.host))
  }

  lemma TouchKeepsBijective(pairs: seq<Pair>, i: nat)
    requires Bijective(pairs) && i < |pairs|
    ensures Bijective(Touch(pairs, i))
  {
  }

  lemma InsertKeepsBijective(pairs: seq<Pair>, pair: Pair, size: int)
    requires Bijective(pairs) && !HasHost(pairs, pair.host) && !HasIP(pairs, pair.ip)
    requires size > 0 ==> |pairs| <= size
    ensures Bijective(Insert(pairs, pair, size))
    ensures size > 0 ==> |Insert(pairs, pair, size)| <= size
  {
  }

  lemma EntryOf(s: seq<Record>, pairs: seq<Pair>, k: nat)
    requires Paired(s, pairs) && k < |s|
    ensures s[k] == HostEntry(pairs[k / 2]) || s[k] == IPEntry(pairs[k / 2])
  {
    assert Halves(s[2 * (k / 2)], s[2 * (k / 2) + 1], pairs[k / 2]);
  }

  // Keys present are exactly the hosts and the addresses of the pairs.
  lemma HasKey(s: seq<Record>, pairs: seq<Pair>)
    requires Paired(s, pairs)
    ensures forall h :: Lru.Has(s, HostKey(h)) <==> HasHost(pairs, h)
    ensures forall ip :: Lru.Has(s, IPKey(ip)) <==> HasIP(pairs, ip)
  {
    forall h
      ensures Lru.Has(s, HostKey(h)) <==> HasHost(pairs, h)
    {
      if Lru.Has(s, HostKey(h)) {
        var k := Lru.IndexOf(s, HostKey(h));
        EntryOf(s, pairs, k);
        assert pairs[k / 2].host == h;
      }
      if HasHost(pairs, h) {
        var i := HostIndex(pairs, h);
        assert Halves(s[2 * i], s[2 * i + 1], pairs[i]);
        assert s[2 * i].key == HostKey(h) || s[2 * i + 1].key == HostKey(h);
      }
    }
    forall ip
      ensures Lru.Has(s, IPKey(ip)) <==> HasIP(pairs, ip)
    {
      if Lru.Has(s, IPKey(ip)) {
        var k := Lru.IndexOf(s, IPKey(ip));
        EntryOf(s, pairs, k);
        assert pairs[k / 2].ip == ip;
      }
      if HasIP(pairs, ip) {
        var i := IPIndex(pairs, ip);
        assert Halves(s[2 * i], s[2 * i + 1], pairs[i]);
        assert s[2 * i].key == IPKey(ip) || s[2 * i + 1].key == IPKey(ip);
      }
    }
  }

  // Where a key of pair i stands.
  lemma FindHalf(s: seq<Record>, pairs: seq<Pair>, i: nat, hostFirst: bool) returns (k: nat)
    requires Paired(s, pairs) && Bijective(pairs) && i < |pairs|
    ensures (k == 2 * i || k == 2 * i + 1) && Lru.Has(s, Keys(pairs[i], hostFirst).0)
    ensures s[k] == (if hostFirst then HostEntry(pairs[i]) else IPEntry(pairs[i]))
    ensures s[4 * i + 1 - k] == (if hostFirst then IPEntry(pairs[i]) else HostEntry(pairs[i]))
    ensures k == Lru.IndexOf(s, Keys(pairs[i], hostFirst).0)
  {
    assert Halves(s[2 * i], s[2 * i + 1], pairs[i]);
    k := if s[2 * i].key == Keys(pairs[i], hostFirst).0 then 2 * i else 2 * i + 1;
    assert s[k].key == Keys(pairs[i], hostFirst).0;
    var m := Lru.IndexOf(s, Keys(pairs[i], hostFirst).0);
    EntryOf(s, pairs, m);
    assert m / 2 == i;
  }

  // Pair i taken out, as both its entries.
  function Cut(s: seq<Record>, i: nat): seq<Record>
    requires 2 * i + 2 <= |s|
  {
    s[..2 * i] + s[2 * i + 2..]
  }

  lemma CutIsTwoRemovals(s: seq<Record>, i: nat, k: nat, tail: seq<Record>)
    requires 2 * i + 2 <= |s| && (k == 2 * i || k == 2 * i + 1)
    ensures RemoveAt(RemoveAt(s, k) + tail, 2 * i) == Cut(s, i) + tail
  {
  }

  lemma CutPaired(s: seq<Record>, pairs: seq<Pair>, i: nat)
    requires Paired(s, pairs) && i < |pairs|
    ensures Paired(Cut(s, i), RemoveAt(pairs, i))
  {
    var t, r := Cut(s, i), RemoveAt(pairs, i);
    forall j | 0 <= j < |r|
      ensures Halves(t[2 * j], t[2 * j + 1], r[j])
    {
      var m := if j < i then j else j + 1;
      assert Halves(s[2 * m], s[2 * m + 1], pairs[m]);
    }
  }

  lemma AppendPaired(s: seq<Record>, pairs: seq<Pair>, a: Record, b: Record, pair: Pair)
    requires Paired(s, pairs) && pair.ip < 0x1_0000_0000 && Halves(a, b, pair)
    ensures Paired(s + [a, b], pairs + [pair])
  {
    var t, r := s + [a, b], pairs + [pair];
    forall j | 0 <= j < |r|
      ensures Halves(t[2 * j], t[2 * j + 1], r[j])
    {
      if j < |pairs| {
        assert Halves(s[2 * j], s[2 * j + 1], pairs[j]);
      }
    }
  }

  // With one half of pair i gone, or moved behind everything else, the other is found where the pair began.
  lemma FindOther(s: seq<Record>, pairs: seq<Pair>, i: nat, hostFirst: bool, k: nat, tail: seq<Record>)
    requires Paired(s, pairs) && Bijective(pairs) && i < |pairs| && (k == 2 * i || k == 2 * i + 1)
    requires s[k] == (if hostFirst then HostEntry(pairs[i]) else IPEntry(pairs[i]))
    requires tail == [] || tail == [s[k]]
    ensures var t := RemoveAt(s, k) + tail;
            t[2 * i] == s[4 * i + 1 - k] && Lru.Has(t, Keys(pairs[i], hostFirst).1)
            && Lru.IndexOf(t, Keys(pairs[i], hostFirst).1) == 2 * i && RemoveAt(t, 2 * i) == Cut(s, i) + tail
  {
    var t := RemoveAt(s, k) + tail;
    assert Halves(s[2 * i], s[2 * i + 1], pairs[i]);
    hide Paired, RemoveAt;
    assert t[2 * i] == s[4 * i + 1 - k];
    assert t[2 * i].key == Keys(pairs[i], hostFirst).1;
    var m := Lru.IndexOf(t, Keys(pairs[i], hostFirst).1);
    if m < |s| - 1 {
      EntryOf(s, pairs, if m < k then m else m + 1);
    }
    CutIsTwoRemovals(s, i, k, tail);
  }

  // GetByHost and GetByIP: using one half and then the other brings the whole pair to the back.
  lemma UseBoth(s: seq<Record>, pairs: seq<Pair>, i: nat, hostFirst: bool, size: int, now: int)
    requires Paired(s, pairs) && Bijective(pairs) && i < |pairs|
    ensures var keys := Keys(pairs[i], hostFirst);
            var (t, a) := Lru.Get(Plain(size), s, keys.0, now, now);
            var (u, b) := Lru.Get(Plain(size), t, keys.1, now, now);
            a == Some(if hostFirst then HostEntry(pairs[i]) else IPEntry(pairs[i])) && b.Some?
            && Paired(u, Touch(pairs, i))
  {
    var k := FindHalf(s, pairs, i, hostFirst);
    FindOther(s, pairs, i, hostFirst, k, [s[k]]);
    CutPaired(s, pairs, i);
    AppendPaired(Cut(s, i), RemoveAt(pairs, i), s[k], s[4 * i + 1 - k], pairs[i]);
    assert Cut(s, i) + [s[k]] + [s[4 * i + 1 - k]] == Cut(s, i) + [s[k], s[4 * i + 1 - k]];
  }

  // The same, from the host and from the address.
  lemma UseHost(s: seq<Record>, pairs: seq<Pair>, h: string, size: int)
    requires Paired(s, pairs) && Bijective(pairs) && HasHost(pairs, h)
    ensures var (t, a) := Lru.Get(Plain(size), s, HostKey(h), 0, 0);
            var i := HostIndex(pairs, h);
            pairs[i].ip < 0x1_0000_0000 && Lru.ValueOf(a) == Some(IPValue(UintToIP(pairs[i].ip)))
            && Paired(Lru.Get(Plain(size), t, IPKey(pairs[i].ip), 0, 0).0, Touch(pairs, i))
            && Bijective(Touch(pairs, i))
  {
    TouchKeepsBijective(pairs, HostIndex(pairs, h));
    assert Addressable(pairs);
    hide Paired, Lru.Get, Bijective, HasHost, Touch, UintToIP;
    UseBoth(s, pairs, HostIndex(pairs, h), true, size, 0);
  }

  lemma UseIP(s: seq<Record>, pairs: seq<Pair>, ip: nat, size: int)
    requires Paired(s, pairs) && Bijective(pairs) && HasIP(pairs, ip)
    ensures var (t, a) := Lru.Get(Plain(size), s, IPKey(ip), 0, 0);
            var i := IPIndex(pairs, ip);
            Lru.ValueOf(a) == Some(HostValue(pairs[i].host))
            && Paired(Lru.Get(Plain(size), t, HostKey(pairs[i].host), 0, 0).0, Touch(pairs, i))
            && Bijective(Touch(pairs, i))
  {
    TouchKeepsBijective(pairs, IPIndex(pairs, ip));
    hide Paired, Lru.Get, Bijective, HasIP, Touch;
    UseBoth(s, pairs, IPIndex(pairs, ip), false, size, 0);
  }

  lemma Misses(s: seq<Record>, key: Key, size: int)
    requires !Lru.Has(s, key)
    ensures Lru.Get(Plain(size), s, key, 0, 0) == (s, None) && Lru.Delete(s, key) == s
  {
  }

  // DelByIP: the address is looked up, which moves it, then both halves go.
  lemma DropBoth(s: seq<Record>, pairs: seq<Pair>, i: nat, size: int)
    requires Paired(s, pairs) && Bijective(pairs) && i < |pairs|
    ensures var (t, a) := Lru.Get(Plain(size), s, IPKey(pairs[i].ip), 0, 0);
            a == Some(IPEntry(pairs[i])) && Bijective(RemoveAt(pairs, i))
            && Paired(Lru.Delete(Lru.Delete(t, HostKey(pairs[i].host)), IPKey(pairs[i].ip)), RemoveAt(pairs, i))
  {
    hide Paired, HasIP, Bijective;
    var k := FindHalf(s, pairs, i, false);
    FindOther(s, pairs, i, false, k, [s[k]]);
    CutPaired(s, pairs, i);
    HasKey(Cut(s, i), RemoveAt(pairs, i));
    WithoutForgets(pairs, i);
    DeleteLast(Cut(s, i), s[k]);
  }

  lemma DeleteLast(s: seq<Record>, last: Record)
    requires !Lru.Has(s, last.key)
    ensures Lru.Delete(s + [last], last.key) == s
  {
    var u := s + [last];
    assert u[|s|].key == last.key;
    assert forall j :: 0 <= j < |s| ==> u[j].key != last.key;
  }

  // Setting a new key appends, and may drop the front.
  lemma SetNew(s: seq<Record>, x: Record, size: int, now: int)
    requires !Lru.Has(s, x.key) && (size > 0 ==> |s| <= 2 * size)
    ensures Lru.SetWithExpire(Plain(size), s, x, now) == if size > 0 && |s| == 2 * size then s[1..] + [x] else s + [x]
  {
    hide Lru.Has;
    if size > 0 && |s| == 2 * size {
      assert (s + [x])[1..] == s[1..] + [x];
    }
  }

  lemma StillMissing(s: seq<Record>, x: Record, key: Key)
    requires !Lru.Has(s, key) && x.key != key
    ensures !Lru.Has(s + [x], key) && (s != [] ==> !Lru.Has(s[1..] + [x], key))
  {
    assert forall j :: 0 <= j < |s| ==> (s + [x])[j].key != key;
    assert s != [] ==> forall j :: 0 <= j < |s| - 1 ==> (s[1..] + [x])[j].key == s[j + 1].key != key;
  }

  lemma PairedLength(s: seq<Record>, pairs: seq<Pair>)
    requires Paired(s, pairs)
    ensures |s| == 2 * |pairs|
  {
  }

  // PutByIP and then PutByHost, for a new pair: a full cache gives up its oldest pair in two bites.
  lemma PutBoth(s: seq<Record>, pairs: seq<Pair>, pair: Pair, size: int, now: int)
    requires Paired(s, pairs) && pair.ip < 0x1_0000_0000
    requires !HasHost(pairs, pair.host) && !HasIP(pairs, pair.ip)
    requires size > 0 ==> |pairs| <= size
    ensures var t := Lru.SetWithExpire(Plain(size), s, IPEntry(pair), now);
            Paired(Lru.SetWithExpire(Plain(size), t, HostEntry(pair), now), Insert(pairs, pair, size))
  {
    HasKey(s, pairs);
    PairedLength(s, pairs);
    var x, y := IPEntry(pair), HostEntry(pair);
    assert Halves(x, y, pair);
    assert x.key == IPKey(pair.ip) && y.key == HostKey(pair.host);
    hide Lru.Has, Lru.SetWithExpire, Paired, HasHost, HasIP, HostEntry, IPEntry, Halves;
    SetNew(s, x, size, now);
    StillMissing(s, x, y.key);
    if size > 0 && |pairs| >= size {
      var t := s[1..] + [x];
      SetNew(t, y, size, now);
      assert t[1..] + [y] == Cut(s, 0) + [x, y];
      CutPaired(s, pairs, 0);
      AppendPaired(Cut(s, 0), RemoveAt(pairs, 0), x, y, pair);
      assert RemoveAt(pairs, 0) == pairs[1..];
    } else {
      SetNew(s + [x], y, size, now);
      AppendPaired(s, pairs, x, y, pair);
      assert s + [x] + [y] == s + [x, y];
    }
  }
}
