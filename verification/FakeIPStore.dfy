/**
 The in-memory store: one LRU cache for both directions of the host/address relation.
 */
module FakeIPStore {
  import opened Wrappers
  import opened Net
  import opened PoolSpec
  import opened FakeIPEntries
  import opened LruCacheModel
  import Lru = LruSpec

  class MemoryStore {
    const cache: LruCache<Key, Value>
    const size: int
    ghost var pairs: seq<Pair>
    // While a pair is half inserted: the entries from before.
    ghost var before: seq<Record>

    // Between operations: the entries are those of the pairs, two by two.
    ghost predicate Valid()
      reads this, cache, cache.Repr
    {
      && this !in cache.Repr && cache.Valid() && cache.cfg == Plain(size)
      && Paired(cache.items, pairs) && Bijective(pairs)
      && (size > 0 ==> |pairs| <= size)
    }

    // After PutByIP and before PutByHost: the new pair has only its address entry, and the oldest
    // pair of a full store only one of its two.
    ghost predicate HalfIn(pair: Pair)
      reads this, cache, cache.Repr
    {
      && this !in cache.Repr && cache.Valid() && cache.cfg == Plain(size)
      && Paired(before, pairs) && Bijective(pairs)
      && (size > 0 ==> |pairs| <= size)
      && pair.ip < 0x1_0000_0000 && !HasHost(pairs, pair.host) && !HasIP(pairs, pair.ip)
      && cache.items == Lru.SetWithExpire(Plain(size), before, IPEntry(pair), 0)
    }

    constructor (size: int)
      ensures Valid() && this.size == size && pairs == [] && fresh(cache.Repr)
    {
      // cache.WithSize only: no age, so the clock is never read and 0 stands for every time.
      cache := new LruCache(Lru.Config(0, size * 2, false, false));
      this.size := size;
      pairs := [];
      before := [];
    }

    method GetByHost(host: string) returns (r: Option<IP>)
      requires Valid()
      modifies this, cache.Repr
      ensures Valid() && cache.Repr == old(cache.Repr)
      ensures if HasHost(old(pairs), host)
              then var i := HostIndex(old(pairs), host);
                   old(pairs)[i].ip < 0x1_0000_0000 && r == Some(UintToIP(old(pairs)[i].ip))
                   && pairs == Touch(old(pairs), i)
              else r == None && pairs == old(pairs)
    {
      hide UintToIP, IPToUint, LruCache.Valid, Paired, Bijective, HasHost, HasIP, Lru.Get, Lru.Has, Lru.Delete;
      HasKey(cache.items, pairs);
      if HasHost(pairs, host) {
        UseHost(cache.items, pairs, host, size);
      } else {
        Misses(cache.items, HostKey(host), size);
      }
      var elm := cache.Get(HostKey(host), 0, 0);
      if elm == None {
        return None;
      }
      var ip := elm.value.ip;
      ghost var i := HostIndex(pairs, host);
      UintRoundTrip(pairs[i].ip);
      // the other half of the pair is used too, to stay next to this one
      var _ := cache.Get(IPKey(IPToUint(ip)), 0, 0);
      pairs := Touch(pairs, i);
      r := Some(ip);
    }

    method GetByIP(ip: IP) returns (r: Option<string>)
      requires Valid() && |ip| == 4
      modifies this, cache.Repr
      ensures Valid() && cache.Repr == old(cache.Repr)
      ensures if HasIP(old(pairs), IPToUint(ip))
              then var i := IPIndex(old(pairs), IPToUint(ip));
                   r == Some(old(pairs)[i].host) && pairs == Touch(old(pairs), i)
              else r == None && pairs == old(pairs)
    {
      hide UintToIP, IPToUint, LruCache.Valid, Paired, Bijective, HasHost, HasIP, Lru.Get, Lru.Has, Lru.Delete;
      HasKey(cache.items, pairs);
      if HasIP(pairs, IPToUint(ip)) {
        UseIP(cache.items, pairs, IPToUint(ip), size);
      } else {
        Misses(cache.items, IPKey(IPToUint(ip)), size);
      }
      var elm := cache.Get(IPKey(IPToUint(ip)), 0, 0);
      if elm == None {
        return None;
      }
      var host := elm.value.host;
      // and so is its other half
      var _ := cache.Get(HostKey(host), 0, 0);
      pairs := Touch(pairs, IPIndex(pairs, IPToUint(ip)));
      r := Some(host);
    }

    method PutByIP(ip: IP, host: string)
      requires Valid() && |ip| == 4
      requires !HasHost(pairs, host) && !HasIP(pairs, IPToUint(ip))
      modifies this, cache.Repr
      ensures HalfIn(Pair(host, IPToUint(ip))) && pairs == old(pairs)
      ensures fresh(cache.Repr - old(cache.Repr))
    {
      hide UintToIP, IPToUint, LruCache.Valid, Paired, Bijective, HasHost, HasIP, Lru.Get, Lru.Has, Lru.Delete;
      before := cache.items;
      cache.Set(IPKey(IPToUint(ip)), HostValue(host), 0, 0);
    }

    method PutByHost(host: string, ip: IP)
      requires |ip| == 4 && HalfIn(Pair(host, IPToUint(ip)))
      modifies this, cache.Repr
      ensures Valid() && pairs == Insert(old(pairs), Pair(host, IPToUint(ip)), size)
      ensures fresh(cache.Repr - old(cache.Repr))
    {
      hide UintToIP, IPToUint, LruCache.Valid, Paired, Bijective, HasHost, HasIP, Lru.Get, Lru.Has, Lru.Delete;
      ghost var pair := Pair(host, IPToUint(ip));
      PutBoth(before, pairs, pair, size, 0);
      InsertKeepsBijective(pairs, pair, size);
      IPRoundTrip(ip);
      cache.Set(HostKey(host), IPValue(ip), 0, 0);
      pairs := Insert(pairs, pair, size);
    }

    method DelByIP(ip: IP)
      requires Valid() && |ip| == 4
      modifies this, cache.Repr
      ensures Valid() && cache.Repr == old(cache.Repr)
      ensures pairs == Drop(old(pairs), IPToUint(ip))
    {
      hide UintToIP, IPToUint, LruCache.Valid, Paired, Bijective, HasHost, HasIP, Lru.Get, Lru.Has, Lru.Delete;
      var ipNum := IPToUint(ip);
      HasKey(cache.items, pairs);
      if HasIP(pairs, ipNum) {
        DropBoth(cache.items, pairs, IPIndex(pairs, ipNum), size);
      } else {
        Misses(cache.items, IPKey(ipNum), size);
      }
      pairs := Drop(pairs, ipNum);
      var elm := cache.Get(IPKey(ipNum), 0, 0);
      if elm.Some? {
        cache.Delete(HostKey(elm.value.host));
      }
      cache.Delete(IPKey(ipNum));
    }

    method Exist(ip: IP) returns (ok: bool)
      requires Valid() && |ip| == 4
      ensures ok == HasIP(pairs, IPToUint(ip))
    {
      hide UintToIP, IPToUint, LruCache.Valid, Paired, Bijective, HasHost, HasIP, Lru.Get, Lru.Has, Lru.Delete;
      HasKey(cache.items, pairs);
      ok := cache.Exist(IPKey(IPToUint(ip)));
    }
  }
}
