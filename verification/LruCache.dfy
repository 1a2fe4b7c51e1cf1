/**
 The cache itself: a list of entry objects, least recent first, and a map from keys to the
 same objects.  Entries are updated in place through either of the two.
 */
module LruCacheModel {
  import opened Wrappers
  import opened LruSpec

  class Entry<K, V> {
    const key: K
    var value: V
    var expires: int

    constructor (key: K, value: V, expires: int)
      ensures this.key == key && this.value == value && this.expires == expires
    {
      this.key := key;
      this.value := value;
      this.expires := expires;
    }
  }

  // The map and the list agree: the map's values are exactly the list's elements, each under its key.
  ghost predicate Linked<K, V>(lru: seq<Entry<K, V>>, cache: map<K, Entry<K, V>>) {
    && (forall i, j :: 0 <= i < j < |lru| ==> lru[i].key != lru[j].key)
    && (forall i :: 0 <= i < |lru| ==> lru[i].key in cache && cache[lru[i].key] == lru[i])
    && (forall k :: k in cache ==> cache[k] in lru && cache[k].key == k)
  }

  lemma RemoveKeepsLinked<K, V>(lru: seq<Entry<K, V>>, cache: map<K, Entry<K, V>>, i: nat)
    requires Linked(lru, cache) && i < |lru|
    ensures Linked(RemoveAt(lru, i), cache - {lru[i].key})
  {
    var r, m := RemoveAt(lru, i), cache - {lru[i].key};
    forall k | k in m
      ensures m[k] in r && m[k].key == k
    {
      var j :| 0 <= j < |lru| && lru[j] == cache[k];
      assert r[if j < i then j else j - 1] == cache[k];
    }
  }

  lemma AppendKeepsLinked<K, V>(lru: seq<Entry<K, V>>, cache: map<K, Entry<K, V>>, e: Entry<K, V>)
    requires Linked(lru, cache) && e.key !in cache
    ensures Linked(lru + [e], cache[e.key := e])
  {
    var r, m := lru + [e], cache[e.key := e];
    forall k | k in m
      ensures m[k] in r && m[k].key == k
    {
      if k == e.key {
        assert r[|lru|] == e;
      } else {
        var j :| 0 <= j < |lru| && lru[j] == cache[k];
        assert r[j] == cache[k];
      }
    }
  }

  lemma MoveKeepsLinked<K, V>(lru: seq<Entry<K, V>>, cache: map<K, Entry<K, V>>, i: nat)
    requires Linked(lru, cache) && i < |lru|
    ensures Linked(RemoveAt(lru, i) + [lru[i]], cache)
  {
    var e := lru[i];
    RemoveKeepsLinked(lru, cache, i);
    AppendKeepsLinked(RemoveAt(lru, i), cache - {e.key}, e);
    assert (cache - {e.key})[e.key := e] == cache;
  }

  // The items are what the entries hold, one by one; and the entries are all among some objects.
  ghost predicate Mirrors<K, V>(items: seq<Item<K, V>>, lru: seq<Entry<K, V>>)
    reads set i | 0 <= i < |lru| :: lru[i]
  {
    |items| == |lru| && forall i :: 0 <= i < |lru| ==> items[i] == Item(lru[i].key, lru[i].value, lru[i].expires)
  }

  ghost predicate Among<K, V>(lru: seq<Entry<K, V>>, objects: set<object>) {
    forall i :: 0 <= i < |lru| ==> lru[i] in objects
  }

  lemma MoveKeepsMirrors<K, V>(items: seq<Item<K, V>>, lru: seq<Entry<K, V>>, objects: set<object>, i: nat)
    requires Mirrors(items, lru) && Among(lru, objects) && i < |lru|
    ensures Mirrors(RemoveAt(items, i) + [items[i]], RemoveAt(lru, i) + [lru[i]])
    ensures Among(RemoveAt(lru, i) + [lru[i]], objects)
  {
  }

  class LruCache<K(==), V> {
    const cfg: Config
    var cache: map<K, Entry<K, V>>
    var lru: seq<Entry<K, V>>
    ghost var items: seq<Item<K, V>>
    ghost var Repr: set<object>

    ghost predicate Valid()
      reads this, Repr
      ensures Valid() ==> this in Repr
    {
      && this in Repr
      && Among(lru, Repr)
      && Linked(lru, cache)
      && Mirrors(items, lru)
    }

    constructor (cfg: Config)
      ensures Valid() && fresh(Repr) && this.cfg == cfg && items == []
    {
      this.cfg := cfg;
      cache := map[];
      lru := [];
      items := [];
      Repr := {this};
    }

    // A key is cached exactly when an entry of the list carries it.
    lemma Agree(key: K)
      requires Valid()
      ensures DistinctKeys(items)
      ensures key in cache <==> Has(items, key)
      ensures key in cache ==> cache[key] in lru && cache[key].key == key
      ensures key in cache ==> items[IndexOf(items, key)] == Item(key, cache[key].value, cache[key].expires)
    {
      if key in cache {
        var i :| 0 <= i < |lru| && lru[i] == cache[key];
        assert items[i].key == key;
      }
      if Has(items, key) {
        var i := IndexOf(items, key);
        assert lru[i].key == key;
      }
    }

    method Exist(key: K) returns (ok: bool)
      requires Valid()
      ensures ok == Has(items, key)
    {
      Agree(key);
      ok := key in cache;
    }

    // Get (lrucache.go) hands out the value; get, below, does the work.
    method Get(key: K, now: int, later: int) returns (r: Option<V>)
      requires Valid()
      modifies Repr
      ensures Valid() && Repr == old(Repr)
      ensures items == LruSpec.Get(cfg, old(items), key, now, later).0
      ensures r == ValueOf(LruSpec.Get(cfg, old(items), key, now, later).1)
    {
      var e := GetEntry(key, now, later);
      if e == null {
        return None;
      }
      r := Some(e.value);
    }

    method GetEntry(key: K, now: int, later: int) returns (e: Entry?<K, V>)
      requires Valid()
      modifies Repr
      ensures Valid() && Repr == old(Repr)
      ensures items == LruSpec.Get(cfg, old(items), key, now, later).0
      ensures e != null <==> Hit(cfg, old(items), key, now)
      ensures e != null ==> e in lru
      ensures e != null && cfg.Expiring() && now <= later ==> e.expires > now
      ensures e != null ==> Some(Item(e.key, e.value, e.expires)) == LruSpec.Get(cfg, old(items), key, now, later).1
    {
      hide Linked, Mirrors, RemoveAt, IndexOf;
      Agree(key);
      if key !in cache {
        return null;
      }
      var le := cache[key];
      if !cfg.staleReturn && cfg.maxAge > 0 && le.expires <= now {
        DeleteElement(le);
        MaybeDeleteOldest(later);
        return null;
      }
      ghost var item := items[IndexOf(items, key)];
      MoveToBack(le);
      assert items == RemoveAt(old(items), IndexOf(old(items), key)) + [item];
      if cfg.maxAge > 0 && cfg.updateAgeOnGet {
        Refresh(le, later + cfg.maxAge);
      }
      e := le;
    }

    // entry.expires = expires, for the entry at the back
    method Refresh(e: Entry<K, V>, expires: int)
      requires Valid() && lru != [] && e == lru[|lru| - 1]
      modifies e, this`items
      ensures Valid() && Repr == old(Repr) && e.value == old(e.value) && e.expires == expires
      ensures items == old(items[..|items| - 1]) + [Item(e.key, e.value, expires)]
    {
      e.expires := expires;
      items := items[..|items| - 1] + [Item(e.key, e.value, expires)];
    }

    method Set(key: K, value: V, now: int, later: int)
      requires Valid()
      modifies Repr
      ensures Valid() && fresh(Repr - old(Repr))
      ensures items == LruSpec.SetWithExpire(cfg, old(items), Item(key, value, Expiry(cfg, now)), later)
    {
      SetWithExpire(key, value, Expiry(cfg, now), later);
    }

    method SetWithExpire(key: K, value: V, expires: int, now: int)
      requires Valid()
      modifies Repr
      ensures Valid() && fresh(Repr - old(Repr))
      ensures items == LruSpec.SetWithExpire(cfg, old(items), Item(key, value, expires), now)
    {
      hide Linked;
      Agree(key);
      if key in cache {
        var le := cache[key];
        MoveToBack(le);
        le.value := value;
        le.expires := expires;
        items := items[|items| - 1 := Item(key, value, expires)];
      } else {
        PushBack(key, value, expires);
        if cfg.maxSize > 0 {
          if |lru| > cfg.maxSize {
            DeleteFront();
          }
        }
      }
      assert items == Put(cfg, old(items), Item(key, value, expires));
      MaybeDeleteOldest(now);
    }

    method Delete(key: K)
      requires Valid()
      modifies this
      ensures Valid() && Repr == old(Repr)
      ensures items == LruSpec.Delete(old(items), key)
    {
      hide Linked;
      Agree(key);
      if key in cache {
        DeleteElement(cache[key]);
      }
    }

    method MaybeDeleteOldest(now: int)
      requires Valid()
      modifies this
      ensures Valid() && Repr == old(Repr)
      ensures items == Age(cfg, old(items), now)
    {
      if !cfg.staleReturn && cfg.maxAge > 0 {
        while |lru| > 0 && lru[0].expires <= now
          invariant Valid() && Repr == old(Repr)
          invariant DropExpired(items, now) == DropExpired(old(items), now)
          decreases |lru|
        {
          DeleteFront();
        }
      }
    }

    method PushBack(key: K, value: V, expires: int)
      requires Valid() && key !in cache
      modifies this
      ensures Valid() && items == old(items) + [Item(key, value, expires)]
      ensures fresh(Repr - old(Repr))
    {
      hide Linked;
      var e := new Entry(key, value, expires);
      AppendKeepsLinked(lru, cache, e);
      cache := cache[key := e];
      lru := lru + [e];
      items := items + [Item(key, value, expires)];
      Repr := Repr + {e};
    }

    // Moves an element of the list to its back.
    method MoveToBack(le: Entry<K, V>)
      requires Valid() && le in lru
      modifies this
      ensures Valid() && Repr == old(Repr)
      ensures Has(old(items), le.key)
      ensures items == RemoveAt(old(items), IndexOf(old(items), le.key)) + [Item(le.key, le.value, le.expires)]
      ensures lru != [] && lru[|lru| - 1] == le
    {
      hide Linked, RemoveAt, Has, IndexOf, Mirrors, Among;
      var i := Position(le);
      MoveKeepsLinked(lru, cache, i);
      MoveKeepsMirrors(items, lru, Repr, i);
      lru := RemoveAt(lru, i) + [le];
      items := RemoveAt(items, i) + [items[i]];
    }

    method DeleteElement(le: Entry<K, V>)
      requires Valid() && le in lru
      modifies this
      ensures Valid() && Repr == old(Repr)
      ensures Has(old(items), le.key)
      ensures items == RemoveAt(old(items), IndexOf(old(items), le.key))
    {
      var i := Position(le);
      RemoveKeepsLinked(lru, cache, i);
      lru := RemoveAt(lru, i);
      items := RemoveAt(items, i);
      cache := cache - {le.key};
    }

    // Where an element stands in the list.
    method Position(le: Entry<K, V>) returns (i: nat)
      requires Valid() && le in lru
      ensures i < |lru| && lru[i] == le && items[i] == Item(le.key, le.value, le.expires)
      ensures Has(items, le.key) && i == IndexOf(items, le.key)
    {
      i :| 0 <= i < |lru| && lru[i] == le;
      assert items[i].key == le.key;
    }

    // c.deleteElement(c.lru.Front())
    method DeleteFront()
      requires Valid() && lru != []
      modifies this
      ensures Valid() && Repr == old(Repr)
      ensures items == old(items)[1..]
    {
      assert items[0].key == lru[0].key;
      Agree(lru[0].key);
      DeleteElement(lru[0]);
    }
  }
}
