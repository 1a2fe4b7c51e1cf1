/**
 The abstract value of an LruCache: its entries in recency order, least recent first,
 and what each operation does to that sequence.  The lemmas relate the order to the
 history of uses and the expiry times to the clock.
 */
module LruSpec {
  import opened Wrappers

  datatype Item<K, V> = Item(key: K, value: V, expires: int)

  // The functional options a cache is built with (times in seconds).
  datatype Config = Config(maxAge: int, maxSize: int, updateAgeOnGet: bool, staleReturn: bool) {
    predicate Expiring() {
      !staleReturn && maxAge > 0
    }
  }

  ghost predicate Has<K, V>(s: seq<Item<K, V>>, k: K) {
    exists i :: 0 <= i < |s| && s[i].key == k
  }

  ghost predicate DistinctKeys<K, V>(s: seq<Item<K, V>>) {
    forall i, j :: 0 <= i < j < |s| ==> s[i].key != s[j].key
  }

  ghost function IndexOf<K, V>(s: seq<Item<K, V>>, k: K): (i: nat)
    requires Has(s, k)
    ensures i < |s| && s[i].key == k
  {
    var i :| 0 <= i < |s| && s[i].key == k;
    i
  }

  // Entries expired at time `now` are dropped from the least recent end, up to the first live one.
  ghost function DropExpired<K, V>(s: seq<Item<K, V>>, now: int): seq<Item<K, V>> {
    if s == [] || s[0].expires > now then s else DropExpired(s[1..], now)
  }

  ghost function Age<K, V>(cfg: Config, s: seq<Item<K, V>>, now: int): seq<Item<K, V>> {
    if cfg.Expiring() then DropExpired(s, now) else s
  }

  ghost function Bound<K, V>(cfg: Config, s: seq<Item<K, V>>): seq<Item<K, V>> {
    if cfg.maxSize > 0 && |s| > cfg.maxSize then s[1..] else s
  }

  ghost function Put<K, V>(cfg: Config, s: seq<Item<K, V>>, item: Item<K, V>): seq<Item<K, V>> {
    if Has(s, item.key) then RemoveAt(s, IndexOf(s, item.key)) + [item] else Bound(cfg, s + [item])
  }

  ghost function SetWithExpire<K, V>(cfg: Config, s: seq<Item<K, V>>, item: Item<K, V>, now: int): seq<Item<K, V>> {
    Age(cfg, Put(cfg, s, item), now)
  }

  function Expiry(cfg: Config, now: int): int {
    if cfg.maxAge > 0 then now + cfg.maxAge else 0
  }

  function Refreshed<K, V>(cfg: Config, item: Item<K, V>, now: int): Item<K, V> {
    if cfg.maxAge > 0 && cfg.updateAgeOnGet then item.(expires := now + cfg.maxAge) else item
  }

  ghost predicate Hit<K, V>(cfg: Config, s: seq<Item<K, V>>, k: K, now: int) {
    Has(s, k) && !(cfg.Expiring() && s[IndexOf(s, k)].expires <= now)
  }

  // The clock is read up to twice: to see whether the entry has expired, and to delete others or refresh it.
  ghost function Get<K, V>(cfg: Config, s: seq<Item<K, V>>, k: K, now: int, later: int)
    : (seq<Item<K, V>>, Option<Item<K, V>>)
  {
    if !Has(s, k) then (s, None)
    else
      var i := IndexOf(s, k);
      if cfg.Expiring() && s[i].expires <= now then (Age(cfg, RemoveAt(s, i), later), None)
      else
        var item := Refreshed(cfg, s[i], later);
        (RemoveAt(s, i) + [item], Some(item))
  }

  function ValueOf<K, V>(found: Option<Item<K, V>>): Option<V> {
    if found.Some? then Some(found.value.value) else None
  }

  ghost function Delete<K, V>(s: seq<Item<K, V>>, k: K): seq<Item<K, V>> {
    if Has(s, k) then RemoveAt(s, IndexOf(s, k)) else s
  }

  // ----- runs -----

  datatype Op<K, V> =
    | OpSet(key: K, value: V)
    | OpSetWithExpire(key: K, value: V, expires: int)
    | OpGet(key: K)
    | OpDelete(key: K)

  // An operation and what the clock shows when it is read first and second.
  datatype Event<K, V> = Event(op: Op<K, V>, now: int, later: int)

  ghost function Step<K, V>(cfg: Config, s: seq<Item<K, V>>, e: Event<K, V>): seq<Item<K, V>> {
    match e.op
    case OpSet(k, v) => SetWithExpire(cfg, s, Item(k, v, Expiry(cfg, e.now)), e.later)
    case OpSetWithExpire(k, v, x) => SetWithExpire(cfg, s, Item(k, v, x), e.later)
    case OpGet(k) => Get(cfg, s, k, e.now, e.later).0
    case OpDelete(k) => Delete(s, k)
  }

  ghost function Run<K, V>(cfg: Config, es: seq<Event<K, V>>): seq<Item<K, V>> {
    if es == [] then [] else Step(cfg, Run(cfg, es[..|es| - 1]), es[|es| - 1])
  }

  // Whether an event, arriving in state `s`, counts as a use of its key: every set, and every get that hits.
  ghost predicate Uses<K, V>(cfg: Config, s: seq<Item<K, V>>, e: Event<K, V>) {
    match e.op
    case OpSet(_, _) => true
    case OpSetWithExpire(_, _, _) => true
    case OpGet(k) => Hit(cfg, s, k, e.now)
    case OpDelete(_) => false
  }

  // For every key used so far, the number of the last event that used it.
  ghost function LastUse<K, V>(cfg: Config, es: seq<Event<K, V>>): (m: map<K, nat>)
    ensures forall k :: k in m ==> m[k] < |es|
  {
    if es == [] then map[]
    else
      var before, e := es[..|es| - 1], es[|es| - 1];
      var m := LastUse(cfg, before);
      if Uses(cfg, Run(cfg, before), e) then m[e.op.key := |es| - 1] else m
  }

  // Entries stand in the order of their keys' stamps.
  ghost predicate OrderedBy<K, V>(s: seq<Item<K, V>>, stamp: map<K, nat>) {
    && (forall i :: 0 <= i < |s| ==> s[i].key in stamp)
    && (forall i, j :: 0 <= i < j < |s| ==> stamp[s[i].key] < stamp[s[j].key])
  }

  // ----- lemmas -----

  // Ageing cuts off a prefix all of whose entries have expired.
  lemma {:induction false} DropExpiredIsSuffix<K, V>(s: seq<Item<K, V>>, now: int) returns (n: nat)
    ensures n <= |s| && DropExpired(s, now) == s[n..]
    ensures forall i :: 0 <= i < n ==> s[i].expires <= now
    ensures n < |s| ==> s[n].expires > now
  {
    if s == [] || s[0].expires > now {
      n := 0;
    } else {
      var m := DropExpiredIsSuffix(s[1..], now);
      n := m + 1;
    }
  }

  lemma AgeKeepsOrder<K, V>(cfg: Config, s: seq<Item<K, V>>, now: int, stamp: map<K, nat>)
    requires OrderedBy(s, stamp)
    ensures OrderedBy(Age(cfg, s, now), stamp)
    ensures |Age(cfg, s, now)| <= |s|
  {
    if cfg.Expiring() {
      var n := DropExpiredIsSuffix(s, now);
    }
  }

  lemma AppendKeepsOrder<K, V>(s: seq<Item<K, V>>, item: Item<K, V>, stamp: map<K, nat>, n: nat)
    requires OrderedBy(s, stamp) && !Has(s, item.key)
    requires forall k :: k in stamp ==> stamp[k] < n
    ensures OrderedBy(s + [item], stamp[item.key := n])
  {
  }

  lemma RemoveKeepsOrder<K, V>(s: seq<Item<K, V>>, k: K, stamp: map<K, nat>)
    requires OrderedBy(s, stamp) && Has(s, k)
    ensures OrderedBy(RemoveAt(s, IndexOf(s, k)), stamp) && !Has(RemoveAt(s, IndexOf(s, k)), k)
  {
  }

  lemma SetKeepsOrder<K, V>(cfg: Config, s: seq<Item<K, V>>, item: Item<K, V>, now: int, stamp: map<K, nat>, n: nat)
    requires OrderedBy(s, stamp)
    requires forall k :: k in stamp ==> stamp[k] < n
    ensures OrderedBy(SetWithExpire(cfg, s, item, now), stamp[item.key := n])
    ensures cfg.maxSize > 0 && |s| <= cfg.maxSize ==> |SetWithExpire(cfg, s, item, now)| <= cfg.maxSize
  {
    if Has(s, item.key) {
      RemoveKeepsOrder(s, item.key, stamp);
      AppendKeepsOrder(RemoveAt(s, IndexOf(s, item.key)), item, stamp, n);
    } else {
      AppendKeepsOrder(s, item, stamp, n);
    }
    assert OrderedBy(Put(cfg, s, item), stamp[item.key := n]);
    AgeKeepsOrder(cfg, Put(cfg, s, item), now, stamp[item.key := n]);
  }

  lemma GetKeepsOrder<K, V>(cfg: Config, s: seq<Item<K, V>>, k: K, now: int, later: int, stamp: map<K, nat>, n: nat)
    requires OrderedBy(s, stamp)
    requires forall k :: k in stamp ==> stamp[k] < n
    ensures OrderedBy(Get(cfg, s, k, now, later).0, if Hit(cfg, s, k, now) then stamp[k := n] else stamp)
    ensures |Get(cfg, s, k, now, later).0| <= |s|
  {
    if Has(s, k) {
      var i := IndexOf(s, k);
      RemoveKeepsOrder(s, k, stamp);
      if Hit(cfg, s, k, now) {
        AppendKeepsOrder(RemoveAt(s, i), Refreshed(cfg, s[i], later), stamp, n);
      } else {
        AgeKeepsOrder(cfg, RemoveAt(s, i), later, stamp);
      }
    }
  }

  // Over every run the list is ordered by last use, so front entries are the least recently set or
  // hit; keys are distinct and a positive size bound is respected.
  lemma {:induction false} RunIsOrderedByLastUse<K, V>(cfg: Config, es: seq<Event<K, V>>)
    ensures OrderedBy(Run(cfg, es), LastUse(cfg, es))
    ensures DistinctKeys(Run(cfg, es))
    ensures cfg.maxSize > 0 ==> |Run(cfg, es)| <= cfg.maxSize
  {
    if es != [] {
      var before, e := es[..|es| - 1], es[|es| - 1];
      var s, stamp := Run(cfg, before), LastUse(cfg, before);
      RunIsOrderedByLastUse(cfg, before);
      match e.op
      case OpSet(k, v) => SetKeepsOrder(cfg, s, Item(k, v, Expiry(cfg, e.now)), e.later, stamp, |before|);
      case OpSetWithExpire(k, v, x) => SetKeepsOrder(cfg, s, Item(k, v, x), e.later, stamp, |before|);
      case OpGet(k) => GetKeepsOrder(cfg, s, k, e.now, e.later, stamp, |before|);
      case OpDelete(k) => if Has(s, k) { RemoveKeepsOrder(s, k, stamp); }
    }
  }

  // The entry a full cache gives up for a new key is the one whose last use is the oldest of all.
  lemma SizeVictimIsLeastRecentlyUsed<K, V>(cfg: Config, es: seq<Event<K, V>>, item: Item<K, V>)
    requires !Has(Run(cfg, es), item.key)
    ensures var s, stamp, t := Run(cfg, es), LastUse(cfg, es), Put(cfg, Run(cfg, es), item);
            if cfg.maxSize > 0 && |s| == cfg.maxSize
            then !Has(t, s[0].key) && t == s[1..] + [item]
                 && forall i :: 0 < i < |s| ==>
                    s[0].key in stamp && s[i].key in stamp && stamp[s[0].key] < stamp[s[i].key]
            else t == s + [item]
  {
    RunIsOrderedByLastUse(cfg, es);
  }

  // ----- expiry -----

  ghost predicate SortedByExpiry<K, V>(s: seq<Item<K, V>>) {
    forall i, j :: 0 <= i < j < |s| ==> s[i].expires <= s[j].expires
  }

  ghost predicate ExpiryAtMost<K, V>(s: seq<Item<K, V>>, limit: int) {
    forall i :: 0 <= i < |s| ==> s[i].expires <= limit
  }

  // Runs in which every expiry time is the cache's own and the clock never goes back.
  ghost predicate OwnExpiry<K, V>(es: seq<Event<K, V>>) {
    && (forall i :: 0 <= i < |es| ==> !es[i].op.OpSetWithExpire?)
    && (forall i :: 0 <= i < |es| ==> es[i].now <= es[i].later)
    && (forall i, j :: 0 <= i < j < |es| ==> es[i].later <= es[j].now)
  }

  ghost function Live<K, V>(s: seq<Item<K, V>>, now: int): seq<Item<K, V>> {
    if s == [] then [] else (if s[0].expires > now then [s[0]] else []) + Live(s[1..], now)
  }

  // On a list sorted by expiry, looking at the front alone removes all expired entries and no other.
  lemma {:induction false} DropExpiredIsExact<K, V>(s: seq<Item<K, V>>, now: int)
    requires SortedByExpiry(s)
    ensures DropExpired(s, now) == Live(s, now)
    ensures SortedByExpiry(DropExpired(s, now))
  {
    if s != [] {
      DropExpiredIsExact(s[1..], now);
      if s[0].expires > now {
        AllLive(s, now);
      }
    }
  }

  lemma {:induction false} AllLive<K, V>(s: seq<Item<K, V>>, now: int)
    requires forall i :: 0 <= i < |s| ==> s[i].expires > now
    ensures Live(s, now) == s
  {
    if s != [] {
      AllLive(s[1..], now);
    }
  }

  lemma AgeKeepsSorted<K, V>(cfg: Config, s: seq<Item<K, V>>, now: int, limit: int)
    requires SortedByExpiry(s) && ExpiryAtMost(s, limit)
    ensures SortedByExpiry(Age(cfg, s, now)) && ExpiryAtMost(Age(cfg, s, now), limit)
  {
    if cfg.Expiring() {
      var n := DropExpiredIsSuffix(s, now);
    }
  }

  lemma AppendKeepsSorted<K, V>(s: seq<Item<K, V>>, item: Item<K, V>)
    requires SortedByExpiry(s) && ExpiryAtMost(s, item.expires)
    ensures SortedByExpiry(s + [item]) && ExpiryAtMost(s + [item], item.expires)
  {
  }

  lemma RemoveKeepsSorted<K, V>(s: seq<Item<K, V>>, i: nat, limit: int)
    requires i < |s| && SortedByExpiry(s) && ExpiryAtMost(s, limit)
    ensures SortedByExpiry(RemoveAt(s, i)) && ExpiryAtMost(RemoveAt(s, i), limit)
  {
  }

  lemma PutKeepsSorted<K, V>(cfg: Config, s: seq<Item<K, V>>, item: Item<K, V>)
    requires SortedByExpiry(s) && ExpiryAtMost(s, item.expires)
    ensures SortedByExpiry(Put(cfg, s, item)) && ExpiryAtMost(Put(cfg, s, item), item.expires)
  {
    if Has(s, item.key) {
      RemoveKeepsSorted(s, IndexOf(s, item.key), item.expires);
      AppendKeepsSorted(RemoveAt(s, IndexOf(s, item.key)), item);
    } else {
      AppendKeepsSorted(s, item);
    }
  }

  lemma GetKeepsSorted<K, V>(cfg: Config, s: seq<Item<K, V>>, k: K, now: int, later: int)
    requires cfg.maxAge > 0 && cfg.updateAgeOnGet
    requires SortedByExpiry(s) && ExpiryAtMost(s, later + cfg.maxAge)
    ensures var t := Get(cfg, s, k, now, later).0; SortedByExpiry(t) && ExpiryAtMost(t, later + cfg.maxAge)
  {
    if Has(s, k) {
      var i := IndexOf(s, k);
      RemoveKeepsSorted(s, i, later + cfg.maxAge);
      if Hit(cfg, s, k, now) {
        AppendKeepsSorted(RemoveAt(s, i), Refreshed(cfg, s[i], later));
      } else {
        AgeKeepsSorted(cfg, RemoveAt(s, i), later, later + cfg.maxAge);
      }
    }
  }

  // With the age refreshed on every get, and no explicit expiry times, expiry order is list order.
  lemma {:induction false} RunIsSortedByExpiry<K, V>(cfg: Config, es: seq<Event<K, V>>, now: int)
    requires cfg.maxAge > 0 && cfg.updateAgeOnGet && OwnExpiry(es)
    requires es != [] ==> es[|es| - 1].later <= now
    ensures SortedByExpiry(Run(cfg, es)) && ExpiryAtMost(Run(cfg, es), now + cfg.maxAge)
  {
    if es != [] {
      var before, e := es[..|es| - 1], es[|es| - 1];
      var s := Run(cfg, before);
      RunIsSortedByExpiry(cfg, before, e.now);
      match e.op
      case OpSet(k, v) =>
        var item := Item(k, v, Expiry(cfg, e.now));
        PutKeepsSorted(cfg, s, item);
        AgeKeepsSorted(cfg, Put(cfg, s, item), e.later, item.expires);
      case OpGet(k) => GetKeepsSorted(cfg, s, k, e.now, e.later);
      case OpDelete(k) => if Has(s, k) { RemoveKeepsSorted(s, IndexOf(s, k), e.now + cfg.maxAge); }
    }
  }

  lemma RunSnoc<K, V>(cfg: Config, es: seq<Event<K, V>>, e: Event<K, V>)
    ensures Run(cfg, es + [e]) == Step(cfg, Run(cfg, es), e)
  {
    var all := es + [e];
    assert all[..|all| - 1] == es && all[|all| - 1] == e;
  }

  // In such a run, a set leaves exactly the entries that are still live when it ends.
  lemma {:induction false} SetLeavesExactlyTheLive<K, V>(cfg: Config, es: seq<Event<K, V>>, k: K, v: V, now: int,
                                                         later: int)
    requires cfg.Expiring() && cfg.updateAgeOnGet && OwnExpiry(es)
    requires es != [] ==> es[|es| - 1].later <= now
    ensures Run(cfg, es + [Event(OpSet(k, v), now, later)])
         == Live(Put(cfg, Run(cfg, es), Item(k, v, now + cfg.maxAge)), later)
  {
    RunSnoc(cfg, es, Event(OpSet(k, v), now, later));
    RunIsSortedByExpiry(cfg, es, now);
    var s, item := Run(cfg, es), Item(k, v, now + cfg.maxAge);
    PutKeepsSorted(cfg, s, item);
    DropExpiredIsExact(Put(cfg, s, item), later);
  }
}
