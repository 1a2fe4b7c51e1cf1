/**
 What a cache holds after any run, told from the events alone: which value, until when, and for how
 long a key is kept.
 */
module LruHistory {
  import opened Wrappers
  import opened LruSpec

  // ----- values -----

  // For every key set and not deleted since, the value it was given last.
  function Given<K, V>(es: seq<Event<K, V>>): map<K, V> {
    if es == [] then map[]
    else
      var m := Given(es[..|es| - 1]);
      match es[|es| - 1].op
      case OpSet(k, v) => m[k := v]
      case OpSetWithExpire(k, v, _) => m[k := v]
      case OpGet(_) => m
      case OpDelete(k) => m - {k}
  }

  // For every such key, when its entry expires: what the last set said, or a later hit that refreshed it.
  ghost function Due<K, V>(cfg: Config, es: seq<Event<K, V>>): map<K, int> {
    if es == [] then map[]
    else
      var before, e := es[..|es| - 1], es[|es| - 1];
      DueAfter(cfg, Run(cfg, before), Due(cfg, before), e)
  }

  ghost function DueAfter<K, V>(cfg: Config, s: seq<Item<K, V>>, m: map<K, int>, e: Event<K, V>): map<K, int> {
    match e.op
    case OpSet(k, _) => m[k := if cfg.maxAge > 0 then e.now + cfg.maxAge else 0]
    case OpSetWithExpire(k, _, x) => m[k := x]
    case OpGet(k) =>
      if cfg.maxAge > 0 && cfg.updateAgeOnGet && Hit(cfg, s, k, e.now) then m[k := e.later + cfg.maxAge] else m
    case OpDelete(k) => m - {k}
  }

  // Entries are what the two maps say.
  ghost predicate Tells<K, V>(s: seq<Item<K, V>>, values: map<K, V>, dues: map<K, int>) {
    forall i :: 0 <= i < |s| ==>
      s[i].key in values && s[i].value == values[s[i].key] && s[i].key in dues && s[i].expires == dues[s[i].key]
  }

  lemma AgeTells<K, V>(cfg: Config, s: seq<Item<K, V>>, now: int, values: map<K, V>, dues: map<K, int>)
    requires Tells(s, values, dues)
    ensures Tells(Age(cfg, s, now), values, dues)
  {
    if cfg.Expiring() {
      var n := DropExpiredIsSuffix(s, now);
    }
  }

  lemma RemoveLeaves<K, V>(s: seq<Item<K, V>>, i: nat)
    requires DistinctKeys(s) && i < |s|
    ensures var r := RemoveAt(s, i);
            forall j :: 0 <= j < |r| ==> r[j].key != s[i].key && r[j] in s
  {
    var r := RemoveAt(s, i);
    forall j | 0 <= j < |r|
      ensures r[j].key != s[i].key && r[j] in s
    {
      assert r[j] == s[if j < i then j else j + 1];
    }
  }

  // An entry goes to the end with a new value and expiry, or with those it had.
  lemma MoveTells<K, V>(s: seq<Item<K, V>>, i: nat, item: Item<K, V>, values: map<K, V>, dues: map<K, int>)
    requires DistinctKeys(s) && Tells(s, values, dues) && i < |s| && item.key == s[i].key
    ensures Tells(RemoveAt(s, i) + [item], values[item.key := item.value], dues[item.key := item.expires])
  {
    RemoveLeaves(s, i);
    hide RemoveAt, DistinctKeys;
  }

  lemma PutTells<K, V>(cfg: Config, s: seq<Item<K, V>>, item: Item<K, V>, values: map<K, V>, dues: map<K, int>)
    requires DistinctKeys(s) && Tells(s, values, dues)
    ensures Tells(Put(cfg, s, item), values[item.key := item.value], dues[item.key := item.expires])
  {
    if Has(s, item.key) {
      MoveTells(s, IndexOf(s, item.key), item, values, dues);
    } else {
      assert forall i :: 0 <= i < |s| ==> s[i].key != item.key;
    }
  }

  lemma DeleteTells<K, V>(s: seq<Item<K, V>>, k: K, values: map<K, V>, dues: map<K, int>)
    requires DistinctKeys(s) && Tells(s, values, dues)
    ensures Tells(Delete(s, k), values - {k}, dues - {k})
  {
    if Has(s, k) {
      RemoveLeaves(s, IndexOf(s, k));
      hide RemoveAt, DistinctKeys;
    } else {
      assert forall i :: 0 <= i < |s| ==> s[i].key != k;
    }
  }

  lemma GetTells<K, V>(cfg: Config, s: seq<Item<K, V>>, k: K, now: int, later: int, values: map<K, V>, dues: map<K,
                       int>)
    requires DistinctKeys(s) && Tells(s, values, dues)
    ensures var refreshed := cfg.maxAge > 0 && cfg.updateAgeOnGet && Hit(cfg, s, k, now);
            Tells(Get(cfg, s, k, now, later).0, values, if refreshed then dues[k := later + cfg.maxAge] else dues)
  {
    if Has(s, k) {
      var i := IndexOf(s, k);
      if Hit(cfg, s, k, now) {
        MoveTells(s, i, Refreshed(cfg, s[i], later), values, dues);
        assert values[k := s[i].value] == values;
        assert dues[k := s[i].expires] == dues;
      } else {
        RemoveLeaves(s, i);
        assert Tells(RemoveAt(s, i), values, dues);
        AgeTells(cfg, RemoveAt(s, i), later, values, dues);
      }
    }
  }

  // Over every run: an entry carries the value its key was given last, and expires when the history says.
  lemma {:induction false} RunTells<K, V>(cfg: Config, es: seq<Event<K, V>>)
    ensures Tells(Run(cfg, es), Given(es), Due(cfg, es))
  {
    if es != [] {
      var before, e := es[..|es| - 1], es[|es| - 1];
      var s, values, dues := Run(cfg, before), Given(before), Due(cfg, before);
      RunTells(cfg, before);
      RunIsOrderedByLastUse(cfg, before);
      hide Tells, Age, Put, LruSpec.Get, LruSpec.Delete, OrderedBy, DistinctKeys;
      match e.op
      case OpSet(k, v) =>
        var item := Item(k, v, Expiry(cfg, e.now));
        PutTells(cfg, s, item, values, dues);
        AgeTells(cfg, Put(cfg, s, item), e.later, values[k := v], dues[k := item.expires]);
      case OpSetWithExpire(k, v, x) =>
        PutTells(cfg, s, Item(k, v, x), values, dues);
        AgeTells(cfg, Put(cfg, s, Item(k, v, x)), e.later, values[k := v], dues[k := x]);
      case OpGet(k) => GetTells(cfg, s, k, e.now, e.later, values, dues);
      case OpDelete(k) => DeleteTells(s, k, values, dues);
    }
  }

  // A Get after any run gives the value its key was given last, or nothing; nothing, if the cache does
  // not hold the key or stale entries are not returned and its time is over.
  lemma GetGivesLast<K, V>(cfg: Config, es: seq<Event<K, V>>, k: K, now: int, later: int)
    ensures var found := Get(cfg, Run(cfg, es), k, now, later).1;
            && (found.Some? ==> k in Given(es) && found.value.key == k && found.value.value == Given(es)[k])
            && (Has(Run(cfg, es), k) ==> k in Due(cfg, es))
            && (found.Some? <==> Has(Run(cfg, es), k) && !(cfg.Expiring() && Due(cfg, es)[k] <= now))
  {
    RunTells(cfg, es);
    hide Given, Due, Run;
  }

  // ----- how long a key is kept -----

  function Keys<K, V>(s: seq<Item<K, V>>): set<K> {
    set i | 0 <= i < |s| :: s[i].key
  }

  // The entry of k stands at position i, and the keys behind it belong to `others`.
  ghost predicate Kept<K, V>(s: seq<Item<K, V>>, k: K, i: nat, others: set<K>) {
    i < |s| && s[i].key == k && k !in others && forall j :: i < j < |s| ==> s[j].key in others
  }

  lemma OneMoreKey<K, V>(s: seq<Item<K, V>>)
    requires DistinctKeys(s) && s != []
    ensures var n := |s| - 1; s[n].key !in Keys(s[..n]) && Keys(s) == Keys(s[..n]) + {s[n].key}
  {
    var n := |s| - 1;
    forall k | k in Keys(s)
      ensures k in Keys(s[..n]) + {s[n].key}
    {
      var i :| 0 <= i <= n && s[i].key == k;
      assert i < n ==> s[..n][i].key == k;
    }
    forall k | k in Keys(s[..n])
      ensures k in Keys(s) && k != s[n].key
    {
      var i :| 0 <= i < n && s[..n][i].key == k;
      assert s[i].key == k;
    }
  }

  lemma {:induction false} CountKeys<K, V>(s: seq<Item<K, V>>)
    requires DistinctKeys(s)
    ensures |Keys(s)| == |s|
  {
    if s != [] {
      hide Keys;
      CountKeys(s[..|s| - 1]);
      OneMoreKey(s);
    }
  }

  // The entries from a kept one on, and a newcomer, are no more than the other keys.
  lemma RoomBehind<K, V>(s: seq<Item<K, V>>, k: K, i: nat, others: set<K>, new': K)
    requires DistinctKeys(s) && Kept(s, k, i, others) && !Has(s, new')
    ensures |s| - i <= |others + {new'}|
  {
    var behind := s[i + 1..];
    assert forall j :: 0 <= j < |behind| ==> behind[j] == s[i + 1 + j];
    CountKeys(behind);
    assert new' !in Keys(behind);
    SubsetSize(Keys(behind) + {new'}, others + {new'});
  }

  // Ageing takes an entry only when its time is over.
  lemma AgeKeeps<K, V>(cfg: Config, s: seq<Item<K, V>>, now: int, k: K, i: nat, others: set<K>) returns (i': nat)
    requires Kept(s, k, i, others) && (cfg.Expiring() ==> now < s[i].expires)
    ensures Kept(Age(cfg, s, now), k, i', others)
  {
    i' := i;
    if cfg.Expiring() {
      var n := DropExpiredIsSuffix(s, now);
      i' := i - n;
    }
  }

  // Moving an entry to the end, or adding one, with k among those before or the one itself
  lemma MoveKeeps<K, V>(s: seq<Item<K, V>>, m: nat, item: Item<K, V>, k: K, i: nat, others: set<K>) returns (i': nat)
    requires DistinctKeys(s) && Kept(s, k, i, others) && m < |s| && item.key == s[m].key
    ensures var r := RemoveAt(s, m) + [item];
            Kept(r, k, i', others + ({item.key} - {k})) && r[i'] == if item.key == k then item else s[i]
  {
    i' := if m == i then |s| - 1 else if m < i then i - 1 else i;
    var r := RemoveAt(s, m) + [item];
    forall j | i' < j < |r|
      ensures r[j].key in others + ({item.key} - {k})
    {
      if j < |r| - 1 {
        assert r[j] == s[if j < m then j else j + 1];
      }
    }
  }

  lemma PutKeeps<K, V>(cfg: Config, s: seq<Item<K, V>>, item: Item<K, V>, k: K, i: nat, others: set<K>)
    returns (i': nat)
    requires DistinctKeys(s) && Kept(s, k, i, others)
    requires cfg.maxSize > 0 ==> |s| <= cfg.maxSize && |others + ({item.key} - {k})| < cfg.maxSize
    ensures var t := Put(cfg, s, item);
            Kept(t, k, i', others + ({item.key} - {k})) && t[i'] == if item.key == k then item else s[i]
  {
    if Has(s, item.key) {
      i' := MoveKeeps(s, IndexOf(s, item.key), item, k, i, others);
    } else {
      assert item.key != k by { assert s[i].key == k; }
      assert {item.key} - {k} == {item.key};
      RoomBehind(s, k, i, others, item.key);
      i' := if cfg.maxSize > 0 && |s| == cfg.maxSize then i - 1 else i;
    }
  }

  // The keys an event can bring to the back
  function Touches<K, V>(e: Event<K, V>): set<K> {
    if e.op.OpDelete? then {} else {e.op.key}
  }

  function TouchedBy<K, V>(es: seq<Event<K, V>>): set<K> {
    if es == [] then {} else TouchedBy(es[..|es| - 1]) + Touches(es[|es| - 1])
  }

  // An event leaves an entry its time: it comes before the entry is due, then and as it makes it.
  ghost predicate LeavesTime<K, V>(cfg: Config, es: seq<Event<K, V>>, n: nat, k: K)
    requires n < |es|
  {
    cfg.Expiring() ==>
      && k in Due(cfg, es[..n]) && es[n].now < Due(cfg, es[..n])[k]
      && k in Due(cfg, es[..n + 1]) && es[n].later < Due(cfg, es[..n + 1])[k]
  }

  lemma KeptTells<K, V>(cfg: Config, es: seq<Event<K, V>>, k: K, i: nat, others: set<K>)
    requires Kept(Run(cfg, es), k, i, others)
    ensures k in Due(cfg, es) && Run(cfg, es)[i].expires == Due(cfg, es)[k]
  {
    RunTells(cfg, es);
    hide Run, Due;
  }

  lemma RemoveKeeps<K, V>(s: seq<Item<K, V>>, m: nat, k: K, i: nat, others: set<K>) returns (i': nat)
    requires Kept(s, k, i, others) && m < |s| && m != i
    ensures Kept(RemoveAt(s, m), k, i', others) && RemoveAt(s, m)[i'] == s[i]
  {
    i' := if m < i then i - 1 else i;
    var r := RemoveAt(s, m);
    forall j | i' < j < |r|
      ensures r[j].key in others
    {
      assert r[j] == s[if j < m then j else j + 1];
    }
  }

  lemma GetKeeps<K, V>(cfg: Config, s: seq<Item<K, V>>, key: K, now: int, later: int, k: K, i: nat, others: set<K>)
    returns (i': nat)
    requires DistinctKeys(s) && Kept(s, k, i, others) && (cfg.Expiring() ==> now < s[i].expires)
    requires cfg.Expiring() && key != k ==> later < s[i].expires
    ensures Kept(Get(cfg, s, key, now, later).0, k, i', others + ({key} - {k}))
  {
    i' := i;
    if Has(s, key) {
      var m := IndexOf(s, key);
      if Hit(cfg, s, key, now) {
        i' := MoveKeeps(s, m, Refreshed(cfg, s[m], later), k, i, others);
      } else {
        i' := RemoveKeeps(s, m, k, i, others);
        i' := AgeKeeps(cfg, RemoveAt(s, m), later, k, i', others);
      }
    }
  }

  // One event, which leaves the entry its time
  lemma StepKeeps<K, V>(cfg: Config, s: seq<Item<K, V>>, e: Event<K, V>, k: K, i: nat, others: set<K>, dues: map<K,
                        int>)
    returns (i': nat)
    requires DistinctKeys(s) && Kept(s, k, i, others) && e.op != OpDelete(k)
    requires k in dues && dues[k] == s[i].expires && k in DueAfter(cfg, s, dues, e)
    requires cfg.Expiring() ==> e.now < dues[k] && e.later < DueAfter(cfg, s, dues, e)[k]
    requires cfg.maxSize > 0 ==> |s| <= cfg.maxSize && |others + (Touches(e) - {k})| < cfg.maxSize
    ensures Kept(Step(cfg, s, e), k, i', others + (Touches(e) - {k}))
  {
    hide Put, Age, LruSpec.Get, Kept, RemoveAt, DistinctKeys, Hit;
    match e.op
    case OpSet(key, v) =>
      var item := Item(key, v, Expiry(cfg, e.now));
      i' := PutKeeps(cfg, s, item, k, i, others);
      i' := AgeKeeps(cfg, Put(cfg, s, item), e.later, k, i', others + ({key} - {k}));
    case OpSetWithExpire(key, v, x) =>
      i' := PutKeeps(cfg, s, Item(key, v, x), k, i, others);
      i' := AgeKeeps(cfg, Put(cfg, s, Item(key, v, x)), e.later, k, i', others + ({key} - {k}));
    case OpGet(key) => i' := GetKeeps(cfg, s, key, e.now, e.later, k, i, others);
    case OpDelete(key) =>
      i' := i;
      assert others + ({} - {k}) == others;
      if Has(s, key) {
        KeptKey(s, k, i, others);
        i' := RemoveKeeps(s, IndexOf(s, key), k, i, others);
      }
  }

  lemma KeptKey<K, V>(s: seq<Item<K, V>>, k: K, i: nat, others: set<K>)
    requires Kept(s, k, i, others)
    ensures i < |s| && s[i].key == k
  {
  }

  lemma Snoc<K, V>(cfg: Config, es: seq<Event<K, V>>, e: Event<K, V>, k: K)
    ensures Run(cfg, es + [e]) == Step(cfg, Run(cfg, es), e)
    ensures Due(cfg, es + [e]) == DueAfter(cfg, Run(cfg, es), Due(cfg, es), e)
    ensures forall n :: 0 <= n < |es| ==> LeavesTime(cfg, es + [e], n, k) == LeavesTime(cfg, es, n, k)
    ensures LeavesTime(cfg, es + [e], |es|, k) ==>
            cfg.Expiring() ==>
            k in Due(cfg, es) && e.now < Due(cfg, es)[k] && k in Due(cfg, es + [e]) && e.later < Due(cfg, es + [e])[k]
  {
    var all := es + [e];
    RunSnoc(cfg, es, e);
    assert all[..|es|] == es && all[..|es| + 1] == all;
    forall n | 0 <= n < |es|
      ensures LeavesTime(cfg, all, n, k) == LeavesTime(cfg, es, n, k)
    {
      assert all[..n] == es[..n] && all[..n + 1] == es[..n + 1];
    }
  }

  lemma EventKeeps<K, V>(cfg: Config, es: seq<Event<K, V>>, e: Event<K, V>, k: K, i: nat, others: set<K>)
    returns (i': nat)
    requires Kept(Run(cfg, es), k, i, others) && e.op != OpDelete(k) && LeavesTime(cfg, es + [e], |es|, k)
    requires cfg.maxSize > 0 ==> |others + (Touches(e) - {k})| < cfg.maxSize
    ensures Kept(Run(cfg, es + [e]), k, i', others + (Touches(e) - {k}))
  {
    Snoc(cfg, es, e, k);
    RunIsOrderedByLastUse(cfg, es);
    KeptTells(cfg, es, k, i, others);
    KeptKey(Run(cfg, es), k, i, others);
    assert k in DueAfter(cfg, Run(cfg, es), Due(cfg, es), e);
    hide Run, Due, Step, DueAfter, Kept, DistinctKeys, OrderedBy, LastUse, LeavesTime, Touches;
    i' := StepKeeps(cfg, Run(cfg, es), e, k, i, others, Due(cfg, es));
  }

  // None of the events from a point on deletes the key, and all leave its entry time.
  ghost predicate Undisturbed<K, V>(cfg: Config, all: seq<Event<K, V>>, from: nat, k: K) {
    forall n :: from <= n < |all| ==> all[n].op != OpDelete(k) && LeavesTime(cfg, all, n, k)
  }

  lemma UndisturbedSoFar<K, V>(cfg: Config, es: seq<Event<K, V>>, e: Event<K, V>, from: nat, k: K)
    requires from <= |es| && Undisturbed(cfg, es + [e], from, k)
    ensures Undisturbed(cfg, es, from, k) && e.op != OpDelete(k) && LeavesTime(cfg, es + [e], |es|, k)
  {
    Snoc(cfg, es, e, k);
    hide LeavesTime;
    var all := es + [e];
    assert all[|es|] == e;
    assert forall n :: 0 <= n < |es| ==> all[n] == es[n];
  }

  // A key just used stays until it is deleted, its time is over, or maxSize other keys have come up.
  lemma {:induction false} KeyIsKept<K, V>(cfg: Config, es: seq<Event<K, V>>, k: K, more: seq<Event<K, V>>)
    returns (i: nat)
    requires k in LastUse(cfg, es) && Has(Run(cfg, es), k) && LastUse(cfg, es)[k] == |es| - 1
    requires Undisturbed(cfg, es + more, |es|, k) && (cfg.maxSize > 0 ==> |TouchedBy(more) - {k}| < cfg.maxSize)
    ensures Kept(Run(cfg, es + more), k, i, TouchedBy(more) - {k})
    decreases |more|
  {
    hide Run, Due, LastUse, Kept, LeavesTime, Undisturbed, Touches;
    if more == [] {
      assert es + more == es;
      i := LastUsedIsLast(cfg, es, k);
      assert {} - {k} == {};
    } else {
      var n := |more| - 1;
      var before, e := more[..n], more[n];
      assert es + more == (es + before) + [e];
      UndisturbedSoFar(cfg, es + before, e, |es|, k);
      SubsetSize(TouchedBy(before) - {k}, TouchedBy(more) - {k});
      i := KeyIsKept(cfg, es, k, before);
      assert (TouchedBy(before) - {k}) + (Touches(e) - {k}) == TouchedBy(more) - {k};
      i := EventKeeps(cfg, es + before, e, k, i, TouchedBy(before) - {k});
    }
  }

  lemma NewestIsLast<K, V>(s: seq<Item<K, V>>, stamp: map<K, nat>, i: nat, n: nat)
    requires OrderedBy(s, stamp) && i < |s| && stamp[s[i].key] == n && forall k :: k in stamp ==> stamp[k] <= n
    ensures i == |s| - 1
  {
    var j := if i < |s| - 1 then i + 1 else i;
    assert s[j].key in stamp;
  }

  lemma LastUsedIsLast<K, V>(cfg: Config, es: seq<Event<K, V>>, k: K) returns (i: nat)
    requires k in LastUse(cfg, es) && Has(Run(cfg, es), k) && LastUse(cfg, es)[k] == |es| - 1
    ensures Kept(Run(cfg, es), k, i, {})
  {
    RunIsOrderedByLastUse(cfg, es);
    i := IndexOf(Run(cfg, es), k);
    NewestIsLast(Run(cfg, es), LastUse(cfg, es), i, |es| - 1);
  }

  // So a Get gives the key's last value for as long.
  lemma GetFindsKept<K, V>(cfg: Config, es: seq<Event<K, V>>, k: K, more: seq<Event<K, V>>, now: int, later: int)
    requires k in LastUse(cfg, es) && Has(Run(cfg, es), k) && LastUse(cfg, es)[k] == |es| - 1
    requires Undisturbed(cfg, es + more, |es|, k) && (cfg.maxSize > 0 ==> |TouchedBy(more) - {k}| < cfg.maxSize)
    ensures var found, all := Get(cfg, Run(cfg, es + more), k, now, later).1, es + more;
            && k in Given(all) && k in Due(cfg, all)
            && (now < Due(cfg, all)[k] || !cfg.Expiring() ==> found.Some? && found.value.value == Given(all)[k])
  {
    var i := KeyIsKept(cfg, es, k, more);
    var all := es + more;
    RunTells(cfg, all);
    assert Run(cfg, all)[i].key == k;
    GetGivesLast(cfg, all, k, now, later);
  }
}
