/**
 The fake-ip pool as its callers see it: an LRU of (host, address) pairs and a probing offset.
 Everything here is about this abstract state; FakeIPPool shows that the real pool, whose one LRU
 holds the two directions of each pair as separate entries, behaves exactly like it.
 */
module PoolSpec {
  import opened Wrappers
  import opened Bytes

  datatype Pair = Pair(host: string, ip: nat)

  // The pool hands out span addresses from min on; they are 32-bit numbers, and wrap around.
  datatype Params = Params(min: uint32, span: uint32, size: int, lower: string -> string)
  {
    // The address at an offset, and back
    function At(o: nat): (ip: uint32)
      requires o < span
      ensures OffsetOf(ip) == o
    {
      if min + o < 0x1_0000_0000 then min + o else min + o - 0x1_0000_0000
    }

    function OffsetOf(ip: uint32): (o: nat)
      ensures o < span ==> (if min + o < 0x1_0000_0000 then min + o else min + o - 0x1_0000_0000) == ip
    {
      if ip >= min then ip - min else ip - min + 0x1_0000_0000
    }

    predicate InRange(ip: nat) {
      ip < 0x1_0000_0000 && OffsetOf(ip) < span
    }
  }

  datatype State = State(pairs: seq<Pair>, offset: nat)

  ghost predicate HasHost(pairs: seq<Pair>, h: string) {
    exists i :: 0 <= i < |pairs| && pairs[i].host == h
  }

  ghost predicate HasIP(pairs: seq<Pair>, ip: nat) {
    exists i :: 0 <= i < |pairs| && pairs[i].ip == ip
  }

  ghost function HostIndex(pairs: seq<Pair>, h: string): (i: nat)
    requires HasHost(pairs, h)
    ensures i < |pairs| && pairs[i].host == h
  {
    var i :| 0 <= i < |pairs| && pairs[i].host == h; i
  }

  ghost function IPIndex(pairs: seq<Pair>, ip: nat): (i: nat)
    requires HasIP(pairs, ip)
    ensures i < |pairs| && pairs[i].ip == ip
  {
    var i :| 0 <= i < |pairs| && pairs[i].ip == ip; i
  }

  ghost predicate Bijective(pairs: seq<Pair>) {
    && (forall i, j :: 0 <= i < j < |pairs| ==> pairs[i].host != pairs[j].host)
    && (forall i, j :: 0 <= i < j < |pairs| ==> pairs[i].ip != pairs[j].ip)
  }

  ghost function Drop(pairs: seq<Pair>, ip: nat): seq<Pair> {
    if HasIP(pairs, ip) then RemoveAt(pairs, IPIndex(pairs, ip)) else pairs
  }

  function Touch(pairs: seq<Pair>, i: nat): seq<Pair>
    requires i < |pairs|
  {
    RemoveAt(pairs, i) + [pairs[i]]
  }

  function Insert(pairs: seq<Pair>, pair: Pair, size: int): seq<Pair> {
    if size > 0 && |pairs| >= size then pairs[1..] + [pair] else pairs + [pair]
  }

  // The offset k places after `off`, going round.
  function Slot(span: nat, off: nat, k: nat): nat
    requires off < span && k <= span
  {
    if off + k < span then off + k else off + k - span
  }

  // How many places after `off` the first free address stands; `span` when there is none.
  ghost function Probe(p: Params, pairs: seq<Pair>, off: nat, k: nat): nat
    requires off < p.span && k <= p.span
    decreases p.span - k
  {
    if k == p.span || !HasIP(pairs, p.At(Slot(p.span, off, k))) then k else Probe(p, pairs, off, k + 1)
  }

  ghost predicate Exhausted(p: Params, st: State)
    requires st.offset < p.span
  {
    Probe(p, st.pairs, st.offset, 0) == p.span
  }

  // The state after an address has been chosen: its offset, and the pairs less the one robbed of it.
  ghost function Allocate(p: Params, st: State): (r: State)
    requires st.offset < p.span
    ensures r.offset < p.span
  {
    var n := Probe(p, st.pairs, st.offset, 0);
    ProbeRange(p, st.pairs, st.offset, 0);
    if n < p.span then State(st.pairs, Slot(p.span, st.offset, n))
    else
      var off := Slot(p.span, st.offset, 1);
      State(Drop(st.pairs, p.At(off)), off)
  }

  datatype Op = OpLookup(host: string) | OpLookBack(ip: nat) | OpExist(ip: nat)

  // A new host takes the address allocated for it.
  ghost function Admit(p: Params, st: State, h: string): State
    requires st.offset < p.span
  {
    var a := Allocate(p, st);
    a.(pairs := Insert(a.pairs, Pair(h, p.At(a.offset)), p.size))
  }

  ghost function Lookup(p: Params, st: State, host: string): State
    requires st.offset < p.span
  {
    var h := p.lower(host);
    if HasHost(st.pairs, h) then st.(pairs := Touch(st.pairs, HostIndex(st.pairs, h))) else Admit(p, st, h)
  }

  ghost function LookBack(st: State, ip: nat): State {
    if HasIP(st.pairs, ip) then st.(pairs := Touch(st.pairs, IPIndex(st.pairs, ip))) else st
  }

  ghost function Step(p: Params, st: State, op: Op): (r: State)
    requires st.offset < p.span
    ensures r.offset < p.span
  {
    match op
    case OpLookup(host) => Lookup(p, st, host)
    case OpLookBack(ip) => LookBack(st, ip)
    case OpExist(_) => st
  }

  ghost function Run(p: Params, st: State, ops: seq<Op>): (r: State)
    requires st.offset < p.span
    ensures r.offset < p.span
    decreases |ops|
  {
    if ops == [] then st else Run(p, Step(p, st, ops[0]), ops[1..])
  }

  // ----- invariant -----

  ghost predicate Good(p: Params, st: State) {
    && Bijective(st.pairs)
    && st.offset < p.span
    && (forall i :: 0 <= i < |st.pairs| ==> p.InRange(st.pairs[i].ip))
    && (p.size > 0 ==> |st.pairs| <= p.size)
  }

  lemma {:induction false} ProbeRange(p: Params, pairs: seq<Pair>, off: nat, k: nat)
    requires off < p.span && k <= p.span
    ensures var n := Probe(p, pairs, off, k);
            k <= n <= p.span
            && (n < p.span ==> !HasIP(pairs, p.At(Slot(p.span, off, n))))
            && (forall j :: k <= j < n ==> HasIP(pairs, p.At(Slot(p.span, off, j))))
    decreases p.span - k
  {
    hide HasIP;
    if k < p.span && HasIP(pairs, p.At(Slot(p.span, off, k))) {
      ProbeRange(p, pairs, off, k + 1);
    }
  }

  // One turn of the search for a free address
  lemma ProbeNext(p: Params, pairs: seq<Pair>, off: nat, k: nat)
    requires off < p.span && k <= p.span
    ensures k == p.span ==> Probe(p, pairs, off, k) == k
    ensures k < p.span ==>
            Probe(p, pairs, off, k) == if HasIP(pairs, p.At(Slot(p.span, off, k))) then Probe(p, pairs, off, k + 1)
            else k
  {
  }

  // Without a free address, every address of the range is held.
  lemma ExhaustedMeansAllTaken(p: Params, st: State, ip: nat)
    requires st.offset < p.span && Exhausted(p, st) && p.InRange(ip)
    ensures HasIP(st.pairs, ip)
  {
    ProbeRange(p, st.pairs, st.offset, 0);
    var o := p.OffsetOf(ip);
    var k := if o >= st.offset then o - st.offset else o - st.offset + p.span;
    assert Slot(p.span, st.offset, k) == o;
  }

  lemma WithoutForgets(pairs: seq<Pair>, i: nat)
    requires Bijective(pairs) && i < |pairs|
    ensures Bijective(RemoveAt(pairs, i)) && !HasIP(RemoveAt(pairs, i), pairs[i].ip)
    ensures forall h :: HasHost(RemoveAt(pairs, i), h) <==> HasHost(pairs, h) && h != pairs[i].host
  {
    var r := RemoveAt(pairs, i);
    forall h
      ensures HasHost(r, h) <==> HasHost(pairs, h) && h != pairs[i].host
    {
      if HasHost(r, h) {
        var j := HostIndex(r, h);
        assert pairs[if j < i then j else j + 1].host == h;
      }
      if HasHost(pairs, h) && h != pairs[i].host {
        var j := HostIndex(pairs, h);
        assert r[if j < i then j else j - 1].host == h;
      }
    }
  }

  lemma WithoutKeepsGood(p: Params, st: State, i: nat, off: nat)
    requires Good(p, st) && i < |st.pairs| && off < p.span
    ensures Good(p, State(RemoveAt(st.pairs, i), off))
  {
    WithoutForgets(st.pairs, i);
  }

  // With a free address left, one is chosen and nobody loses theirs.
  lemma AllocateFree(p: Params, st: State)
    requires Good(p, st) && !Exhausted(p, st)
    ensures var a := Allocate(p, st); a.pairs == st.pairs && Good(p, a) && !HasIP(st.pairs, p.At(a.offset))
  {
    ProbeRange(p, st.pairs, st.offset, 0);
  }

  // With all addresses held, exactly the pair holding the chosen one goes, in both directions.
  lemma AllocateRobs(p: Params, st: State)
    requires Good(p, st) && Exhausted(p, st)
    ensures var a := Allocate(p, st); var ip := p.At(a.offset);
            HasIP(st.pairs, ip) && a.pairs == RemoveAt(st.pairs, IPIndex(st.pairs, ip)) && Good(p, a)
            && !HasIP(a.pairs, ip)
            && forall h :: HasHost(a.pairs, h) <==> HasHost(st.pairs, h) && h != st.pairs[IPIndex(st.pairs, ip)].host
  {
    var a := Allocate(p, st);
    var ip := p.At(a.offset);
    ExhaustedMeansAllTaken(p, st, ip);
    var i := IPIndex(st.pairs, ip);
    WithoutForgets(st.pairs, i);
    WithoutKeepsGood(p, st, i, a.offset);
  }

  // What the allocator needs to know, in one place.
  lemma AllocateFacts(p: Params, st: State, h: string)
    requires Good(p, st) && !HasHost(st.pairs, h)
    ensures var a := Allocate(p, st); var n := Probe(p, st.pairs, st.offset, 0);
            Good(p, a) && !HasHost(a.pairs, h) && !HasIP(a.pairs, p.At(a.offset)) && n <= p.span
            && a == if Exhausted(p, st)
                    then State(Drop(st.pairs, p.At(Slot(p.span, st.offset, 1))), Slot(p.span, st.offset, 1))
                    else State(st.pairs, Slot(p.span, st.offset, n))
  {
    ProbeRange(p, st.pairs, st.offset, 0);
    if Exhausted(p, st) {
      AllocateRobs(p, st);
    } else {
      AllocateFree(p, st);
    }
  }

  lemma InsertKeepsGood(p: Params, st: State, pair: Pair)
    requires Good(p, st) && !HasHost(st.pairs, pair.host) && !HasIP(st.pairs, pair.ip)
    requires p.InRange(pair.ip)
    ensures Good(p, st.(pairs := Insert(st.pairs, pair, p.size)))
    ensures pair in Insert(st.pairs, pair, p.size)
  {
    var r := Insert(st.pairs, pair, p.size);
    assert r[|r| - 1] == pair;
  }

  lemma TouchKeepsGood(p: Params, st: State, i: nat)
    requires Good(p, st) && i < |st.pairs|
    ensures Good(p, st.(pairs := Touch(st.pairs, i)))
  {
  }

  lemma AdmitKeepsGood(p: Params, st: State, h: string)
    requires Good(p, st) && !HasHost(st.pairs, h)
    ensures Good(p, Admit(p, st, h))
    ensures Pair(h, p.At(Admit(p, st, h).offset)) in Admit(p, st, h).pairs
  {
    hide HasHost, HasIP, Allocate, Bijective;
    AllocateFacts(p, st, h);
    var a := Allocate(p, st);
    InsertKeepsGood(p, a, Pair(h, p.At(a.offset)));
  }

  lemma StepKeepsGood(p: Params, st: State, op: Op)
    requires Good(p, st)
    ensures Good(p, Step(p, st, op))
  {
    match op
    case OpLookup(host) =>
      var h := p.lower(host);
      if HasHost(st.pairs, h) {
        TouchKeepsGood(p, st, HostIndex(st.pairs, h));
      } else {
        AdmitKeepsGood(p, st, h);
      }
    case OpLookBack(ip) =>
      if HasIP(st.pairs, ip) {
        TouchKeepsGood(p, st, IPIndex(st.pairs, ip));
      }
    case OpExist(_) =>
  }

  // Over every run: live hosts and live addresses stay in bijection, in range, within the size bound.
  lemma {:induction false} RunKeepsGood(p: Params, st: State, ops: seq<Op>)
    requires Good(p, st)
    ensures Good(p, Run(p, st, ops))
    decreases |ops|
  {
    if ops != [] {
      StepKeepsGood(p, st, ops[0]);
      RunKeepsGood(p, Step(p, st, ops[0]), ops[1..]);
    }
  }

  // ----- the pool is never exhausted while it may hold fewer pairs than addresses -----

  ghost function IPs(pairs: seq<Pair>): set<nat> {
    set i | 0 <= i < |pairs| :: pairs[i].ip
  }

  lemma {:induction false} CountIPs(pairs: seq<Pair>)
    ensures |IPs(pairs)| <= |pairs|
  {
    if pairs != [] {
      var n := |pairs| - 1;
      CountIPs(pairs[..n]);
      assert IPs(pairs) == IPs(pairs[..n]) + {pairs[n].ip};
    }
  }

  lemma {:induction false} RangeSize(p: Params, n: nat, s: set<nat>)
    requires n <= p.span && forall o: nat :: o < n ==> p.At(o) in s
    ensures n <= |s|
  {
    if n > 0 {
      forall o: nat | o < n - 1
        ensures p.At(o) in s - {p.At(n - 1)}
      {
        assert p.OffsetOf(p.At(o)) != p.OffsetOf(p.At(n - 1));
      }
      RangeSize(p, n - 1, s - {p.At(n - 1)});
    }
  }

  // The forced-reuse branch needs every address to be held, so there are at least span pairs.
  lemma ExhaustedMeansFull(p: Params, st: State)
    requires st.offset < p.span && Exhausted(p, st)
    ensures |st.pairs| >= p.span
  {
    forall o: nat | o < p.span
      ensures p.At(o) in IPs(st.pairs)
    {
      var ip := p.At(o);
      ExhaustedMeansAllTaken(p, st, ip);
      assert st.pairs[IPIndex(st.pairs, ip)].ip == ip;
    }
    RangeSize(p, p.span, IPs(st.pairs));
    CountIPs(st.pairs);
  }

  // ----- retention -----

  // The hosts an operation looks up or finds.
  ghost function Touches(p: Params, st: State, op: Op): set<string> {
    match op
    case OpLookup(host) => {p.lower(host)}
    case OpLookBack(ip) => if HasIP(st.pairs, ip) then {st.pairs[IPIndex(st.pairs, ip)].host} else {}
    case OpExist(_) => {}
  }

  ghost function TouchedBy(p: Params, st: State, ops: seq<Op>): set<string>
    requires st.offset < p.span
    decreases |ops|
  {
    if ops == [] then {} else Touches(p, st, ops[0]) + TouchedBy(p, Step(p, st, ops[0]), ops[1..])
  }

  ghost function Hosts(pairs: seq<Pair>): set<string> {
    set i | 0 <= i < |pairs| :: pairs[i].host
  }

  lemma OneMoreHost(pairs: seq<Pair>)
    requires Bijective(pairs) && pairs != []
    ensures var n := |pairs| - 1;
            pairs[n].host !in Hosts(pairs[..n]) && Hosts(pairs) == Hosts(pairs[..n]) + {pairs[n].host}
  {
    var n := |pairs| - 1;
    forall h | h in Hosts(pairs)
      ensures h in Hosts(pairs[..n]) + {pairs[n].host}
    {
      var i :| 0 <= i <= n && pairs[i].host == h;
      assert i < n ==> pairs[..n][i].host == h;
    }
    forall h | h in Hosts(pairs[..n])
      ensures h in Hosts(pairs) && h != pairs[n].host
    {
      var i :| 0 <= i < n && pairs[..n][i].host == h;
      assert pairs[i].host == h;
    }
  }

  lemma {:induction false} CountHosts(pairs: seq<Pair>)
    requires Bijective(pairs)
    ensures |Hosts(pairs)| == |pairs|
  {
    if pairs != [] {
      hide Hosts;
      var n := |pairs| - 1;
      CountHosts(pairs[..n]);
      OneMoreHost(pairs);
    }
  }

  // `pair` stands at position i, and all pairs behind it belong to `others`.
  ghost predicate Guarded(st: State, pair: Pair, i: nat, others: set<string>) {
    i < |st.pairs| && st.pairs[i] == pair && pair.host !in others && Hosts(st.pairs[i + 1..]) <= others
  }

  lemma TouchKeepsGuarded(st: State, pair: Pair, i: nat, others: set<string>, k: nat) returns (i': nat)
    requires Bijective(st.pairs) && Guarded(st, pair, i, others) && k < |st.pairs|
    ensures Guarded(st.(pairs := Touch(st.pairs, k)), pair, i', others + ({st.pairs[k].host} - {pair.host}))
  {
    i' := if k == i then |st.pairs| - 1 else if k < i then i - 1 else i;
    TouchedBehind(st.pairs, i, others, k, i');
  }

  lemma TouchedBehind(pairs: seq<Pair>, i: nat, others: set<string>, k: nat, i': nat)
    requires i < |pairs| && k < |pairs| && Bijective(pairs) && Hosts(pairs[i + 1..]) <= others
    requires i' == if k == i then |pairs| - 1 else if k < i then i - 1 else i
    ensures |Touch(pairs, k)| == |pairs| && Touch(pairs, k)[i'] == pairs[i]
    ensures Hosts(Touch(pairs, k)[i' + 1..]) <= others + ({pairs[k].host} - {pairs[i].host})
  {
    hide Hosts;
    var r := Touch(pairs, k);
    forall h | h in Hosts(r[i' + 1..])
      ensures h in others + ({pairs[k].host} - {pairs[i].host})
    {
      var j := HostAt(r[i' + 1..], h);
      assert r[i' + 1..][j] == r[i' + 1 + j];
      if i' + 1 + j < |r| - 1 {
        var m := if i' + 1 + j < k then i' + 1 + j else i' + 2 + j;
        assert r[i' + 1 + j] == pairs[m] && pairs[i + 1..][m - i - 1] == pairs[m];
        HostIn(pairs[i + 1..], m - i - 1);
      }
    }
  }

  lemma HostAt(pairs: seq<Pair>, h: string) returns (i: nat)
    requires h in Hosts(pairs)
    ensures i < |pairs| && pairs[i].host == h
  {
    i :| 0 <= i < |pairs| && pairs[i].host == h;
  }

  lemma HostIn(pairs: seq<Pair>, i: nat)
    requires i < |pairs|
    ensures pairs[i].host in Hosts(pairs)
  {
  }

  // The pairs behind a guarded one, and a newcomer, are fewer than `size`.
  lemma RoomBehind(pairs: seq<Pair>, i: nat, others: set<string>, h: string)
    requires Bijective(pairs) && i < |pairs| && Hosts(pairs[i + 1..]) <= others && !HasHost(pairs, h)
    ensures |pairs| - i <= |others + {h}|
  {
    var behind := pairs[i + 1..];
    assert forall j :: 0 <= j < |behind| ==> behind[j] == pairs[i + 1 + j];
    assert h !in Hosts(behind);
    CountHosts(behind);
    SubsetSize(Hosts(behind) + {h}, others + {h});
  }

  lemma InsertKeepsGuarded(st: State, pair: Pair, i: nat, others: set<string>, x: Pair, size: nat) returns (i': nat)
    requires Bijective(st.pairs) && Guarded(st, pair, i, others) && |st.pairs| <= size
    requires !HasHost(st.pairs, x.host) && |others + {x.host}| < size
    ensures Guarded(st.(pairs := Insert(st.pairs, x, size)), pair, i', others + ({x.host} - {pair.host}))
  {
    assert pair.host != x.host by { assert st.pairs[i].host == pair.host; }
    RoomBehind(st.pairs, i, others, x.host);
    var behind := st.pairs[i + 1..];
    var r := Insert(st.pairs, x, size);
    i' := if |st.pairs| >= size then i - 1 else i;
    assert r[i' + 1..] == behind + [x];
    assert Hosts(behind + [x]) <= others + {x.host} by {
      assert forall j :: 0 <= j < |behind| ==> behind[j].host in Hosts(behind);
    }
  }

  lemma AdmitKeepsGuarded(p: Params, st: State, h: string, pair: Pair, i: nat, others: set<string>) returns (i': nat)
    requires Good(p, st) && Guarded(st, pair, i, others) && p.span > p.size >= 1
    requires !HasHost(st.pairs, h) && |others + {h}| < p.size
    ensures Guarded(Admit(p, st, h), pair, i', others + ({h} - {pair.host}))
  {
    if Exhausted(p, st) {
      ExhaustedMeansFull(p, st);
    }
    AllocateFree(p, st);
    var a := Allocate(p, st);
    i' := InsertKeepsGuarded(a, pair, i, others, Pair(h, p.At(a.offset)), p.size);
  }

  lemma StepKeepsGuarded(p: Params, st: State, op: Op, pair: Pair, i: nat, others: set<string>) returns (i': nat)
    requires Good(p, st) && Guarded(st, pair, i, others) && p.span > p.size >= 1
    requires |others + (Touches(p, st, op) - {pair.host})| < p.size
    ensures Guarded(Step(p, st, op), pair, i', others + (Touches(p, st, op) - {pair.host}))
  {
    i' := i;
    match op
    case OpLookup(host) =>
      var h := p.lower(host);
      if HasHost(st.pairs, h) {
        i' := TouchKeepsGuarded(st, pair, i, others, HostIndex(st.pairs, h));
      } else {
        assert h != pair.host by { assert st.pairs[i].host == pair.host; }
        assert {h} - {pair.host} == {h};
        i' := AdmitKeepsGuarded(p, st, h, pair, i, others);
      }
    case OpLookBack(ip) =>
      if HasIP(st.pairs, ip) {
        i' := TouchKeepsGuarded(st, pair, i, others, IPIndex(st.pairs, ip));
      } else {
        assert others + ({} - {pair.host}) == others;
      }
    case OpExist(_) =>
      assert others + ({} - {pair.host}) == others;
  }

  lemma {:induction false} RunKeepsGuarded(p: Params, st: State, ops: seq<Op>, pair: Pair, i: nat, others: set<string>)
    requires Good(p, st) && Guarded(st, pair, i, others) && p.span > p.size >= 1
    requires |others + (TouchedBy(p, st, ops) - {pair.host})| < p.size
    ensures pair in Run(p, st, ops).pairs
    decreases |ops|
  {
    if ops == [] {
      assert st.pairs[i] == pair;
    } else {
      var st', rest := Step(p, st, ops[0]), ops[1..];
      var now := others + (Touches(p, st, ops[0]) - {pair.host});
      assert now + (TouchedBy(p, st', rest) - {pair.host}) == others + (TouchedBy(p, st, ops) - {pair.host});
      SubsetSize(now, others + (TouchedBy(p, st, ops) - {pair.host}));
      var i' := StepKeepsGuarded(p, st, ops[0], pair, i, others);
      StepKeepsGood(p, st, ops[0]);
      RunKeepsGuarded(p, st', rest, pair, i', now);
    }
  }

  // A live pair answers both ways.
  lemma LivePairAnswers(p: Params, st: State, pair: Pair)
    requires Good(p, st) && pair in st.pairs
    ensures HasHost(st.pairs, pair.host) && st.pairs[HostIndex(st.pairs, pair.host)].ip == pair.ip
    ensures HasIP(st.pairs, pair.ip) && st.pairs[IPIndex(st.pairs, pair.ip)].host == pair.host
  {
    var i :| 0 <= i < |st.pairs| && st.pairs[i] == pair;
    assert HasHost(st.pairs, pair.host) && HasIP(st.pairs, pair.ip);
  }

  // A host just looked up holds the last pair of the list.
  lemma LookupPutsLast(p: Params, st: State, host: string)
    requires Good(p, st)
    ensures var r := Lookup(p, st, host);
            r.pairs != [] && r.pairs[|r.pairs| - 1].host == p.lower(host)
            && Guarded(r, r.pairs[|r.pairs| - 1], |r.pairs| - 1, {})
  {
    var r := Lookup(p, st, host);
    assert r.pairs[|r.pairs| - 1..][1..] == [];
  }

  // Retention: the address a lookup hands out stays with its host, in both directions and over every
  // later run, as long as fewer than `size` other hosts are looked up or found by address meanwhile.
  lemma {:induction false} Retention(p: Params, st: State, host: string, ops: seq<Op>)
    requires Good(p, st) && p.span > p.size >= 1
    requires |TouchedBy(p, Lookup(p, st, host), ops) - {p.lower(host)}| < p.size
    ensures var first := Lookup(p, st, host);
            var h, ip := p.lower(host), first.pairs[|first.pairs| - 1].ip;
            var last := Run(p, first, ops);
            HasHost(last.pairs, h) && last.pairs[HostIndex(last.pairs, h)].ip == ip
            && HasIP(last.pairs, ip) && last.pairs[IPIndex(last.pairs, ip)].host == h
            && !Exhausted(p, last)
  {
    hide Bijective, Lookup, Run, TouchedBy, Guarded, Exhausted, HasHost, HasIP, HostIndex, IPIndex, Touch, Admit, Hosts;
    var first := Step(p, st, OpLookup(host));
    StepKeepsGood(p, st, OpLookup(host));
    LookupPutsLast(p, st, host);
    var pair := first.pairs[|first.pairs| - 1];
    assert {} + (TouchedBy(p, first, ops) - {pair.host}) == TouchedBy(p, first, ops) - {pair.host};
    GuardedAnswers(p, first, ops, pair, |first.pairs| - 1);
  }

  lemma GuardedAnswers(p: Params, st: State, ops: seq<Op>, pair: Pair, i: nat)
    requires Good(p, st) && Guarded(st, pair, i, {}) && p.span > p.size >= 1
    requires |{} + (TouchedBy(p, st, ops) - {pair.host})| < p.size
    ensures var last := Run(p, st, ops);
            HasHost(last.pairs, pair.host) && last.pairs[HostIndex(last.pairs, pair.host)].ip == pair.ip
            && HasIP(last.pairs, pair.ip) && last.pairs[IPIndex(last.pairs, pair.ip)].host == pair.host
            && !Exhausted(p, last)
  {
    hide Bijective, Run, TouchedBy, Guarded, Exhausted, HasHost, HasIP, HostIndex, IPIndex;
    RunKeepsGuarded(p, st, ops, pair, i, {});
    RunKeepsGood(p, st, ops);
    LivePairAnswers(p, Run(p, st, ops), pair);
    if Exhausted(p, Run(p, st, ops)) {
      ExhaustedMeansFull(p, Run(p, st, ops));
    }
  }
}
