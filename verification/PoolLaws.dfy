/**
 Which addresses a pool hands out: each new host the first free one from the last, going round; so the
 first hosts of a new pool get the first addresses in order.
 */
module PoolLaws {
  import opened Wrappers
  import opened Bytes
  import opened PoolSpec

  // The offset n places on, going round
  function On(p: Params, offset: nat, n: nat): nat {
    if offset + n < p.span then offset + n else offset + n - p.span
  }

  ghost predicate Taken(p: Params, st: State, o: int) {
    0 <= o < p.span && HasIP(st.pairs, p.At(o))
  }

  // A new host gets the first free address from the last one handed out, or takes the one behind that.
  lemma AllocateIsNext(p: Params, st: State) returns (n: nat)
    requires st.offset < p.span
    ensures n <= p.span && forall j :: 0 <= j < n ==> Taken(p, st, On(p, st.offset, j))
    ensures n < p.span ==> !Taken(p, st, On(p, st.offset, n)) && Allocate(p, st) == State(st.pairs, On(p, st.offset, n))
    ensures n == p.span ==> Allocate(p, st).offset == On(p, st.offset, 1)
  {
    n := Probe(p, st.pairs, st.offset, 0);
    ProbeRange(p, st.pairs, st.offset, 0);
    forall j | 0 <= j <= n && j < p.span
      ensures On(p, st.offset, j) == Slot(p.span, st.offset, j) < p.span
      ensures j < n ==> Taken(p, st, On(p, st.offset, j))
    {
      assert j < n ==> HasIP(st.pairs, p.At(Slot(p.span, st.offset, j)));
    }
  }

  function Lookups(hosts: seq<string>): seq<Op> {
    seq(|hosts|, i requires 0 <= i < |hosts| => OpLookup(hosts[i]))
  }

  // The i-th host with the i-th address
  function Assigned(p: Params, hosts: seq<string>): seq<Pair>
    requires |hosts| <= p.span
  {
    seq(|hosts|, i requires 0 <= i < |hosts| => Pair(p.lower(hosts[i]), p.At(i)))
  }

  ghost predicate Different(p: Params, hosts: seq<string>) {
    forall i, j :: 0 <= i < j < |hosts| ==> p.lower(hosts[i]) != p.lower(hosts[j])
  }

  lemma {:induction false} RunSnoc(p: Params, st: State, ops: seq<Op>, op: Op)
    requires st.offset < p.span
    ensures Run(p, st, ops + [op]) == Step(p, Run(p, st, ops), op)
    decreases |ops|
  {
    if ops == [] {
      assert [] + [op] == [op];
      assert Run(p, Step(p, st, op), []) == Step(p, st, op);
    } else {
      assert (ops + [op])[1..] == ops[1..] + [op];
      RunSnoc(p, Step(p, st, ops[0]), ops[1..], op);
    }
  }

  lemma {:induction false} FreshAddresses(p: Params, hosts: seq<string>)
    requires 0 < p.span && |hosts| <= p.span && (p.size > 0 ==> |hosts| <= p.size) && Different(p, hosts)
    ensures Run(p, State([], 0), Lookups(hosts)) == State(Assigned(p, hosts), if hosts == [] then 0 else |hosts| - 1)
  {
    if hosts == [] {
      assert Lookups(hosts) == [] && Assigned(p, hosts) == [];
    } else {
      var n := |hosts| - 1;
      var before := hosts[..n];
      assert Lookups(hosts) == Lookups(before) + [OpLookup(hosts[n])];
      RunSnoc(p, State([], 0), Lookups(before), OpLookup(hosts[n]));
      FreshAddresses(p, before);
      OneMoreHost(p, before, hosts[n]);
      assert before + [hosts[n]] == hosts;
    }
  }

  lemma OneMoreHost(p: Params, hosts: seq<string>, host: string)
    requires 0 < p.span && |hosts| < p.span && (p.size > 0 ==> |hosts| < p.size) && Different(p, hosts + [host])
    ensures var st := State(Assigned(p, hosts), if hosts == [] then 0 else |hosts| - 1);
            Lookup(p, st, host) == State(Assigned(p, hosts + [host]), |hosts|)
  {
    var st := State(Assigned(p, hosts), if hosts == [] then 0 else |hosts| - 1);
    var all, n := hosts + [host], |hosts|;
    forall i | 0 <= i < n
      ensures st.pairs[i].host != p.lower(host)
    {
      assert p.lower(all[i]) != p.lower(all[n]);
    }
    forall o: nat | o < p.span
      ensures HasIP(st.pairs, p.At(o)) <==> o < n
    {
      if o < n {
        assert st.pairs[o].ip == p.At(o);
      }
      if HasIP(st.pairs, p.At(o)) {
        var i :| 0 <= i < n && st.pairs[i].ip == p.At(o);
        assert p.OffsetOf(p.At(i)) == i && p.OffsetOf(p.At(o)) == o;
      }
    }
    assert st.offset < p.span;
    ProbeNext(p, st.pairs, st.offset, 0);
    if n > 0 {
      ProbeNext(p, st.pairs, st.offset, 1);
    }
    assert Assigned(p, all) == Assigned(p, hosts) + [Pair(p.lower(host), p.At(n))];
  }
}
