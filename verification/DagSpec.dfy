/**
 Dependencies between proxy groups: edges, cycles, and the degree counts the sort maintains.
 */
module DagSpec {
  // What a group's configuration decodes to, as far as the sort looks at it.
  datatype Group = Group(name: string, proxies: seq<string>)

  ghost predicate DistinctNames(gs: seq<Group>) {
    forall i, j :: 0 <= i < j < |gs| ==> gs[i].name != gs[j].name
  }

  ghost predicate IsGroup(gs: seq<Group>, x: string) {
    exists i :: 0 <= i < |gs| && gs[i].name == x
  }

  // Group x lists y.
  ghost predicate Edge(gs: seq<Group>, x: string, y: string) {
    exists i :: 0 <= i < |gs| && gs[i].name == x && y in gs[i].proxies
  }

  ghost predicate Step(gs: seq<Group>, c: seq<string>, i: nat) {
    i + 1 < |c| && Edge(gs, c[i], c[i + 1])
  }

  ghost predicate IsPath(gs: seq<Group>, c: seq<string>) {
    forall i :: 0 <= i < |c| - 1 ==> Step(gs, c, i)
  }

  ghost predicate IsCycle(gs: seq<Group>, c: seq<string>) {
    |c| >= 2 && c[0] == c[|c| - 1] && IsPath(gs, c)
  }

  ghost predicate Acyclic(gs: seq<Group>) {
    forall c :: !IsCycle(gs, c)
  }

  ghost predicate HasPred(gs: seq<Group>, s: set<string>, y: string) {
    exists x :: x in s && Edge(gs, x, y)
  }

  ghost predicate HasSucc(gs: seq<Group>, s: set<string>, x: string) {
    exists y :: y in s && Edge(gs, x, y)
  }

  // Every member of s is listed by a member of s; every member of s lists a member of s.
  ghost predicate HasPreds(gs: seq<Group>, s: set<string>) {
    forall y {:trigger HasPred(gs, s, y)} :: y in s ==> HasPred(gs, s, y)
  }

  ghost predicate HasSuccs(gs: seq<Group>, s: set<string>) {
    forall x {:trigger HasSucc(gs, s, x)} :: x in s ==> HasSucc(gs, s, x)
  }

  // ----- cycles and such sets -----

  ghost function Members(c: seq<string>): set<string> {
    set i | 0 <= i < |c| :: c[i]
  }

  lemma CycleIsClosed(gs: seq<Group>, c: seq<string>)
    requires IsCycle(gs, c)
    ensures HasPreds(gs, Members(c)) && HasSuccs(gs, Members(c))
  {
    var n := |c| - 1;
    forall y | y in Members(c)
      ensures HasPred(gs, Members(c), y)
    {
      var i :| 0 <= i < |c| && c[i] == y;
      var j := if i == 0 then n - 1 else i - 1;
      assert Step(gs, c, j) && c[j] in Members(c);
    }
    forall x | x in Members(c)
      ensures HasSucc(gs, Members(c), x)
    {
      var i :| 0 <= i < |c| && c[i] == x;
      var j := if i == n then 0 else i;
      assert Step(gs, c, j) && c[j + 1] in Members(c);
    }
  }

  lemma {:induction false} Pigeonhole(c: seq<string>, s: set<string>) returns (i: nat, j: nat)
    requires |c| > |s| && forall k :: 0 <= k < |c| ==> c[k] in s
    ensures i < j < |c| && c[i] == c[j]
  {
    var n := |c| - 1;
    if k :| 0 <= k < n && c[k] == c[n] {
      i, j := k, n;
    } else {
      i, j := Pigeonhole(c[..n], s - {c[n]});
    }
  }

  // Back from x as far as one likes, within a set in which everybody is listed by somebody
  lemma {:induction false} WalkBack(gs: seq<Group>, s: set<string>, x: string, n: nat) returns (c: seq<string>)
    requires x in s && HasPreds(gs, s)
    ensures |c| == n + 1 && IsPath(gs, c) && c[n] == x && forall k :: 0 <= k < |c| ==> c[k] in s
  {
    hide Edge;
    if n == 0 {
      c := [x];
    } else {
      var d := WalkBack(gs, s, x, n - 1);
      assert HasPred(gs, s, d[0]);
      var y :| y in s && Edge(gs, y, d[0]);
      c := [y] + d;
      forall i | 0 <= i < |c| - 1
        ensures Step(gs, c, i)
      {
        assert i > 0 ==> Step(gs, d, i - 1);
      }
    }
  }

  lemma PartIsPath(gs: seq<Group>, c: seq<string>, i: nat, j: nat)
    requires IsPath(gs, c) && i <= j <= |c|
    ensures IsPath(gs, c[i..j])
  {
    hide Edge;
    forall k | 0 <= k < j - i - 1
      ensures Step(gs, c[i..j], k)
    {
      assert Step(gs, c, i + k);
    }
  }

  // A nonempty set in which everybody is listed by somebody holds a cycle.
  lemma CycleWithin(gs: seq<Group>, s: set<string>) returns (c: seq<string>)
    requires s != {} && HasPreds(gs, s)
    ensures IsCycle(gs, c) && Members(c) <= s
  {
    hide HasPreds, IsPath;
    var x :| x in s;
    var w := WalkBack(gs, s, x, |s|);
    var i, j := Pigeonhole(w, s);
    c := w[i..j + 1];
    PartIsPath(gs, w, i, j + 1);
  }

  // ----- degrees -----

  function Occ(s: seq<string>, x: string): nat {
    if s == [] then 0 else (if s[0] == x then 1 else 0) + Occ(s[1..], x)
  }

  lemma {:induction false} OccPositive(s: seq<string>, x: string)
    ensures Occ(s, x) > 0 <==> x in s
  {
    if s != [] {
      OccPositive(s[1..], x);
    }
  }

  // How often the groups whose names are in `live` list x.
  ghost function Deg(gs: seq<Group>, live: set<string>, x: string): nat {
    if gs == [] then 0
    else
      var g := gs[|gs| - 1];
      Deg(gs[..|gs| - 1], live, x) + if g.name in live then Occ(g.proxies, x) else 0
  }

  lemma {:induction false} DegPositive(gs: seq<Group>, live: set<string>, x: string)
    ensures Deg(gs, live, x) > 0 <==> exists i :: 0 <= i < |gs| && gs[i].name in live && x in gs[i].proxies
  {
    if gs != [] {
      var n := |gs| - 1;
      DegPositive(gs[..n], live, x);
      OccPositive(gs[n].proxies, x);
      if i :| 0 <= i < |gs| && gs[i].name in live && x in gs[i].proxies {
        assert i < n ==> gs[..n][i] == gs[i];
      }
      if i :| 0 <= i < n && gs[..n][i].name in live && x in gs[..n][i].proxies {
        assert gs[i] == gs[..n][i];
      }
    }
  }

  lemma DegEdge(gs: seq<Group>, live: set<string>, x: string)
    ensures Deg(gs, live, x) > 0 <==> HasPred(gs, live, x)
  {
    DegPositive(gs, live, x);
    if i :| 0 <= i < |gs| && gs[i].name in live && x in gs[i].proxies {
      assert gs[i].name in live && Edge(gs, gs[i].name, x);
    }
  }

  // Taking out a name that is no group changes no count; taking out a group takes out its own list.
  lemma {:induction false} DegWithout(gs: seq<Group>, live: set<string>, name: string, x: string)
    requires !IsGroup(gs, name)
    ensures Deg(gs, live - {name}, x) == Deg(gs, live, x)
  {
    if gs != [] {
      var n := |gs| - 1;
      assert gs[n].name != name;
      assert !IsGroup(gs[..n], name) by {
        assert forall i :: 0 <= i < n ==> gs[..n][i] == gs[i];
      }
      DegWithout(gs[..n], live, name, x);
    }
  }

  lemma {:induction false} DegWithoutGroup(gs: seq<Group>, live: set<string>, i: nat, x: string)
    requires i < |gs| && DistinctNames(gs) && gs[i].name in live
    ensures Deg(gs, live, x) == Deg(gs, live - {gs[i].name}, x) + Occ(gs[i].proxies, x)
  {
    var n := |gs| - 1;
    assert forall j :: 0 <= j < n ==> gs[..n][j] == gs[j];
    if i == n {
      DegWithout(gs[..n], live, gs[n].name, x);
    } else {
      DegWithoutGroup(gs[..n], live, i, x);
    }
  }

  // With every group live, the last group's list comes on top of the others' counts.
  lemma {:induction false} DegAll(gs: seq<Group>, a: set<string>, b: set<string>, x: string)
    requires forall i :: 0 <= i < |gs| ==> gs[i].name in a && gs[i].name in b
    ensures Deg(gs, a, x) == Deg(gs, b, x)
  {
    if gs != [] {
      var n := |gs| - 1;
      assert forall j :: 0 <= j < n ==> gs[..n][j] == gs[j];
      DegAll(gs[..n], a, b, x);
    }
  }

  // What nobody live lists belongs to no set that lists all its members.
  lemma PeelKeepsPredSets(gs: seq<Group>, live: set<string>, x: string)
    requires Deg(gs, live, x) == 0
    ensures forall c :: HasPreds(gs, c) && c <= live ==> c <= live - {x}
  {
    DegEdge(gs, live, x);
    forall c | HasPreds(gs, c) && c <= live
      ensures x !in c
    {
      assert x in c ==> HasPred(gs, c, x);
    }
  }

  // How many entries of a list are in `live`.
  function Out(s: seq<string>, live: set<string>): nat {
    if s == [] then 0 else (if s[0] in live then 1 else 0) + Out(s[1..], live)
  }

  lemma {:induction false} OutPositive(s: seq<string>, live: set<string>)
    ensures Out(s, live) > 0 <==> exists y :: y in s && y in live
  {
    if s != [] {
      OutPositive(s[1..], live);
      if y :| y in s && y in live {
        assert y == s[0] || y in s[1..];
      }
    }
  }

  lemma {:induction false} OutWithout(s: seq<string>, live: set<string>, y: string)
    requires y in live
    ensures Out(s, live) == Out(s, live - {y}) + Occ(s, y)
  {
    if s != [] {
      OutWithout(s[1..], live, y);
    }
  }

  lemma {:induction false} OutAll(s: seq<string>, live: set<string>)
    requires forall y :: y in s ==> y in live
    ensures Out(s, live) == |s|
  {
    if s != [] {
      OutAll(s[1..], live);
    }
  }

  ghost function Names(gs: seq<Group>): set<string> {
    set i | 0 <= i < |gs| :: gs[i].name
  }

  lemma DegSnoc(gs: seq<Group>, g: Group, x: string)
    ensures Deg(gs + [g], Names(gs + [g]), x) == Deg(gs, Names(gs), x) + Occ(g.proxies, x)
  {
    var all := gs + [g];
    assert all[..|all| - 1] == gs;
    assert all[|gs|].name in Names(all);
    assert forall i :: 0 <= i < |gs| ==> all[i].name in Names(all) && all[i] == gs[i];
    DegAll(gs, Names(all), Names(gs), x);
  }

  // Going through a list from the front
  lemma OccFrom(s: seq<string>, j: nat, x: string)
    requires j < |s|
    ensures Occ(s[j..], x) == Occ(s[j + 1..], x) + if s[j] == x then 1 else 0
  {
    assert s[j..][1..] == s[j + 1..];
  }

  lemma {:induction false} OccAppend(s: seq<string>, y: string, x: string)
    ensures Occ(s + [y], x) == Occ(s, x) + if x == y then 1 else 0
  {
    if s != [] {
      assert (s + [y])[1..] == s[1..] + [y];
      OccAppend(s[1..], y, x);
    }
  }

  // The configurations of the groups that are still live.
  ghost function Rest<M>(ms: seq<M>, gs: seq<Group>, live: set<string>): multiset<M>
    requires |ms| == |gs|
  {
    if gs == [] then multiset{}
    else
      var n := |gs| - 1;
      Rest(ms[..n], gs[..n], live) + if gs[n].name in live then multiset{ms[n]} else multiset{}
  }

  lemma {:induction false} RestWithout<M>(ms: seq<M>, gs: seq<Group>, live: set<string>, name: string)
    requires |ms| == |gs| && !IsGroup(gs, name)
    ensures Rest(ms, gs, live - {name}) == Rest(ms, gs, live)
  {
    if gs != [] {
      var n := |gs| - 1;
      assert gs[n].name != name;
      assert !IsGroup(gs[..n], name) by {
        assert forall i :: 0 <= i < n ==> gs[..n][i] == gs[i];
      }
      RestWithout(ms[..n], gs[..n], live, name);
      assert gs[n].name in live - {name} <==> gs[n].name in live;
    }
  }

  lemma {:induction false} RestWithoutGroup<M>(ms: seq<M>, gs: seq<Group>, live: set<string>, i: nat)
    requires |ms| == |gs| && i < |gs| && DistinctNames(gs) && gs[i].name in live
    ensures Rest(ms, gs, live) == Rest(ms, gs, live - {gs[i].name}) + multiset{ms[i]}
  {
    var n := |gs| - 1;
    assert forall j :: 0 <= j < n ==> gs[..n][j] == gs[j];
    if i == n {
      RestWithout(ms[..n], gs[..n], live, gs[n].name);
    } else {
      RestWithoutGroup(ms[..n], gs[..n], live, i);
      assert ms[..n][i] == ms[i] && gs[n].name != gs[i].name;
      assert gs[n].name in live - {gs[i].name} <==> gs[n].name in live;
    }
  }

  lemma {:induction false} RestAll<M>(ms: seq<M>, gs: seq<Group>, live: set<string>)
    requires |ms| == |gs| && forall i :: 0 <= i < |gs| ==> gs[i].name in live
    ensures Rest(ms, gs, live) == multiset(ms)
  {
    if gs != [] {
      var n := |gs| - 1;
      assert forall j :: 0 <= j < n ==> gs[..n][j] == gs[j];
      RestAll(ms[..n], gs[..n], live);
      assert ms == ms[..n] + [ms[n]];
    }
  }

  lemma {:induction false} RestNone<M>(ms: seq<M>, gs: seq<Group>, live: set<string>)
    requires |ms| == |gs| && forall i :: 0 <= i < |gs| ==> gs[i].name !in live
    ensures Rest(ms, gs, live) == multiset{}
  {
    if gs != [] {
      var n := |gs| - 1;
      assert forall j :: 0 <= j < n ==> gs[..n][j] == gs[j];
      RestNone(ms[..n], gs[..n], live);
    }
  }

  // Every group comes after all groups it lists.
  ghost predicate Ordered(gs: seq<Group>) {
    forall u, v :: 0 <= u < |gs| && 0 <= v < |gs| && gs[v].name in gs[u].proxies ==> v < u
  }

  // All names that can be on an edge.
  ghost function Universe(gs: seq<Group>): set<string> {
    Names(gs) + set i, p | 0 <= i < |gs| && p in gs[i].proxies :: p
  }

  // The members of a cycle: a nonempty set in which everybody lists and is listed by somebody.
  lemma CycleMembers(gs: seq<Group>, c: seq<string>)
    ensures IsCycle(gs, c) ==>
              HasPreds(gs, Members(c)) && HasSuccs(gs, Members(c)) && Members(c) <= Universe(gs) && Members(c) != {}
  {
    if IsCycle(gs, c) {
      CycleIsClosed(gs, c);
      assert c[0] in Members(c);
      var n := |c| - 1;
      forall k | 0 <= k < |c|
        ensures c[k] in Universe(gs)
      {
        assert Step(gs, c, if k == n then 0 else k);
      }
    }
  }
}
