/**
 proxyGroupsDagSort as a whole: when it succeeds, what it leaves behind, and what it reports.
 */
module ProxyGroups {
  import opened Wrappers
  import opened DagSpec
  import opened DagPaths
  import opened DagSort
  import opened DagLoop

  ghost function Elements(names: seq<string>): set<string> {
    set x | x in names
  }

  // The names reported are those on the way from a cycle to a cycle: a nonempty set in which each lists
  // and is listed by some member, and which no cycle leaves.
  ghost predicate IsLoopReport(gs: seq<Group>, names: seq<string>) {
    && names != [] && NoDuplicates(names)
    && (forall x :: x in Elements(names) <==> OnTheWay(gs, x))
    && HasPreds(gs, Elements(names)) && HasSuccs(gs, Elements(names))
    && forall c :: IsCycle(gs, c) ==> Members(c) <= Elements(names)
  }

  // The report names only members of cycles exactly if no path between two cycles leaves them.
  lemma ReportsOnlyLoops(gs: seq<Group>, names: seq<string>)
    requires IsLoopReport(gs, names)
    ensures (forall x :: x in names ==> OnCycle(gs, x)) <==> NothingBetween(gs)
  {
    hide OnTheWay, OnCycle, NothingBetween, IsCycle;
    OnlyLoops(gs);
    assert forall x :: x in names <==> x in Elements(names);
  }

  // Of two groups that list themselves and one between them, the one between is reported too.
  lemma ReportsMore(names: seq<string>)
    requires IsLoopReport(Chained(), names)
    ensures "x" in names && !OnCycle(Chained(), "x")
  {
    hide OnTheWay, OnCycle, IsCycle;
    MiddleIsOnTheWay();
    MiddleIsOnNoCycle();
    assert "x" in Elements(names);
  }

  // The last |tg| entries are the groups tg, each after all it lists; the entries before them are
  // as they were.
  ghost predicate SortedTail<M(!new)>(decode: M -> Option<Group>, was: seq<M>, now: seq<M>, tg: seq<Group>) {
    && |tg| <= |was| == |now| && now[..|now| - |tg|] == was[..|was| - |tg|]
    && Decodes(decode, now[|now| - |tg|..], tg) && Ordered(tg)
  }

  lemma UniverseInGraph<M>(whole: Graph<M>, ms: seq<M>, gs: seq<Group>)
    requires Built(whole, ms, gs)
    ensures Universe(gs) <= whole.Keys
  {
    forall i, p | 0 <= i < |gs| && p in gs[i].proxies
      ensures p in whole
    {
      assert gs[i].name in Names(gs);
      DegPositive(gs, Names(gs), p);
      assert In(whole, p) > 0;
    }
  }

  lemma NothingLeft<M(!new)>(decode: M -> Option<Group>, whole: Graph<M>, ms: seq<M>, gs: seq<Group>, tail: seq<M>,
                             tg: seq<Group>)
    requires Built(whole, ms, gs) && Sorting(decode, map[], ms, gs, tail, tg, whole.Keys)
    ensures Acyclic(gs) && multiset(tail) == multiset(ms) && |tg| == |ms|
  {
    UniverseInGraph(whole, ms, gs);
    forall c
      ensures !IsCycle(gs, c)
    {
      CycleMembers(gs, c);
    }
    RestNone(ms, gs, {});
    var empty: Graph<M> := map[];
    assert empty.Keys == {};
    assert |multiset(tail)| == |multiset(ms)|;
  }

  lemma SomethingLeft<M(!new)>(decode: M -> Option<Group>, whole: Graph<M>, graph: Graph<M>, ms: seq<M>, gs: seq<Group>,
                               tail: seq<M>, tg: seq<Group>)
    requires Built(whole, ms, gs) && Sorting(decode, graph, ms, gs, tail, tg, whole.Keys) && QueueIn(graph, [], {})
    ensures HasPreds(gs, graph.Keys) && KeepsClosedSets(gs, whole.Keys, graph.Keys) && ListsLive(graph)
  {
    UnfoldSorting(decode, graph, ms, gs, tail, tg, whole.Keys);
    ClosedSetsStay(decode, graph, ms, gs, tail, tg, whole.Keys);
    assert DistinctNames(gs) by { Unfold(whole, ms, gs); }
    hide Built, Sorting, KeepsClosedSets, Deg, Occ, DistinctNames;
    SomebodyListsAll(graph, gs);
    hide HasPred, HasPreds, CountsLive, QueueIn;
    forall x, y | y in Listed(graph, x)
      ensures y in graph
    {
      var i := GroupOf(graph, ms, gs, x);
      ListedIsLive(graph, gs, i);
    }
  }

  lemma SomebodyListsAll<M>(graph: Graph<M>, gs: seq<Group>)
    requires CountsLive(graph, gs) && QueueIn(graph, [], {})
    ensures HasPreds(gs, graph.Keys)
  {
    hide Deg;
    forall x | x in graph
      ensures HasPred(gs, graph.Keys, x)
    {
      DegEdge(gs, graph.Keys, x);
      assert x !in [];
      assert In(graph, x) == Deg(gs, graph.Keys, x);
    }
  }

  lemma ClosedSetsStay<M(!new)>(decode: M -> Option<Group>, graph: Graph<M>, ms: seq<M>, gs: seq<Group>, tail: seq<M>,
                                tg: seq<Group>, names: set<string>)
    requires Sorting(decode, graph, ms, gs, tail, tg, names)
    ensures KeepsClosedSets(gs, names, graph.Keys)
  {
    hide Knows, CountsLive, Placed, Rest, HasPreds, HasSuccs;
  }

  lemma StartLocating<M>(graph: Graph<M>, g: Graph<M>, ms: seq<M>, gs: seq<Group>, names: set<string>)
    requires Knows(graph, ms, gs) && SameNodes(graph, g) && Filled(g, {}) && ListsLive(graph) && graph.Keys <= names
    requires HasPreds(gs, graph.Keys) && KeepsClosedSets(gs, names, graph.Keys)
    ensures Locating(g, ms, gs, names)
  {
    SameListed(graph, g);
    forall x
      ensures OutOf(g, x) == Out(Listed(g, x), g.Keys)
    {
      OutAll(Listed(g, x), g.Keys);
    }
  }

  lemma Located<M>(graph: Graph<M>, whole: Graph<M>, ms: seq<M>, gs: seq<Group>, live: set<string>, names: seq<string>)
    requires Built(whole, ms, gs) && Locating(graph, ms, gs, whole.Keys) && OutQueue(graph, [], {})
    requires live != {} && HasPreds(gs, live) && live <= whole.Keys && OnlyWays(gs, whole.Keys, graph.Keys)
    requires NoDuplicates(names) && Elements(names) == graph.Keys
    ensures !Acyclic(gs) && IsLoopReport(gs, names)
  {
    hide Locating, OutQueue, HasPreds, HasSuccs, IsCycle, Universe, OnTheWay;
    assert DistinctNames(gs);
    EverybodyListsSomebody(graph, ms, gs, whole.Keys);
    UniverseInGraph(whole, ms, gs);
    hide Built;
    forall c
      ensures IsCycle(gs, c) ==> Members(c) <= graph.Keys
    {
      CycleMembers(gs, c);
    }
    var c := CycleWithin(gs, live);
    CycleMembers(gs, c);
    assert Members(c) <= graph.Keys;
  }

  lemma NoTail<M(!new)>(decode: M -> Option<Group>, ms: seq<M>)
    ensures SortedTail(decode, ms, ms, [])
  {
  }

  // The names of what is left, in whatever order the map yields them.
  method Report<M>(graph: Graph<M>) returns (names: seq<string>)
    ensures NoDuplicates(names) && Elements(names) == graph.Keys
  {
    names := [];
    var todo := graph.Keys;
    while todo != {}
      invariant todo <= graph.Keys && NoDuplicates(names)
      invariant forall x :: x in names <==> x in graph && x !in todo
      decreases |todo|
    {
      var name :| name in todo;
      names := names + [name];
      todo := todo - {name};
    }
  }

  // The whole of it: reads the groups, sorts them, and locates the loops if that fails.  gs are the
  // groups read: all of them, unless an entry cannot be decoded or repeats a name.
  method ProxyGroupsDagSort<M(!new)>(a: array<M>, decode: M -> Option<Group>)
    returns (err: Option<Error>, ghost gs: seq<Group>, ghost tg: seq<Group>)
    modifies a
    ensures |gs| <= a.Length && Decodes(decode, old(a[..])[..|gs|], gs) && DistinctNames(gs)
    ensures err == None <==> |gs| == a.Length && Acyclic(gs)
    ensures err == None ==> multiset(a[..]) == multiset(old(a[..])) && |tg| == a.Length
    ensures SortedTail(decode, old(a[..]), a[..], tg)
    ensures err.Some? && err.value.DecodeFailed? ==> a[..] == old(a[..]) && |gs| < a.Length && decode(a[|gs|]) == None
    ensures err.Some? && err.value.Duplicate? ==> a[..] == old(a[..]) && |gs| < a.Length
    ensures err.Some? && err.value.Duplicate? ==> decode(a[|gs|]).Some? && decode(a[|gs|]).value.name == err.value.name
    ensures err.Some? && err.value.Duplicate? ==> IsGroup(gs, err.value.name)
    ensures err.Some? && err.value.Loop? ==> |gs| == a.Length && !Acyclic(gs) && IsLoopReport(gs, err.value.names)
  {
    hide Built, Sorting, QueueIn, Locating, OutQueue, OnlyWays, Filled, SameNodes, Knows, Acyclic, IsLoopReport,
         HasPreds, DistinctNames, Ordered;
    ghost var ms := a[..];
    var whole: Graph<M>;
    err, whole, gs := BuildGraph(a, decode);
    tg := [];
    NoTail(decode, ms);
    if err != None {
      return;
    }
    var graph;
    graph, tg := TopologicalSort(a, decode, whole, ms, gs);
    ghost var tail := a[a.Length - |tg|..];
    TailOf(decode, graph, ms, gs, tail, tg, whole.Keys);
    // no loop is detected
    if |graph| == 0 {
      assert graph == map[];
      NothingLeft(decode, whole, ms, gs, tail, tg);
      assert tail == a[..];
      return;
    }
    SomethingLeft(decode, whole, graph, ms, gs, tail, tg);
    ghost var live := graph.Keys;
    var filled := FillFroms(graph);
    StartLocating(graph, filled, ms, gs, whole.Keys);
    filled := PeelOut(filled, ms, gs, whole.Keys);
    var names := Report(filled);
    Located(filled, whole, ms, gs, live, names);
    err := Some(Loop(names));
  }

  lemma TailOf<M(!new)>(decode: M -> Option<Group>, graph: Graph<M>, ms: seq<M>, gs: seq<Group>, tail: seq<M>,
                        tg: seq<Group>, names: set<string>)
    requires Sorting(decode, graph, ms, gs, tail, tg, names)
    ensures Decodes(decode, tail, tg) && Ordered(tg) && Knows(graph, ms, gs) && Fresh(graph) && graph.Keys <= names
  {
  }
}
