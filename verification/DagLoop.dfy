/**
 Locating the loop: what the topological sort could not take out is peeled a second time, from the
 other end, until every name left is on a chain of edges that never ends in either direction.
 */
module DagLoop {
  import opened Wrappers
  import opened DagPaths
  import opened DagSpec
  import opened DagSort

  // What a node lists, as far as it is still in the graph.
  function Listed<M>(graph: Graph<M>, x: string): seq<string> {
    if x in graph && graph[x].option.Some? then graph[x].option.value.proxies else []
  }

  function OutOf<M>(graph: Graph<M>, x: string): int {
    if x in graph then graph[x].outdegree else 0
  }

  // Two graphs with the same nodes and groups.
  ghost predicate SameNodes<M>(g: Graph<M>, h: Graph<M>) {
    SameGroups(g, h) && g.Keys == h.Keys
  }

  lemma SameListed<M>(g: Graph<M>, h: Graph<M>)
    requires SameNodes(g, h)
    ensures forall x :: Listed(g, x) == Listed(h, x)
  {
  }

  // ----- step 2.1 -----

  // Every from-list names who lists the node, as often as they do; `todo` has not been entered yet.
  ghost predicate Froms<M>(graph: Graph<M>, todo: set<string>) {
    forall y, x :: y in graph ==> Occ(graph[y].from, x) == if x in todo then 0 else Occ(Listed(graph, x), y)
  }

  ghost predicate ListsLive<M>(graph: Graph<M>) {
    forall x, y :: y in Listed(graph, x) ==> y in graph
  }

  // One edge more: out of a node, and into one
  function CountOut<M>(g: Graph<M>, x: string): Graph<M>
    requires x in g
  {
    g[x := g[x].(outdegree := g[x].outdegree + 1)]
  }

  function AddFrom<M>(g: Graph<M>, y: string, x: string): Graph<M>
    requires y in g
  {
    g[y := g[y].(from := g[y].from + [x])]
  }

  lemma CountOutKeeps<M>(graph: Graph<M>, g: Graph<M>, x: string)
    requires SameNodes(graph, g) && x in g
    ensures SameNodes(graph, CountOut(g, x)) && CountOut(g, x).Keys == g.Keys
    ensures forall y :: OutOf(CountOut(g, x), y) == OutOf(g, y) + if y == x then 1 else 0
    ensures forall y :: y in g ==> CountOut(g, x)[y].from == g[y].from
  {
  }

  lemma AddFromKeeps<M>(graph: Graph<M>, g: Graph<M>, y: string, x: string)
    requires SameNodes(graph, g) && y in g
    ensures SameNodes(graph, AddFrom(g, y, x)) && AddFrom(g, y, x).Keys == g.Keys
    ensures forall z :: OutOf(AddFrom(g, y, x), z) == OutOf(g, z)
    ensures forall z :: z in g ==> AddFrom(g, y, x)[z].from == if z == y then g[z].from + [x] else g[z].from
  {
  }

  // The first j of a node's edges have been entered.
  ghost predicate Entered<M>(graph: Graph<M>, g: Graph<M>, name: string, proxies: seq<string>, j: nat)
    requires j <= |proxies|
  {
    && SameNodes(graph, g) && g.Keys == graph.Keys
    && (forall x :: OutOf(g, x) == OutOf(graph, x) + if x == name then j else 0)
    && forall y, x :: y in graph ==>
       Occ(g[y].from, x) + (if x == name then Occ(proxies[j..], y) else 0)
       == Occ(graph[y].from, x) + if x == name then Occ(proxies, y) else 0
  }

  lemma EnterEdge<M>(graph: Graph<M>, g: Graph<M>, name: string, proxies: seq<string>, j: nat)
    requires j < |proxies| && Entered(graph, g, name, proxies, j) && name in graph && proxies[j] in graph
    ensures Entered(graph, AddFrom(CountOut(g, name), proxies[j], name), name, proxies, j + 1)
  {
    hide SameNodes, OutOf, Occ, CountOut, AddFrom;
    var proxy := proxies[j];
    CountOutKeeps(graph, g, name);
    var h := CountOut(g, name);
    AddFromKeeps(graph, h, proxy, name);
    var k := AddFrom(h, proxy, name);
    forall y, x | y in graph
      ensures Occ(k[y].from, x) == Occ(g[y].from, x) + if x == name && y == proxy then 1 else 0
      ensures Occ(proxies[j..], y) == Occ(proxies[j + 1..], y) + if y == proxy then 1 else 0
    {
      OccFrom(proxies, j, y);
      OccAppend(g[y].from, name, x);
    }
  }

  method AddEdges<M>(graph: Graph<M>, name: string, proxies: seq<string>) returns (g: Graph<M>)
    requires name in graph && forall y :: y in proxies ==> y in graph
    ensures SameNodes(graph, g)
    ensures forall x :: OutOf(g, x) == OutOf(graph, x) + if x == name then |proxies| else 0
    ensures forall y, x :: y in graph ==>
            Occ(g[y].from, x) == Occ(graph[y].from, x) + if x == name then Occ(proxies, y) else 0
  {
    g := graph;
    SameNodesRefl(graph);
    assert proxies[0..] == proxies;
    NoneListed(proxies);
    hide SameNodes, OutOf, Occ, CountOut, AddFrom;
    assert Entered(graph, g, name, proxies, 0);
    for j := 0 to |proxies|
      invariant Entered(graph, g, name, proxies, j) && g.Keys == graph.Keys
    {
      hide Entered;
      EnterEdge(graph, g, name, proxies, j);
      g := CountOut(g, name);
      KeysStay(g, proxies[j], name);
      g := AddFrom(g, proxies[j], name);
    }
  }

  lemma KeysStay<M>(g: Graph<M>, y: string, x: string)
    requires y in g
    ensures AddFrom(g, y, x).Keys == g.Keys
  {
  }

  lemma SameNodesRefl<M>(g: Graph<M>)
    ensures SameNodes(g, g)
  {
  }

  // The invariant of step 2.1: all nodes but those in `todo` have been entered.
  ghost predicate Filled<M>(graph: Graph<M>, todo: set<string>) {
    Froms(graph, todo) && forall x :: OutOf(graph, x) == if x in todo then 0 else |Listed(graph, x)|
  }

  lemma FilledName<M>(graph: Graph<M>, g: Graph<M>, todo: set<string>, name: string)
    requires Filled(graph, todo) && SameNodes(graph, g) && name in todo && name in graph
    requires forall x :: OutOf(g, x) == OutOf(graph, x) + if x == name then |Listed(graph, name)| else 0
    requires forall y, x :: y in graph ==>
             Occ(g[y].from, x) == Occ(graph[y].from, x) + if x == name then Occ(Listed(graph, name), y) else 0
    ensures Filled(g, todo - {name})
  {
    SameListed(graph, g);
    hide SameNodes, Listed, OutOf;
  }

  lemma SameNodesTrans<M>(f: Graph<M>, g: Graph<M>, h: Graph<M>)
    requires SameNodes(f, g) && SameNodes(g, h)
    ensures SameNodes(f, h)
  {
  }

  method FillFroms<M>(graph: Graph<M>) returns (g: Graph<M>)
    requires Fresh(graph) && ListsLive(graph)
    ensures SameNodes(graph, g) && Filled(g, {})
  {
    g := graph;
    var todo := graph.Keys;
    while todo != {}
      invariant todo <= graph.Keys && SameNodes(graph, g) && Filled(g, todo)
      decreases |todo|
    {
      var name :| name in todo;
      var node := g[name];
      assert Listed(g, name) == Listed(graph, name) by { SameListed(graph, g); }
      ghost var before := g;
      if node.option != None {
        assert node.option.value.proxies == Listed(graph, name);
        hide Filled, Listed;
        g := AddEdges(g, name, node.option.value.proxies);
        SameNodesTrans(graph, before, g);
      }
      hide Filled;
      FilledName(before, g, todo, name);
      todo := todo - {name};
    }
  }

  // ----- step 2.2 -----

  ghost predicate OutCounts<M>(graph: Graph<M>) {
    forall x :: OutOf(graph, x) == Out(Listed(graph, x), graph.Keys)
  }

  ghost predicate OutQueue<M>(graph: Graph<M>, q: seq<string>, gone: set<string>) {
    && NoDuplicates(q)
    && forall x :: x in q <==> x in graph && x !in gone && graph[x].outdegree == 0
  }

  method FirstOutQueue<M>(graph: Graph<M>) returns (queue: seq<string>)
    ensures OutQueue(graph, queue, {})
  {
    queue := [];
    var todo := graph.Keys;
    while todo != {}
      invariant todo <= graph.Keys && OutQueue(graph, queue, todo)
      decreases |todo|
    {
      var name :| name in todo;
      todo := todo - {name};
      if graph[name].outdegree == 0 {
        queue := queue + [name];
      }
    }
  }

  // One edge less out of x
  function CountBack<M>(g: Graph<M>, x: string): Graph<M>
    requires x in g
  {
    g[x := g[x].(outdegree := g[x].outdegree - 1)]
  }

  lemma CountBackKeeps<M>(graph: Graph<M>, g: Graph<M>, x: string)
    requires SameNodes(graph, g) && x in g && forall y :: y in graph ==> g[y].from == graph[y].from
    ensures SameNodes(graph, CountBack(g, x)) && forall y :: y in graph ==> CountBack(g, x)[y].from == graph[y].from
    ensures forall y :: OutOf(CountBack(g, x), y) == OutOf(g, y) - if x == y then 1 else 0
  {
  }

  lemma OutQueueGrows<M>(g: Graph<M>, q: seq<string>, x: string, name: string)
    requires OutQueue(g, q, {name}) && x in g && x != name && g[x].outdegree >= 1
    ensures var h := CountBack(g, x); OutQueue(h, if h[x].outdegree == 0 then q + [x] else q, {name})
  {
  }

  lemma NextBack<M>(g: Graph<M>, from: seq<string>, j: nat, name: string)
    requires j < |from| && Occ(from[j..], name) == 0 && forall x :: OutOf(g, x) >= Occ(from[j..], x)
    ensures from[j] in g && from[j] != name && g[from[j]].outdegree >= 1 && Occ(from[j + 1..], name) == 0
  {
    OccFrom(from, j, from[j]);
    OccFrom(from, j, name);
  }

  method ReleaseBack<M>(graph: Graph<M>, queue: seq<string>, from: seq<string>, ghost name: string)
    returns (g: Graph<M>, q: seq<string>)
    requires forall x :: OutOf(graph, x) >= Occ(from, x)
    requires name in graph && graph[name].outdegree == 0 && OutQueue(graph, queue, {name})
    ensures SameNodes(graph, g) && forall y :: y in graph ==> g[y].from == graph[y].from
    ensures forall x :: OutOf(g, x) == OutOf(graph, x) - Occ(from, x)
    ensures OutQueue(g, q, {name})
  {
    g, q := graph, queue;
    assert OutOf(graph, name) == 0 && from[0..] == from;
    SameNodesRefl(graph);
    hide Occ, OutQueue, SameNodes, OutOf;
    for j := 0 to |from|
      invariant SameNodes(graph, g) && g.Keys == graph.Keys && forall y :: y in graph ==> g[y].from == graph[y].from
      invariant forall x :: OutOf(g, x) == OutOf(graph, x) - Occ(from, x) + Occ(from[j..], x)
      invariant OutQueue(g, q, {name}) && Occ(from[j..], name) == 0
    {
      var f := from[j];
      NextBack(g, from, j, name);
      CountBackKeeps(graph, g, f);
      OutQueueGrows(g, q, f, name);
      forall x
        ensures Occ(from[j..], x) == Occ(from[j + 1..], x) + if f == x then 1 else 0
      {
        OccFrom(from, j, x);
      }
      g := CountBack(g, f);
      SameKeys(graph, g);
      if g[f].outdegree == 0 {
        q := q + [f];
      }
    }
    NoneListed(from);
  }

  // The names that can still be on a loop.
  ghost predicate Locating<M>(graph: Graph<M>, ms: seq<M>, gs: seq<Group>, names: set<string>) {
    && Knows(graph, ms, gs) && OutCounts(graph) && Froms(graph, {}) && graph.Keys <= names
    && HasPreds(gs, graph.Keys) && KeepsClosedSets(gs, names, graph.Keys)
  }

  ghost predicate KeepsClosedSets(gs: seq<Group>, names: set<string>, live: set<string>) {
    forall c :: HasPreds(gs, c) && HasSuccs(gs, c) && c <= names ==> c <= live
  }

  // A group's edges are its list.
  lemma EdgeIsListed<M>(graph: Graph<M>, ms: seq<M>, gs: seq<Group>, x: string, y: string)
    requires Knows(graph, ms, gs) && DistinctNames(gs) && x in graph
    ensures Edge(gs, x, y) <==> y in Listed(graph, x)
  {
    if graph[x].option.Some? {
      var i := GroupOf(graph, ms, gs, x);
    }
  }

  // A node with outdegree 0 lists nobody in the graph.
  lemma NobodyListed<M>(graph: Graph<M>, ms: seq<M>, gs: seq<Group>, x: string)
    requires Knows(graph, ms, gs) && DistinctNames(gs) && OutCounts(graph) && x in graph
    ensures graph[x].outdegree > 0 <==> HasSucc(gs, graph.Keys, x)
    ensures graph[x].outdegree >= 0
    ensures graph[x].outdegree == 0 ==> forall y :: y in graph ==> y !in Listed(graph, x) && !Edge(gs, x, y)
  {
    assert graph[x].outdegree == OutOf(graph, x);
    OutPositive(Listed(graph, x), graph.Keys);
    forall y
      ensures Edge(gs, x, y) <==> y in Listed(graph, x)
    {
      EdgeIsListed(graph, ms, gs, x, y);
    }
  }

  lemma PredsWithout(gs: seq<Group>, live: set<string>, x: string)
    requires HasPreds(gs, live) && forall y :: y in live ==> !Edge(gs, x, y)
    ensures HasPreds(gs, live - {x})
  {
    forall y | y in live - {x}
      ensures HasPred(gs, live - {x}, y)
    {
      assert HasPred(gs, live, y);
      var z :| z in live && Edge(gs, z, y);
      assert z in live - {x};
    }
  }

  lemma ClosedSetsWithout(gs: seq<Group>, names: set<string>, live: set<string>, x: string)
    requires KeepsClosedSets(gs, names, live) && forall y :: y in live ==> !Edge(gs, x, y)
    ensures KeepsClosedSets(gs, names, live - {x})
  {
    forall c | HasPreds(gs, c) && HasSuccs(gs, c) && c <= names
      ensures c <= live - {x}
    {
      assert c <= live;
      assert x in c ==> HasSucc(gs, c, x);
    }
  }

  lemma OutCountsAfter<M>(graph: Graph<M>, g: Graph<M>, name: string)
    requires OutCounts(graph) && Froms(graph, {}) && SameNodes(graph, g) && name in graph
    requires forall x :: OutOf(g, x) == OutOf(graph, x) - Occ(graph[name].from, x)
    requires graph[name].outdegree == 0
    ensures OutCounts(g - {name})
  {
    var h := g - {name};
    assert h.Keys == graph.Keys - {name};
    SameListed(graph, g);
    forall x
      ensures OutOf(h, x) == Out(Listed(h, x), h.Keys)
    {
      OutWithout(Listed(graph, x), graph.Keys, name);
      assert x in h ==> Listed(h, x) == Listed(graph, x);
    }
  }

  lemma FromsAfter<M>(graph: Graph<M>, g: Graph<M>, name: string)
    requires Froms(graph, {}) && SameNodes(graph, g) && name in graph
    requires forall y :: y in graph ==> g[y].from == graph[y].from
    requires forall y :: y in graph ==> y !in Listed(graph, name)
    ensures Froms(g - {name}, {})
  {
    var h := g - {name};
    SameListed(graph, g);
    forall y, x | y in h
      ensures Occ(h[y].from, x) == Occ(Listed(h, x), y)
    {
      OccPositive(Listed(graph, name), y);
      assert y in graph && h[y].from == graph[y].from;
      assert x != name ==> Listed(h, x) == Listed(graph, x);
    }
  }

  lemma CanReleaseBack<M>(graph: Graph<M>, name: string)
    requires OutCounts(graph) && Froms(graph, {}) && name in graph
    ensures forall x :: OutOf(graph, x) >= Occ(graph[name].from, x)
  {
    forall x
      ensures OutOf(graph, x) >= Occ(graph[name].from, x)
    {
      OutWithout(Listed(graph, x), graph.Keys, name);
    }
  }

  lemma LocatedName<M>(graph: Graph<M>, g: Graph<M>, ms: seq<M>, gs: seq<Group>, names: set<string>, name: string)
    requires Locating(graph, ms, gs, names) && DistinctNames(gs) && name in graph && graph[name].outdegree == 0
    requires SameNodes(graph, g) && forall y :: y in graph ==> g[y].from == graph[y].from
    requires forall x :: OutOf(g, x) == OutOf(graph, x) - Occ(graph[name].from, x)
    ensures Locating(g - {name}, ms, gs, names)
  {
    NobodyListed(graph, ms, gs, name);
    assert (g - {name}).Keys == graph.Keys - {name};
    OutCountsAfter(graph, g, name);
    FromsAfter(graph, g, name);
    PredsWithout(gs, graph.Keys, name);
    ClosedSetsWithout(gs, names, graph.Keys, name);
  }

  lemma OutQueueFront<M>(graph: Graph<M>, queue: seq<string>)
    requires OutQueue(graph, queue, {}) && queue != []
    ensures queue[0] in graph && graph[queue[0]].outdegree == 0
    ensures OutQueue(graph, queue[1..], {queue[0]})
  {
    assert queue[0] in queue;
    forall x
      ensures x in queue[1..] <==> x in queue && x != queue[0]
    {
      if x in queue && x != queue[0] {
        var k :| 0 <= k < |queue| && queue[k] == x;
        assert queue[1..][k - 1] == x;
      }
    }
  }

  lemma OutQueueAfter<M>(g: Graph<M>, q: seq<string>, name: string)
    requires OutQueue(g, q, {name})
    ensures OutQueue(g - {name}, q, {})
  {
  }

  lemma Unlocate<M>(graph: Graph<M>, ms: seq<M>, gs: seq<Group>, names: set<string>)
    requires Locating(graph, ms, gs, names)
    ensures OutCounts(graph) && Froms(graph, {}) && Knows(graph, ms, gs)
  {
  }

  lemma EverybodyListsSomebody<M>(graph: Graph<M>, ms: seq<M>, gs: seq<Group>, names: set<string>)
    requires Locating(graph, ms, gs, names) && DistinctNames(gs) && OutQueue(graph, [], {})
    ensures HasPreds(gs, graph.Keys) && HasSuccs(gs, graph.Keys) && KeepsClosedSets(gs, names, graph.Keys)
  {
    hide HasPreds;
    forall x | x in graph
      ensures HasSucc(gs, graph.Keys, x)
    {
      NobodyListed(graph, ms, gs, x);
      assert x !in [];
    }
  }

  // If no name on an edge was left out to begin with, what is left are the names on the way from a
  // cycle to a cycle.
  ghost predicate OnlyWays(gs: seq<Group>, names: set<string>, live: set<string>) {
    Universe(gs) <= names ==> forall x :: x in live <==> OnTheWay(gs, x)
  }

  lemma WaysAreLeft<M>(graph: Graph<M>, ms: seq<M>, gs: seq<Group>, names: set<string>)
    requires Locating(graph, ms, gs, names) && DistinctNames(gs) && OutQueue(graph, [], {})
    ensures OnlyWays(gs, names, graph.Keys)
  {
    hide Locating, OutQueue, HasPreds, HasSuccs, OnTheWay, Universe;
    EverybodyListsSomebody(graph, ms, gs, names);
    if Universe(gs) <= names {
      ClosedIsOnTheWay(gs, graph.Keys);
    }
  }

  // Then whoever lists nobody left goes, and so on: what remains are the loops and what
  // lies on a way from one to another.
  method PeelOut<M>(whole: Graph<M>, ghost ms: seq<M>, ghost gs: seq<Group>, ghost names: set<string>)
    returns (graph: Graph<M>)
    requires Locating(whole, ms, gs, names) && DistinctNames(gs)
    ensures Locating(graph, ms, gs, names) && OutQueue(graph, [], {}) && OnlyWays(gs, names, graph.Keys)
  {
    hide Locating, OutQueue, OnlyWays, OutCounts, Froms, Knows, SameNodes, OutOf, DistinctNames;
    graph := whole;
    var queue := FirstOutQueue(graph);
    while |queue| > 0
      invariant Locating(graph, ms, gs, names) && OutQueue(graph, queue, {})
      decreases |graph|
    {
      var name := queue[0];
      OutQueueFront(graph, queue);
      Unlocate(graph, ms, gs, names);
      CanReleaseBack(graph, name);
      ghost var before := graph;
      graph, queue := ReleaseBack(graph, queue[1..], graph[name].from, name);
      LocatedName(before, graph, ms, gs, names, name);
      OutQueueAfter(graph, queue, name);
      SameKeys(before, graph);
      Smaller(before, graph, name);
      graph := graph - {name};
    }
    assert queue == [];
    WaysAreLeft(graph, ms, gs, names);
  }

  lemma SameKeys<M>(g: Graph<M>, h: Graph<M>)
    ensures SameNodes(g, h) ==> g.Keys == h.Keys
  {
  }
}
