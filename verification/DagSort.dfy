/**
 Sorting the proxy groups by dependency, in place, and locating the loop when that fails.
 */
module DagSort {
  import opened Wrappers
  import opened DagSpec

  // A node of the dependency graph; names that are only listed have neither data nor option.
  datatype Node<M> = Node(indegree: int, data: Option<M>, outdegree: int, option: Option<Group>, from: seq<string>)

  type Graph<M> = map<string, Node<M>>

  datatype Error = DecodeFailed | Duplicate(name: string) | Loop(names: seq<string>)

  function In<M>(graph: Graph<M>, x: string): int {
    if x in graph then graph[x].indegree else 0
  }

  // The graph's groups are those of gs, with their configurations ms.
  ghost predicate Knows<M>(graph: Graph<M>, ms: seq<M>, gs: seq<Group>) {
    && |ms| == |gs|
    && (forall i :: 0 <= i < |gs| && gs[i].name in graph ==>
          graph[gs[i].name].option == Some(gs[i]) && graph[gs[i].name].data == Some(ms[i]))
    && (forall x :: x in graph && graph[x].option.Some? ==> IsGroup(gs, x))
    && (forall x :: x in graph && graph[x].data.Some? ==> graph[x].option.Some?)
  }

  // Two graphs differ in degrees and from-lists only.
  ghost predicate SameGroups<M>(g: Graph<M>, h: Graph<M>) {
    && g.Keys <= h.Keys
    && (forall x :: x in g ==> g[x].option == h[x].option && g[x].data == h[x].data)
    && (forall x :: x in h && x !in g ==> h[x].option == None && h[x].data == None)
  }

  // No node has been given an outdegree or a from-list yet.
  ghost predicate Fresh<M>(graph: Graph<M>) {
    forall x :: x in graph ==> graph[x].outdegree == 0 && graph[x].from == []
  }

  // ----- step 1.1 -----

  // A group's list: every name on it gets one more incoming edge.
  method CountListed<M>(graph: Graph<M>, proxies: seq<string>) returns (g: Graph<M>)
    requires Fresh(graph)
    ensures SameGroups(graph, g) && Fresh(g)
    ensures forall x :: In(g, x) == In(graph, x) + Occ(proxies, x)
  {
    g := graph;
    SameGroupsRefl(graph);
    assert proxies[0..] == proxies;
    hide Occ, SameGroups, Fresh, In, CountUp;
    for j := 0 to |proxies|
      invariant SameGroups(graph, g) && Fresh(g)
      invariant forall x :: In(g, x) + Occ(proxies[j..], x) == In(graph, x) + Occ(proxies, x)
    {
      forall x
        ensures Occ(proxies[j..], x) == Occ(proxies[j + 1..], x) + if proxies[j] == x then 1 else 0
      {
        OccFrom(proxies, j, x);
      }
      CountUpKeeps(graph, g, proxies[j]);
      g := CountUp(g, proxies[j]);
    }
    NoneListed(proxies);
  }

  // One edge more into x, which may be new
  function CountUp<M>(g: Graph<M>, x: string): Graph<M> {
    if x in g then g[x := g[x].(indegree := g[x].indegree + 1)] else g[x := Node(1, None, 0, None, [])]
  }

  lemma CountUpKeeps<M>(graph: Graph<M>, g: Graph<M>, x: string)
    requires SameGroups(graph, g) && Fresh(g)
    ensures SameGroups(graph, CountUp(g, x)) && Fresh(CountUp(g, x))
    ensures forall y :: In(CountUp(g, x), y) == In(g, y) + if x == y then 1 else 0
  {
  }

  ghost predicate Counts<M>(graph: Graph<M>, gs: seq<Group>) {
    forall x :: In(graph, x) == Deg(gs, Names(gs), x)
  }

  // The graph of the groups read so far.
  ghost predicate Built<M>(graph: Graph<M>, ms: seq<M>, gs: seq<Group>) {
    && Knows(graph, ms, gs) && Counts(graph, gs) && Fresh(graph)
    && DistinctNames(gs) && Names(gs) <= graph.Keys
  }

  lemma CountsSnoc<M>(graph: Graph<M>, g: Graph<M>, gs: seq<Group>, option: Group)
    requires Counts(graph, gs) && forall x :: In(g, x) == In(graph, x) + Occ(option.proxies, x)
    ensures Counts(g, gs + [option])
  {
    forall x
      ensures In(g, x) == Deg(gs + [option], Names(gs + [option]), x)
    {
      DegSnoc(gs, option, x);
    }
  }

  lemma KnowsSnoc<M>(graph: Graph<M>, g: Graph<M>, ms: seq<M>, gs: seq<Group>, m: M, option: Group, node: Node<M>)
    requires Knows(graph, ms, gs) && Names(gs) <= graph.Keys && !IsGroup(gs, option.name) && DistinctNames(gs)
    requires node.data == Some(m) && node.option == Some(option)
    requires SameGroups(graph[option.name := node], g)
    ensures Knows(g, ms + [m], gs + [option]) && DistinctNames(gs + [option]) && Names(gs + [option]) <= g.Keys
  {
    NamesSnoc(graph, g, gs, option);
    KnowsGroups(graph, g, ms, gs, m, option, node);
    KnowsNames(graph, g, ms, gs, m, option, node);
  }

  lemma KnowsGroups<M>(graph: Graph<M>, g: Graph<M>, ms: seq<M>, gs: seq<Group>, m: M, option: Group, node: Node<M>)
    requires Knows(graph, ms, gs) && Names(gs) <= graph.Keys && !IsGroup(gs, option.name)
    requires node.data == Some(m) && node.option == Some(option)
    requires SameGroups(graph[option.name := node], g)
    ensures var ms', gs' := ms + [m], gs + [option];
            forall i :: 0 <= i < |gs'| && gs'[i].name in g ==>
              g[gs'[i].name].option == Some(gs'[i]) && g[gs'[i].name].data == Some(ms'[i])
  {
    var ms', gs' := ms + [m], gs + [option];
    forall i | 0 <= i < |gs'| && gs'[i].name in g
      ensures g[gs'[i].name].option == Some(gs'[i]) && g[gs'[i].name].data == Some(ms'[i])
    {
      if i < |gs| {
        assert gs'[i] == gs[i] && ms'[i] == ms[i] && gs[i].name in Names(gs) && gs[i].name != option.name;
      }
    }
  }

  lemma KnowsNames<M>(graph: Graph<M>, g: Graph<M>, ms: seq<M>, gs: seq<Group>, m: M, option: Group, node: Node<M>)
    requires Knows(graph, ms, gs) && node.data == Some(m) && node.option == Some(option)
    requires SameGroups(graph[option.name := node], g)
    ensures forall x :: x in g && g[x].option.Some? ==> IsGroup(gs + [option], x)
    ensures forall x :: x in g && g[x].data.Some? ==> g[x].option.Some?
  {
    var gs' := gs + [option];
    assert gs'[|gs|] == option;
    forall x | x in g && g[x].option.Some?
      ensures IsGroup(gs', x)
    {
      if x != option.name {
        assert IsGroup(gs, x);
        var i :| 0 <= i < |gs| && gs[i].name == x;
        assert gs'[i].name == x;
      }
    }
  }

  lemma NamesSnoc<M>(graph: Graph<M>, g: Graph<M>, gs: seq<Group>, option: Group)
    requires Names(gs) <= graph.Keys && !IsGroup(gs, option.name) && DistinctNames(gs) && graph.Keys <= g.Keys
             && option.name in g
    ensures DistinctNames(gs + [option]) && Names(gs + [option]) <= g.Keys
  {
    assert forall i :: 0 <= i < |gs| ==> gs[i].name in Names(gs) && gs[i].name != option.name;
  }

  // Enters a decoded group, unless its name is taken.
  method AddGroup<M>(graph: Graph<M>, mapping: M, option: Group, ghost ms: seq<M>, ghost gs: seq<Group>)
    returns (r: Option<Graph<M>>)
    requires Built(graph, ms, gs)
    ensures r == None <==> IsGroup(gs, option.name)
    ensures r.Some? ==> Built(r.value, ms + [mapping], gs + [option])
  {
    var name := option.name;
    var node := Node(0, Some(mapping), 0, Some(option), []);
    if name in graph {
      node := graph[name];
      if node.data != None {
        return None;
      }
      node := node.(data := Some(mapping), option := Some(option));
    }
    var linked := graph[name := node];
    assert forall x :: In(linked, x) == In(graph, x);
    var g := CountListed(linked, option.proxies);
    assert !IsGroup(gs, name) by {
      assert forall i :: 0 <= i < |gs| ==> gs[i].name in Names(gs);
    }
    hide Knows, Counts, SameGroups, Fresh;
    KnowsSnoc(graph, g, ms, gs, mapping, option, node);
    CountsSnoc(graph, g, gs, option);
    r := Some(g);
  }

  // The groups a prefix of the configuration decodes to.
  ghost predicate Decodes<M(!new)>(decode: M -> Option<Group>, ms: seq<M>, gs: seq<Group>) {
    |ms| == |gs| && forall i :: 0 <= i < |ms| ==> decode(ms[i]) == Some(gs[i])
  }

  // Step 1.1: the whole graph, or the first entry that cannot be read or repeats a name.
  method BuildGraph<M(!new)>(a: array<M>, decode: M -> Option<Group>)
    returns (err: Option<Error>, graph: Graph<M>, ghost gs: seq<Group>)
    ensures |gs| <= a.Length && Decodes(decode, a[..|gs|], gs) && DistinctNames(gs)
    ensures err == None ==> |gs| == a.Length && Built(graph, a[..], gs)
    ensures err.Some? ==> |gs| < a.Length && match err.value
              case DecodeFailed => decode(a[|gs|]) == None
              case Duplicate(name) => decode(a[|gs|]).Some? && decode(a[|gs|]).value.name == name && IsGroup(gs, name)
              case Loop(_) => false
  {
    graph := map[];
    gs := [];
    for i := 0 to a.Length
      invariant |gs| == i && Decodes(decode, a[..i], gs) && Built(graph, a[..i], gs)
    {
      var mapping := a[i];
      var option := decode(mapping);
      if option == None {
        return Some(DecodeFailed), graph, gs;
      }
      var r := AddGroup(graph, mapping, option.value, a[..i], gs);
      if r == None {
        return Some(Duplicate(option.value.name)), graph, gs;
      }
      assert a[..i + 1] == a[..i] + [mapping];
      hide Built;
      graph := r.value;
      gs := gs + [option.value];
    }
    assert a[..a.Length] == a[..];
    err := None;
  }

  // ----- step 1.2 -----

  ghost predicate NoDuplicates(q: seq<string>) {
    forall i, j :: 0 <= i < j < |q| ==> q[i] != q[j]
  }

  // The queue holds the nodes without incoming edges, each once; `gone` is being removed.
  ghost predicate QueueIn<M>(graph: Graph<M>, q: seq<string>, gone: set<string>) {
    && NoDuplicates(q)
    && forall x :: x in q <==> x in graph && x !in gone && graph[x].indegree == 0
  }

  // One edge less into x
  function CountDown<M>(g: Graph<M>, x: string): Graph<M>
    requires x in g
  {
    g[x := g[x].(indegree := g[x].indegree - 1)]
  }

  lemma CountDownKeeps<M>(graph: Graph<M>, g: Graph<M>, x: string)
    requires x in g && SameGroups(graph, g) && g.Keys == graph.Keys && Fresh(g)
    ensures var h := CountDown(g, x); SameGroups(graph, h) && h.Keys == graph.Keys && Fresh(h)
    ensures forall y :: In(CountDown(g, x), y) == In(g, y) - if x == y then 1 else 0
  {
  }

  lemma QueueGrows<M>(g: Graph<M>, q: seq<string>, x: string, name: string)
    requires QueueIn(g, q, {name}) && x in g && x != name && g[x].indegree >= 1
    ensures var h := CountDown(g, x); QueueIn(h, if h[x].indegree == 0 then q + [x] else q, {name})
  {
  }

  lemma NextListed<M>(g: Graph<M>, proxies: seq<string>, j: nat, name: string)
    requires j < |proxies| && Occ(proxies[j..], name) == 0 && forall x :: In(g, x) >= Occ(proxies[j..], x)
    ensures proxies[j] in g && proxies[j] != name && g[proxies[j]].indegree >= 1 && Occ(proxies[j + 1..], name) == 0
  {
    OccFrom(proxies, j, proxies[j]);
    OccFrom(proxies, j, name);
  }

  // Takes a group's list out of the counts; names no longer listed join the queue.
  method Release<M>(graph: Graph<M>, queue: seq<string>, proxies: seq<string>, ghost name: string)
    returns (g: Graph<M>, q: seq<string>)
    requires forall x :: In(graph, x) >= Occ(proxies, x)
    requires name in graph && graph[name].indegree == 0
    requires QueueIn(graph, queue, {name}) && Fresh(graph)
    ensures SameGroups(graph, g) && g.Keys == graph.Keys && Fresh(g)
    ensures forall x :: In(g, x) == In(graph, x) - Occ(proxies, x)
    ensures QueueIn(g, q, {name})
  {
    g, q := graph, queue;
    assert In(graph, name) == 0 && proxies[0..] == proxies;
    hide Occ, QueueIn, SameGroups, Fresh, In;
    SameGroupsRefl(graph);
    for j := 0 to |proxies|
      invariant SameGroups(graph, g) && g.Keys == graph.Keys && Fresh(g)
      invariant forall x :: In(g, x) == In(graph, x) - Occ(proxies, x) + Occ(proxies[j..], x)
      invariant QueueIn(g, q, {name}) && Occ(proxies[j..], name) == 0
    {
      var proxy := proxies[j];
      NextListed(g, proxies, j, name);
      CountDownKeeps(graph, g, proxy);
      QueueGrows(g, q, proxy, name);
      forall x
        ensures Occ(proxies[j..], x) == Occ(proxies[j + 1..], x) + if proxy == x then 1 else 0
      {
        OccFrom(proxies, j, x);
      }
      g := CountDown(g, proxy);
      if g[proxy].indegree == 0 {
        q := q + [proxy];
      }
    }
    NoneListed(proxies);
  }

  lemma SameGroupsRefl<M>(g: Graph<M>)
    ensures SameGroups(g, g)
  {
  }

  lemma NoneListed(s: seq<string>)
    ensures forall x :: Occ(s[|s|..], x) == 0
  {
  }

  ghost predicate CountsLive<M>(graph: Graph<M>, gs: seq<Group>) {
    forall x :: In(graph, x) == Deg(gs, graph.Keys, x)
  }

  // Where the sort stands: the tail of the array holds the groups taken out so far, in order.
  ghost predicate Placed<M(!new)>(decode: M -> Option<Group>, tail: seq<M>, tg: seq<Group>, live: set<string>) {
    && Decodes(decode, tail, tg) && Ordered(tg)
    && forall v :: 0 <= v < |tg| ==> tg[v].name !in live
  }

  // A group nobody live lists can go in front of the groups taken out before it.
  lemma PlaceInFront<M(!new)>(decode: M -> Option<Group>, tail: seq<M>, tg: seq<Group>, live: set<string>,
                              gs: seq<Group>, m: M, g: Group)
    requires Placed(decode, tail, tg, live) && decode(m) == Some(g) && g.name in live && g in gs
    requires Deg(gs, live, g.name) == 0 && forall x :: x in g.proxies ==> x in live
    ensures Placed(decode, [m] + tail, [g] + tg, live - {g.name})
  {
    DegPositive(gs, live, g.name);
    assert g.name !in g.proxies;
    var tg' := [g] + tg;
    assert forall v :: 1 <= v < |tg'| ==> tg'[v] == tg[v - 1];
    assert Ordered(tg') by {
      forall u, v | 0 <= u < |tg'| && 0 <= v < |tg'| && tg'[v].name in tg'[u].proxies
        ensures v < u
      {
        if u > 0 && v > 0 {
          assert tg[v - 1].name in tg[u - 1].proxies;
        }
      }
    }
  }

  // Taking a node out of the counts: a group's list goes, a mere name changes nothing.
  lemma CountsAfter<M>(graph: Graph<M>, g: Graph<M>, ms: seq<M>, gs: seq<Group>, name: string)
    requires Knows(graph, ms, gs) && DistinctNames(gs) && CountsLive(graph, gs) && name in graph
             && graph[name].indegree == 0
    requires forall x ::
             In(g, x) == In(graph, x) - if graph[name].option.Some? then Occ(graph[name].option.value.proxies, x) else 0
    requires g.Keys == graph.Keys
    ensures CountsLive(g - {name}, gs)
  {
    var h := g - {name};
    assert h.Keys == graph.Keys - {name};
    assert In(graph, name) == 0;
    forall x
      ensures In(h, x) == Deg(gs, h.Keys, x)
    {
      if IsGroup(gs, name) {
        var i :| 0 <= i < |gs| && gs[i].name == name;
        DegWithoutGroup(gs, graph.Keys, i, x);
      } else {
        DegWithout(gs, graph.Keys, name, x);
      }
    }
  }

  ghost predicate Sorting<M(!new)>(decode: M -> Option<Group>, graph: Graph<M>, ms: seq<M>, gs: seq<Group>,
                                   tail: seq<M>, tg: seq<Group>, names: set<string>)
  {
    && Knows(graph, ms, gs) && CountsLive(graph, gs) && Fresh(graph) && graph.Keys <= names
    && Placed(decode, tail, tg, graph.Keys)
    && multiset(tail) + Rest(ms, gs, graph.Keys) == multiset(ms)
    && KeepsPredSets(gs, names, graph.Keys)
  }

  ghost predicate KeepsPredSets(gs: seq<Group>, names: set<string>, live: set<string>) {
    forall c :: HasPreds(gs, c) && c <= names ==> c <= live
  }

  lemma KnowsAfter<M>(graph: Graph<M>, g: Graph<M>, ms: seq<M>, gs: seq<Group>, name: string)
    requires Knows(graph, ms, gs) && SameGroups(graph, g) && g.Keys == graph.Keys && Fresh(g)
    ensures Knows(g - {name}, ms, gs) && Fresh(g - {name})
  {
  }

  lemma PredSetsAfter(gs: seq<Group>, names: set<string>, live: set<string>, x: string)
    requires KeepsPredSets(gs, names, live) && Deg(gs, live, x) == 0
    ensures KeepsPredSets(gs, names, live - {x})
  {
    PeelKeepsPredSets(gs, live, x);
  }

  // A live group's list is live.
  lemma ListedIsLive<M>(graph: Graph<M>, gs: seq<Group>, i: nat)
    requires CountsLive(graph, gs) && i < |gs| && gs[i].name in graph
    ensures forall x :: x in gs[i].proxies ==> x in graph
  {
    forall x | x in gs[i].proxies
      ensures x in graph
    {
      DegPositive(gs, graph.Keys, x);
      assert In(graph, x) > 0;
    }
  }

  // One group goes from the graph to the front of the tail.
  lemma SortedGroup<M(!new)>(decode: M -> Option<Group>, graph: Graph<M>, g: Graph<M>, ms: seq<M>, gs: seq<Group>,
                             tail: seq<M>, tg: seq<Group>, names: set<string>, i: nat)
    requires Sorting(decode, graph, ms, gs, tail, tg, names) && Decodes(decode, ms, gs) && DistinctNames(gs)
    requires i < |gs| && gs[i].name in graph && graph[gs[i].name].indegree == 0
    requires SameGroups(graph, g) && g.Keys == graph.Keys && Fresh(g)
    requires forall x :: In(g, x) == In(graph, x) - Occ(gs[i].proxies, x)
    ensures |tail| < |ms|
    ensures Sorting(decode, g - {gs[i].name}, ms, gs, [ms[i]] + tail, [gs[i]] + tg, names)
  {
    var name, live := gs[i].name, graph.Keys;
    assert In(graph, name) == 0;
    assert Deg(gs, live, name) == 0;
    assert (g - {name}).Keys == live - {name};
    assert graph[name].option == Some(gs[i]);
    KnowsAfter(graph, g, ms, gs, name);
    CountsAfter(graph, g, ms, gs, name);
    ListedIsLive(graph, gs, i);
    PlaceInFront(decode, tail, tg, live, gs, ms[i], gs[i]);
    PredSetsAfter(gs, names, live, name);
    RestWithoutGroup(ms, gs, live, i);
    assert |multiset(tail)| + |Rest(ms, gs, live)| == |multiset(ms)|;
    assert multiset([ms[i]] + tail) == multiset{ms[i]} + multiset(tail);
  }

  // A name without a group just goes.
  lemma SortedName<M(!new)>(decode: M -> Option<Group>, graph: Graph<M>, ms: seq<M>, gs: seq<Group>,
                            tail: seq<M>, tg: seq<Group>, names: set<string>, name: string)
    requires Sorting(decode, graph, ms, gs, tail, tg, names) && DistinctNames(gs)
    requires name in graph && graph[name].indegree == 0 && graph[name].option == None
    ensures Sorting(decode, graph - {name}, ms, gs, tail, tg, names)
  {
    var live := graph.Keys;
    assert !IsGroup(gs, name);
    assert (graph - {name}).Keys == live - {name};
    assert In(graph, name) == Deg(gs, live, name);
    KnowsAfter(graph, graph, ms, gs, name);
    CountsAfter(graph, graph, ms, gs, name);
    PredSetsAfter(gs, names, live, name);
    RestWithout(ms, gs, live, name);
  }

  // Taking the front of the queue out of the graph and the queue.
  lemma QueueAfter<M>(g: Graph<M>, q: seq<string>, name: string)
    requires QueueIn(g, q, {name})
    ensures QueueIn(g - {name}, q, {})
  {
  }

  lemma QueueFront<M>(graph: Graph<M>, queue: seq<string>)
    requires QueueIn(graph, queue, {}) && queue != []
    ensures queue[0] in graph && graph[queue[0]].indegree == 0
    ensures QueueIn(graph, queue[1..], {queue[0]})
  {
    assert queue[0] in queue;
    forall x
      ensures x in queue[1..] <==> x in queue && x != queue[0]
    {
      if x in queue && x != queue[0] {
        var k :| 0 <= k < |queue| && queue[k] == x;
        assert queue[1..][k - 1] == x;
      }
    }
  }

  // The first queue: all nodes of indegree 0, in whatever order the map yields them.
  method FirstQueue<M>(graph: Graph<M>) returns (queue: seq<string>)
    ensures QueueIn(graph, queue, {})
  {
    queue := [];
    var todo := graph.Keys;
    while todo != {}
      invariant todo <= graph.Keys && QueueIn(graph, queue, todo)
      decreases |todo|
    {
      var name :| name in todo;
      todo := todo - {name};
      if graph[name].indegree == 0 {
        queue := queue + [name];
      }
    }
  }

  lemma StartSorting<M(!new)>(decode: M -> Option<Group>, whole: Graph<M>, ms: seq<M>, gs: seq<Group>)
    requires Built(whole, ms, gs)
    ensures Sorting(decode, whole, ms, gs, [], [], whole.Keys)
  {
    assert forall i :: 0 <= i < |gs| ==> gs[i].name in Names(gs);
    RestAll(ms, gs, whole.Keys);
    forall x
      ensures In(whole, x) == Deg(gs, whole.Keys, x)
    {
      DegAll(gs, whole.Keys, Names(gs), x);
    }
  }

  // Which group a node stands for.
  lemma GroupOf<M>(graph: Graph<M>, ms: seq<M>, gs: seq<Group>, name: string) returns (i: nat)
    requires Knows(graph, ms, gs) && name in graph && graph[name].option.Some?
    ensures i < |gs| && gs[i].name == name && graph[name].option == Some(gs[i]) && graph[name].data == Some(ms[i])
  {
    assert IsGroup(gs, name);
    i :| 0 <= i < |gs| && gs[i].name == name;
  }

  // A node without incoming edges is not on its own list, and all it lists can be counted down.
  lemma CanRelease<M>(graph: Graph<M>, gs: seq<Group>, i: nat)
    requires CountsLive(graph, gs) && DistinctNames(gs) && i < |gs| && gs[i].name in graph
    ensures forall x :: In(graph, x) >= Occ(gs[i].proxies, x)
  {
    forall x
      ensures In(graph, x) >= Occ(gs[i].proxies, x)
    {
      DegWithoutGroup(gs, graph.Keys, i, x);
    }
  }

  lemma Smaller<M>(g: Graph<M>, h: Graph<M>, name: string)
    requires g.Keys == h.Keys && name in h
    ensures |h - {name}| < |g|
  {
    assert (h - {name}).Keys == h.Keys - {name};
    assert |g.Keys| == |h.Keys| == |(h - {name}).Keys| + 1;
  }

  // Puts an element in front of the last n.
  method Place<M>(a: array<M>, n: nat, m: M)
    requires n < a.Length
    modifies a
    ensures a[..a.Length - n - 1] == old(a[..a.Length - n - 1])
    ensures a[a.Length - n - 1..] == [m] + old(a[a.Length - n..])
  {
    a[a.Length - n - 1] := m;
  }

  // Where the array stands: its last |tg| entries hold the groups taken out, those before are as they were.
  ghost predicate Halfway<M(!new)>(decode: M -> Option<Group>, now: seq<M>, graph: Graph<M>, ms: seq<M>, gs: seq<Group>,
                                   tg: seq<Group>, names: set<string>)
  {
    && |tg| <= |now| == |ms| && now[..|now| - |tg|] == ms[..|now| - |tg|]
    && Sorting(decode, graph, ms, gs, now[|now| - |tg|..], tg, names)
  }

  lemma HalfwayAfterGroup<M(!new)>(decode: M -> Option<Group>, was: seq<M>, now: seq<M>, graph: Graph<M>, g: Graph<M>,
                                   ms: seq<M>, gs: seq<Group>, tg: seq<Group>, names: set<string>, i: nat)
    requires Halfway(decode, was, graph, ms, gs, tg, names) && i < |gs| == |ms| && |tg| < |was| == |now|
    requires var n := |was| - |tg|; now[..n - 1] == was[..n - 1] && now[n - 1..] == [ms[i]] + was[n..]
    requires Sorting(decode, g, ms, gs, [ms[i]] + was[|was| - |tg|..], [gs[i]] + tg, names)
    ensures Halfway(decode, now, g, ms, gs, [gs[i]] + tg, names)
  {
    hide Sorting;
    var n := |was| - |tg|;
    assert was[..n][..n - 1] == was[..n - 1] && ms[..n][..n - 1] == ms[..n - 1];
  }

  lemma HalfwayAfterName<M(!new)>(decode: M -> Option<Group>, now: seq<M>, graph: Graph<M>, ms: seq<M>, gs: seq<Group>,
                                  tg: seq<Group>, names: set<string>, name: string)
    requires Halfway(decode, now, graph, ms, gs, tg, names) && DistinctNames(gs)
    requires name in graph && graph[name].indegree == 0 && graph[name].option == None
    ensures Halfway(decode, now, graph - {name}, ms, gs, tg, names)
  {
    hide Sorting;
    SortedName(decode, graph, ms, gs, now[|now| - |tg|..], tg, names, name);
  }

  // A turn of the loop for a name that is a group: it goes in front of those taken out before.
  method TakeGroup<M(!new)>(a: array<M>, decode: M -> Option<Group>, graph: Graph<M>, queue: seq<string>, name: string,
                            index: nat, ghost ms: seq<M>, ghost gs: seq<Group>, ghost tg: seq<Group>,
                            ghost names: set<string>)
    returns (g: Graph<M>, q: seq<string>, ghost i: nat)
    requires index == |tg| && Halfway(decode, a[..], graph, ms, gs, tg, names) && Decodes(decode, ms, gs)
             && DistinctNames(gs)
    requires name in graph && graph[name].indegree == 0 && graph[name].option.Some? && QueueIn(graph, queue, {name})
    modifies a
    ensures i < |gs| && index < a.Length && Halfway(decode, a[..], g - {name}, ms, gs, [gs[i]] + tg, names)
    ensures g.Keys == graph.Keys && QueueIn(g, q, {name})
  {
    hide Sorting, QueueIn, Knows, CountsLive, Fresh, SameGroups, In, Occ, DistinctNames, Decodes;
    ghost var was := a[..];
    ghost var tail := was[|was| - |tg|..];
    UnfoldSorting(decode, graph, ms, gs, tail, tg, names);
    i := GroupOf(graph, ms, gs, name);
    CanRelease(graph, gs, i);
    g, q := Release(graph, queue, graph[name].option.value.proxies, name);
    SortedGroup(decode, graph, g, ms, gs, tail, tg, names, i);
    Place(a, index, graph[name].data.value);
    hide Halfway;
    HalfwayAfterGroup(decode, was, a[..], graph, g - {name}, ms, gs, tg, names, i);
  }

  // Step 1.2: the topological sort.  What is left of the graph, and the groups taken out.
  method TopologicalSort<M(!new)>(a: array<M>, decode: M -> Option<Group>, whole: Graph<M>, ghost ms: seq<M>,
                                  ghost gs: seq<Group>)
    returns (graph: Graph<M>, ghost tg: seq<Group>)
    requires a[..] == ms && Built(whole, ms, gs) && Decodes(decode, ms, gs)
    modifies a
    ensures |tg| <= a.Length && a[..a.Length - |tg|] == ms[..a.Length - |tg|]
    ensures Sorting(decode, graph, ms, gs, a[a.Length - |tg|..], tg, whole.Keys)
    ensures QueueIn(graph, [], {})
  {
    hide Built, Sorting, QueueIn, Decodes, DistinctNames;
    assert DistinctNames(gs) && |ms| == |gs| by { Unfold(whole, ms, gs); }
    graph := whole;
    tg := [];
    // how many groups have been placed
    var index := 0;
    var queue := FirstQueue(graph);
    hide Halfway;
    StartHalfway(decode, whole, ms, gs);
    while |queue| > 0
      invariant index == |tg| && Halfway(decode, a[..], graph, ms, gs, tg, whole.Keys)
      invariant QueueIn(graph, queue, {})
      decreases |graph|
    {
      var name := queue[0];
      QueueFront(graph, queue);
      ghost var before := graph;
      queue := queue[1..];
      if graph[name].option != None {
        ghost var i;
        graph, queue, i := TakeGroup(a, decode, graph, queue, name, index, ms, gs, tg, whole.Keys);
        index := index + 1;
        tg := [gs[i]] + tg;
      } else {
        HalfwayAfterName(decode, a[..], graph, ms, gs, tg, whole.Keys, name);
      }
      QueueAfter(graph, queue, name);
      Smaller(before, graph, name);
      graph := graph - {name};
    }
    EndHalfway(decode, a[..], graph, ms, gs, tg, whole.Keys);
    assert a[..][..a.Length - |tg|] == a[..a.Length - |tg|] && a[..][a.Length - |tg|..] == a[a.Length - |tg|..];
    assert queue == [];
  }

  lemma StartHalfway<M(!new)>(decode: M -> Option<Group>, whole: Graph<M>, ms: seq<M>, gs: seq<Group>)
    requires Built(whole, ms, gs)
    ensures Halfway(decode, ms, whole, ms, gs, [], whole.Keys)
  {
    StartSorting(decode, whole, ms, gs);
    hide Sorting, Built;
    assert ms[|ms|..] == [];
  }

  lemma EndHalfway<M(!new)>(decode: M -> Option<Group>, now: seq<M>, graph: Graph<M>, ms: seq<M>, gs: seq<Group>,
                            tg: seq<Group>, names: set<string>)
    requires Halfway(decode, now, graph, ms, gs, tg, names)
    ensures |tg| <= |now| == |ms| && now[..|now| - |tg|] == ms[..|now| - |tg|]
    ensures Sorting(decode, graph, ms, gs, now[|now| - |tg|..], tg, names)
  {
    hide Sorting;
  }

  lemma Unfold<M>(graph: Graph<M>, ms: seq<M>, gs: seq<Group>)
    requires Built(graph, ms, gs)
    ensures DistinctNames(gs) && |ms| == |gs|
  {
  }

  lemma UnfoldSorting<M(!new)>(decode: M -> Option<Group>, graph: Graph<M>, ms: seq<M>, gs: seq<Group>,
                               tail: seq<M>, tg: seq<Group>, names: set<string>)
    requires Sorting(decode, graph, ms, gs, tail, tg, names)
    ensures Knows(graph, ms, gs) && CountsLive(graph, gs) && Fresh(graph) && |tail| == |tg|
  {
  }
}
