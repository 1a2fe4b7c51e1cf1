/**
 What lies on the loops and between them: the names that a path from a cycle leads to, and from
 which a path leads to a cycle.
 */
module DagPaths {
  import opened DagSpec

  ghost predicate Leads(gs: seq<Group>, p: seq<string>, x: string, y: string) {
    p != [] && p[0] == x && p[|p| - 1] == y && IsPath(gs, p)
  }

  ghost predicate After(gs: seq<Group>, c: seq<string>, p: seq<string>, x: string) {
    IsCycle(gs, c) && Leads(gs, p, c[0], x)
  }

  ghost predicate Before(gs: seq<Group>, x: string, p: seq<string>, c: seq<string>) {
    IsCycle(gs, c) && Leads(gs, p, x, c[0])
  }

  ghost predicate OnTheWay(gs: seq<Group>, x: string) {
    (exists c, p :: After(gs, c, p, x)) && exists p, c :: Before(gs, x, p, c)
  }

  ghost predicate OnCycle(gs: seq<Group>, x: string) {
    exists c :: IsCycle(gs, c) && x in Members(c)
  }

  // ----- from closed sets to paths -----

  lemma ComesFromCycle(gs: seq<Group>, s: set<string>, x: string)
    requires HasPreds(gs, s) && x in s
    ensures exists c, p :: After(gs, c, p, x)
  {
    hide HasPreds, IsPath;
    var w := WalkBack(gs, s, x, |s|);
    var i, j := Pigeonhole(w, s);
    PartIsPath(gs, w, i, j + 1);
    PartIsPath(gs, w, i, |w|);
    assert After(gs, w[i..j + 1], w[i..|w|], x);
  }

  lemma {:induction false} WalkOn(gs: seq<Group>, s: set<string>, x: string, n: nat) returns (c: seq<string>)
    requires x in s && HasSuccs(gs, s)
    ensures |c| == n + 1 && IsPath(gs, c) && c[0] == x && forall k :: 0 <= k < |c| ==> c[k] in s
  {
    hide Edge;
    if n == 0 {
      c := [x];
    } else {
      var d := WalkOn(gs, s, x, n - 1);
      assert HasSucc(gs, s, d[n - 1]);
      var y :| y in s && Edge(gs, d[n - 1], y);
      c := d + [y];
      forall i | 0 <= i < |c| - 1
        ensures Step(gs, c, i)
      {
        assert i < n - 1 ==> Step(gs, d, i);
      }
    }
  }

  lemma GoesToCycle(gs: seq<Group>, s: set<string>, x: string)
    requires HasSuccs(gs, s) && x in s
    ensures exists p, c :: Before(gs, x, p, c)
  {
    hide HasSuccs, IsPath;
    var w := WalkOn(gs, s, x, |s|);
    var i, j := Pigeonhole(w, s);
    PartIsPath(gs, w, i, j + 1);
    PartIsPath(gs, w, 0, i + 1);
    assert Before(gs, x, w[0..i + 1], w[i..j + 1]);
  }

  // ----- and back -----

  // On a path every name but the first has a predecessor there, and every name but the last a successor.
  lemma PathLinks(gs: seq<Group>, p: seq<string>, x: string)
    requires p != [] && IsPath(gs, p) && x in Members(p)
    ensures x == p[0] || HasPred(gs, Members(p), x)
    ensures x == p[|p| - 1] || HasSucc(gs, Members(p), x)
  {
    hide Edge;
    var i :| 0 <= i < |p| && p[i] == x;
    if i > 0 {
      assert Step(gs, p, i - 1) && p[i - 1] in Members(p);
    }
    if i < |p| - 1 {
      assert Step(gs, p, i) && p[i + 1] in Members(p);
    }
  }

  lemma MoreHas(gs: seq<Group>, s: set<string>, t: set<string>, x: string)
    requires s <= t
    ensures HasPred(gs, s, x) ==> HasPred(gs, t, x)
    ensures HasSucc(gs, s, x) ==> HasSucc(gs, t, x)
  {
  }

  lemma PathInClosed(gs: seq<Group>, p: seq<string>, s: set<string>)
    requires p != [] && IsPath(gs, p) && Members(p) <= s
    requires HasPred(gs, s, p[0]) && HasSucc(gs, s, p[|p| - 1])
    ensures forall x :: x in Members(p) ==> HasPred(gs, s, x) && HasSucc(gs, s, x)
  {
    hide HasPred, HasSucc, IsPath, Members;
    forall x | x in Members(p)
      ensures HasPred(gs, s, x) && HasSucc(gs, s, x)
    {
      PathLinks(gs, p, x);
      MoreHas(gs, Members(p), s, x);
    }
  }

  // Two cycles and a path from one to the other: everybody on the three lists and is listed by somebody there.
  lemma TwoCyclesClosed(gs: seq<Group>, c: seq<string>, p: seq<string>, d: seq<string>)
    requires IsCycle(gs, c) && IsCycle(gs, d) && Leads(gs, p, c[0], d[0])
    ensures var s := Members(c) + Members(p) + Members(d); HasPreds(gs, s) && HasSuccs(gs, s) && s <= Universe(gs)
  {
    hide HasPred, HasSucc, IsPath, Universe;
    var s := Members(c) + Members(p) + Members(d);
    CycleMembers(gs, c);
    CycleMembers(gs, d);
    forall x | x in Members(c) || x in Members(d)
      ensures HasPred(gs, s, x) && HasSucc(gs, s, x)
    {
      MoreHas(gs, Members(c), s, x);
      MoreHas(gs, Members(d), s, x);
    }
    assert c[0] in Members(c) && d[0] in Members(d);
    PathInClosed(gs, p, s);
    LinkedInUniverse(gs, s, s);
  }

  lemma LinkedInUniverse(gs: seq<Group>, s: set<string>, t: set<string>)
    requires forall x :: x in s ==> HasSucc(gs, t, x)
    ensures s <= Universe(gs)
  {
    forall x | x in s
      ensures x in Universe(gs)
    {
      assert HasSucc(gs, t, x);
    }
  }

  // Two paths, end to end
  lemma Joined(gs: seq<Group>, p: seq<string>, q: seq<string>, x: string, y: string, z: string)
    requires Leads(gs, p, x, y) && Leads(gs, q, y, z)
    ensures Leads(gs, p + q[1..], x, z) && y in Members(p + q[1..])
  {
    hide Edge;
    var r := p + q[1..];
    forall i | 0 <= i < |r| - 1
      ensures Step(gs, r, i)
    {
      assert i < |p| - 1 ==> Step(gs, p, i);
      assert i >= |p| - 1 ==> Step(gs, q, i - (|p| - 1)) && r[i + 1] == q[i + 1 - (|p| - 1)];
    }
    assert r[|p| - 1] == y;
  }

  // A set that holds every set closed both ways, and is closed itself, consists of the names on the way.
  lemma ClosedIsOnTheWay(gs: seq<Group>, s: set<string>)
    requires HasPreds(gs, s) && HasSuccs(gs, s)
    requires forall t :: HasPreds(gs, t) && HasSuccs(gs, t) && t <= Universe(gs) ==> t <= s
    ensures forall x :: x in s <==> OnTheWay(gs, x)
  {
    hide HasPreds, HasSuccs, IsPath, Universe;
    forall x
      ensures x in s <==> OnTheWay(gs, x)
    {
      if x in s {
        ComesFromCycle(gs, s, x);
        GoesToCycle(gs, s, x);
      }
      if OnTheWay(gs, x) {
        var c, p :| After(gs, c, p, x);
        var q, d :| Before(gs, x, q, d);
        Joined(gs, p, q, c[0], x, d[0]);
        TwoCyclesClosed(gs, c, p + q[1..], d);
      }
    }
  }

  // ----- only the loops? -----

  // No path from a cycle to a cycle passes a name off the cycles.
  ghost predicate NothingBetween(gs: seq<Group>) {
    forall c, p, d, x :: IsCycle(gs, c) && Before(gs, c[0], p, d) && x in Members(p) ==> OnCycle(gs, x)
  }

  lemma OnPathIsOnTheWay(gs: seq<Group>, c: seq<string>, p: seq<string>, d: seq<string>, x: string)
    requires IsCycle(gs, c) && Before(gs, c[0], p, d) && x in Members(p)
    ensures OnTheWay(gs, x)
  {
    hide IsPath;
    var i :| 0 <= i < |p| && p[i] == x;
    PartIsPath(gs, p, 0, i + 1);
    PartIsPath(gs, p, i, |p|);
    assert After(gs, c, p[0..i + 1], x);
    assert Before(gs, x, p[i..|p|], d);
  }

  // All names on the way are on cycles exactly if no path between two cycles leaves them.
  lemma OnlyLoops(gs: seq<Group>)
    ensures (forall x :: OnTheWay(gs, x) ==> OnCycle(gs, x)) <==> NothingBetween(gs)
  {
    hide IsPath, Members, OnCycle;
    if forall x :: OnTheWay(gs, x) ==> OnCycle(gs, x) {
      forall c, p, d, x | IsCycle(gs, c) && Before(gs, c[0], p, d) && x in Members(p)
        ensures OnCycle(gs, x)
      {
        OnPathIsOnTheWay(gs, c, p, d, x);
      }
    }
    if NothingBetween(gs) {
      forall x | OnTheWay(gs, x)
        ensures OnCycle(gs, x)
      {
        var c, p :| After(gs, c, p, x);
        var q, d :| Before(gs, x, q, d);
        Joined(gs, p, q, c[0], x, d[0]);
        assert Before(gs, c[0], p + q[1..], d);
      }
    }
  }

  // ----- an example -----

  // Two groups that list themselves, and one between them
  function Chained(): seq<Group> {
    [Group("a", ["a", "x"]), Group("x", ["b"]), Group("b", ["b"])]
  }

  lemma ChainedEdges(x: string, y: string)
    ensures Edge(Chained(), x, y) <==> (x == "a" && (y == "a" || y == "x")) || ((x == "x" || x == "b") && y == "b")
  {
    var gs := Chained();
    assert gs[0].name == "a" && gs[1].name == "x" && gs[2].name == "b";
    assert gs[0].proxies[0] == "a" && gs[0].proxies[1] == "x" && gs[1].proxies[0] == "b" && gs[2].proxies[0] == "b";
  }

  lemma PairIsPath(gs: seq<Group>, x: string, y: string)
    requires Edge(gs, x, y)
    ensures Leads(gs, [x, y], x, y)
  {
    assert forall i :: 0 <= i < 1 ==> Step(gs, [x, y], i);
  }

  lemma MiddleIsOnTheWay()
    ensures OnTheWay(Chained(), "x")
  {
    hide Edge;
    var gs := Chained();
    ChainedEdges("a", "a");
    ChainedEdges("a", "x");
    ChainedEdges("x", "b");
    ChainedEdges("b", "b");
    PairIsPath(gs, "a", "a");
    PairIsPath(gs, "a", "x");
    PairIsPath(gs, "x", "b");
    PairIsPath(gs, "b", "b");
    assert After(gs, ["a", "a"], ["a", "x"], "x");
    assert Before(gs, "x", ["x", "b"], ["b", "b"]);
  }

  // From b a path leads to b only.
  lemma {:induction false} StaysAtB(p: seq<string>, i: nat, j: nat)
    requires IsPath(Chained(), p) && i <= j < |p| && p[i] == "b"
    ensures p[j] == "b"
  {
    hide Edge;
    if i < j {
      StaysAtB(p, i, j - 1);
      assert Step(Chained(), p, j - 1);
      ChainedEdges(p[j - 1], p[j]);
    }
  }

  lemma MiddleIsOnNoCycle()
    ensures !OnCycle(Chained(), "x")
  {
    hide Edge;
    forall c | IsCycle(Chained(), c)
      ensures "x" !in Members(c)
    {
      if "x" in Members(c) {
        var i :| 0 <= i < |c| && c[i] == "x";
        var n := |c| - 1;
        var j := if i == n then 0 else i;
        assert Step(Chained(), c, j);
        ChainedEdges(c[j], c[j + 1]);
        StaysAtB(c, j + 1, n);
        StaysAtB(c, 0, j);
        assert false;
      }
    }
  }
}
