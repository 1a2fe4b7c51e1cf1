/**
 The domain trie: nodes with a map of children, shared through references and updated in place.
 */
module Trie {
  import opened Wrappers
  import opened TrieSpec

  class Node<T> {
    var children: map<string, Node<T>>
    var data: Option<T>

    constructor (data: Option<T>)
      ensures children == map[] && this.data == data
    {
      this.data := data;
      children := map[];
    }
  }

  function Extend(p: Path, l: string): Path {
    p + [l]
  }

  // The tree of nodes as a table: `nodes` by path, and every node's children.  The node of a path is
  // reached, label by label, from the root, and no node has two paths.
  ghost predicate Shape<T>(nodes: map<Path, Node<T>>, kids: map<Path, map<string, Node<T>>>) {
    && [] in nodes && kids.Keys == nodes.Keys
    && Injective(nodes) && Links(nodes, kids) && Parents(nodes, kids)
  }

  ghost predicate Injective<T>(nodes: map<Path, Node<T>>) {
    forall p, q :: p in nodes && q in nodes && nodes[p] == nodes[q] ==> p == q
  }

  ghost predicate Links<T>(nodes: map<Path, Node<T>>, kids: map<Path, map<string, Node<T>>>) {
    forall p, l {:trigger Extend(p, l)} :: p in kids && l in kids[p] ==>
      Extend(p, l) in nodes && nodes[Extend(p, l)] == kids[p][l]
  }

  ghost predicate Parents<T>(nodes: map<Path, Node<T>>, kids: map<Path, map<string, Node<T>>>) {
    forall q :: q in nodes && q != [] ==> q[..|q| - 1] in kids && q[|q| - 1] in kids[q[..|q| - 1]]
  }

  lemma ChildOf<T>(nodes: map<Path, Node<T>>, kids: map<Path, map<string, Node<T>>>, p: Path, l: string)
    requires Shape(nodes, kids) && p in nodes
    ensures l in kids[p] <==> Extend(p, l) in nodes
    ensures l in kids[p] ==> nodes[Extend(p, l)] == kids[p][l]
  {
    var q := Extend(p, l);
    assert q[..|q| - 1] == p && q[|q| - 1] == l;
  }

  lemma ExtendIsInjective(p: Path, l: string, q: Path, m: string)
    ensures Extend(p, l) == Extend(q, m) ==> p == q && l == m
  {
    var a, b := Extend(p, l), Extend(q, m);
    assert a[..|a| - 1] == p && b[..|b| - 1] == q && a[|a| - 1] == l && b[|b| - 1] == m;
  }

  // Linking a fresh node under p: every child link leads to the node of the longer path ...
  lemma AddKeepsLinks<T>(nodes: map<Path, Node<T>>, kids: map<Path, map<string, Node<T>>>, p: Path, l: string,
                         child: Node<T>)
    requires Shape(nodes, kids) && p in nodes && Extend(p, l) !in nodes
    ensures Links(nodes[Extend(p, l) := child], kids[p := kids[p][l := child]][Extend(p, l) := map[]])
  {
    hide Injective, Parents;
    var n := Extend(p, l);
    var nodes', kids' := nodes[n := child], kids[p := kids[p][l := child]][n := map[]];
    forall q, m | q in kids' && m in kids'[q]
      ensures Extend(q, m) in nodes' && nodes'[Extend(q, m)] == kids'[q][m]
    {
      ExtendIsInjective(q, m, p, l);
      hide Extend;
    }
  }

  // ... and every path's last step is a child link.
  lemma AddKeepsParents<T>(nodes: map<Path, Node<T>>, kids: map<Path, map<string, Node<T>>>, p: Path, l: string,
                           child: Node<T>)
    requires Shape(nodes, kids) && p in nodes && Extend(p, l) !in nodes
    ensures Parents(nodes[Extend(p, l) := child], kids[p := kids[p][l := child]][Extend(p, l) := map[]])
  {
    hide Injective, Links;
    var n := Extend(p, l);
    assert n[..|n| - 1] == p && n[|n| - 1] == l;
    var nodes', kids' := nodes[n := child], kids[p := kids[p][l := child]][n := map[]];
    forall q | q in nodes' && q != []
      ensures q[..|q| - 1] in kids' && q[|q| - 1] in kids'[q[..|q| - 1]]
    {
      var r := q[..|q| - 1];
      if q != n {
        assert r in kids && q[|q| - 1] in kids[r];
        assert r != n;
      } else {
        assert p != n;
      }
    }
  }

  lemma AddKeepsShape<T>(nodes: map<Path, Node<T>>, kids: map<Path, map<string, Node<T>>>, p: Path, l: string,
                         child: Node<T>)
    requires Shape(nodes, kids) && p in nodes && l !in kids[p] && (forall q :: q in nodes ==> nodes[q] != child)
    ensures Shape(nodes[Extend(p, l) := child], kids[p := kids[p][l := child]][Extend(p, l) := map[]])
  {
    hide Links, Parents, Extend;
    ChildOf(nodes, kids, p, l);
    AddKeepsLinks(nodes, kids, p, l, child);
    AddKeepsParents(nodes, kids, p, l, child);
  }

  // No node has two paths.
  lemma OnePath<T>(nodes: map<Path, Node<T>>, kids: map<Path, map<string, Node<T>>>, p: Path)
    requires Shape(nodes, kids) && p in nodes
    ensures forall q :: q in nodes && nodes[q] == nodes[p] ==> q == p
  {
  }

  // All the way up: every prefix of a node's path has a node.
  lemma {:induction false} PrefixHasNode<T>(nodes: map<Path, Node<T>>, kids: map<Path, map<string, Node<T>>>, p: Path,
                                            q: Path)
    requires Shape(nodes, kids) && q in nodes
    ensures p <= q ==> p in nodes
    decreases |q|
  {
    hide Injective, Links;
    assert p <= q && |p| == |q| ==> p == q;
    if |p| < |q| && p <= q {
      assert p <= q[..|q| - 1];
      PrefixHasNode(nodes, kids, p, q[..|q| - 1]);
    }
  }

  lemma ReversedStep(parts: seq<string>, i: nat)
    requires i < |parts|
    ensures Reversed(parts[i..]) == Extend(Reversed(parts[i + 1..]), parts[i])
  {
    assert parts[i..][1..] == parts[i + 1..];
  }

  lemma NoParts(parts: seq<string>)
    ensures Reversed(parts[|parts|..]) == []
  {
  }

  class DomainTrie<T> {
    const root: Node<T>
    ghost var nodes: map<Path, Node<T>>
    ghost var kids: map<Path, map<string, Node<T>>>
    // The patterns that have data.
    ghost var content: map<Path, T>
    ghost var Repr: set<Node<T>>

    ghost predicate Valid()
      reads this, Repr
    {
      && Shape(nodes, kids) && kids.Keys == nodes.Keys && [] in nodes && nodes[[]] == root
      && content.Keys <= nodes.Keys
      && (forall p :: p in nodes ==> nodes[p] in Repr)
      && (forall p :: p in nodes ==> nodes[p].children == kids[p])
      && (forall p :: p in nodes ==> nodes[p].data == DataAt(content, p))
    }

    // The node stands at the path.
    ghost predicate At(path: Path, node: Node<T>)
      reads this
    {
      path in nodes && nodes[path] == node
    }

    constructor ()
      ensures Valid() && fresh(Repr) && content == map[]
    {
      root := new Node(None);
      new;
      nodes := map[[] := root];
      kids := map[[] := map[]];
      content := map[];
      Repr := {root};
    }

    // Adds a node to the trie; false stands for ErrInvalidDomain.
    method Insert(domain: string, data: Option<T>) returns (ok: bool)
      requires Valid()
      modifies this, Repr
      ensures Valid() && fresh(Repr - old(Repr))
      ensures content == Write(old(content), Targets(domain), data)
      ensures forall h :: old(content) == Replay(h) ==> content == Replay(h + [Insertion(domain, data)])
      ensures ok <==> ValidAndSplitDomain(domain).Some?
    {
      ok := InsertDomain(domain, data);
      forall h | old(content) == Replay(h)
        ensures content == Replay(h + [Insertion(domain, data)])
      {
        ReplaySnoc(h, Insertion(domain, data));
      }
    }

    method InsertDomain(domain: string, data: Option<T>) returns (ok: bool)
      requires Valid()
      modifies this, Repr
      ensures Valid() && fresh(Repr - old(Repr))
      ensures content == Write(old(content), Targets(domain), data)
      ensures ok <==> ValidAndSplitDomain(domain).Some?
    {
      var parts := ValidAndSplitDomain(domain);
      hide Valid, Reversed, Write, ValidAndSplitDomain;
      if parts == None {
        WriteNothing(content, data);
        return false;
      }
      if parts.value[0] == "+" {
        var rest := parts.value[1..];
        WriteTwice(content, {Reversed(rest)}, {Reversed([""] + rest)}, data);
        InsertParts(rest, data);
        InsertParts([""] + rest, data);
        assert {Reversed(rest)} + {Reversed([""] + rest)} == {Reversed(rest), Reversed([""] + rest)};
      } else {
        InsertParts(parts.value, data);
      }
      ok := true;
    }

    method InsertParts(parts: seq<string>, data: Option<T>)
      requires Valid()
      modifies this, Repr
      ensures Valid() && fresh(Repr - old(Repr))
      ensures content == Write(old(content), {Reversed(parts)}, data)
    {
      hide *;
      var node := Walk(parts);
      SetData(node, Reversed(parts), data);
    }

    // The node at the end of a pattern's path, from the last part to the first; nodes missing on the way are
    // added.
    method Walk(parts: seq<string>) returns (node: Node<T>)
      requires Valid()
      modifies this`nodes, this`kids, this`Repr, Repr
      ensures Valid() && fresh(Repr - old(Repr)) && At(Reversed(parts), node)
    {
      RootIsThere();
      NoParts(parts);
      hide *;
      node := root;
      var i := |parts|;
      ghost var path := Reversed(parts[i..]);
      while i > 0
        invariant 0 <= i <= |parts| && path == Reversed(parts[i..]) && Valid() && fresh(Repr - old(Repr))
                  && At(path, node)
      {
        i := i - 1;
        ReversedStep(parts, i);
        node := Child(node, path, parts[i]);
        path := Extend(path, parts[i]);
      }
      assert parts[0..] == parts;
    }

    lemma RootIsThere()
      requires Valid()
      ensures At([], root)
    {
    }

    // The child for a label, added if it is not there
    method Child(node: Node<T>, ghost path: Path, part: string) returns (child: Node<T>)
      requires Valid() && At(path, node)
      modifies this`nodes, this`kids, this`Repr, Repr
      ensures Valid() && fresh(Repr - old(Repr)) && At(Extend(path, part), child)
    {
      hide Shape, DataAt, Extend;
      if part !in node.children {
        child := new Node(None);
        AddChild(node, path, part, child);
      }
      ChildOf(nodes, kids, path, part);
      child := node.children[part];
    }

    method AddChild(node: Node<T>, ghost path: Path, part: string, child: Node<T>)
      requires Valid() && path in nodes && nodes[path] == node && part !in node.children
      requires child !in Repr && child.children == map[] && child.data == None
      modifies this`nodes, this`kids, this`Repr, node`children
      ensures Valid() && Repr == old(Repr) + {child}
      ensures path in nodes && nodes[path] == node && part in node.children
    {
      hide Shape, DataAt, Extend;
      ghost var n := Extend(path, part);
      assert content.Keys <= nodes.Keys && [] in nodes && nodes[[]] == root;
      AddKeepsShape(nodes, kids, path, part, child);
      ChildOf(nodes, kids, path, part);
      OnePath(nodes, kids, path);
      NoData(content, n);
      node.children := node.children[part := child];
      kids := kids[path := kids[path][part := child]][n := map[]];
      nodes := nodes[n := child];
      Repr := Repr + {child};
      assert Shape(nodes, kids) && kids.Keys == nodes.Keys && content.Keys <= nodes.Keys;
      assert nodes[path] == node && [] in nodes && nodes[[]] == root;
      forall p | p in nodes
        ensures nodes[p].children == kids[p] && nodes[p].data == DataAt(content, p) && nodes[p] in Repr
      {
        assert p != n && p != path ==> nodes[p] == old(nodes)[p] != node;
      }
    }

    method SetData(node: Node<T>, ghost path: Path, data: Option<T>)
      requires Valid() && At(path, node)
      modifies this`content, Repr
      ensures Valid() && content == Write(old(content), {path}, data)
    {
      hide Shape, Write, DataAt;
      OnePath(nodes, kids, path);
      WriteAll(content, {path}, data);
      node.data := data;
      content := Write(content, {path}, data);
      forall p | p in nodes
        ensures nodes[p].data == DataAt(content, p) && nodes[p].children == kids[p]
      {
        assert p != path ==> nodes[p] != node;
      }
    }

    // The data of the first matching pattern, or null when none matches; in terms of any history of
    // inserts that has led here, too.
    method Search(domain: string) returns (n: Node?<T>)
      requires Valid()
      ensures forall h :: content == Replay(h) ==> SearchAnswers(h, domain, if n == null then None else n.data)
      ensures n == null <==> NotFound(domain)
      ensures n != null ==> exists q :: Found(domain, q) && n.data == Some(content[q])
    {
      n := SearchDomain(domain);
      hide Valid, Replay, Reversed, ValidAndSplitDomain, NoneMatches, IsBest, FirstAmongInserted;
      forall h | content == Replay(h)
        ensures SearchAnswers(h, domain, if n == null then None else n.data)
      {
        AnswersHistory(h, domain, if n == null then None else n.data);
      }
    }

    method SearchDomain(domain: string) returns (n: Node?<T>)
      requires Valid()
      ensures n == null <==> NotFound(domain)
      ensures n != null ==> exists q :: Found(domain, q) && n.data == Some(content[q])
    {
      hide NoneMatches, IsBest, Shape;
      var parts := ValidAndSplitDomain(domain);
      if parts == None || parts.value[0] == "" {
        return null;
      }
      ghost var d := Reversed(parts.value);
      ReversedNonempty(parts.value);
      BestOrNone(content, d, []);
      hide ValidAndSplitDomain, Reversed, Nonempty;
      assert d[0..] == d;
      n := SearchFrom(root, parts.value, [], d);
      if n == null || n.data == None {
        return null;
      }
      ghost var q :| q in content && IsBest(content, d, [], q) && n.data == Some(content[q]);
      assert Found(domain, q);
    }

    ghost predicate NotFound(domain: string)
      reads this
    {
      var parts := ValidAndSplitDomain(domain);
      parts == None || parts.value[0] == "" || NoneMatches(content, Reversed(parts.value), [])
    }

    // The pattern whose data a search for the domain must give.
    ghost predicate Found(domain: string, q: Path)
      reads this
    {
      var parts := ValidAndSplitDomain(domain);
      parts.Some? && parts.value[0] != "" && IsBest(content, Reversed(parts.value), [], q)
    }

    method SearchFrom(node: Node<T>, parts: seq<string>, ghost p: Path, ghost d: Path) returns (n: Node?<T>)
      requires Valid() && p in nodes && nodes[p] == node
      requires |p| <= |d| && Covers(p, d) && Nonempty(d) && Reversed(parts) == d[|p|..]
      ensures n == null || n.data == None ==> NoneMatches(content, d, p)
      ensures n != null && n.data.Some? ==> exists q ::
              q in content && IsBest(content, d, p, q) && n.data == Some(content[q])
      decreases |parts|
    {
      hide Shape, Matches, Better, IsBest, NoneMatches, Reversed;
      if |parts| == 0 {
        BestAtEnd(content, d, p);
        return node;
      }
      var l := parts[|parts| - 1];
      ReversedLast(parts);
      assert l == d[|p|];
      assert Reversed(parts[..|parts| - 1]) == d[|p| + 1..];
      if l in node.children {
        ChildOf(nodes, kids, p, l);
        n := SearchFrom(node.children[l], parts[..|parts| - 1], Extend(p, l), d);
        if n != null && n.data != None {
          ghost var q :| q in content && IsBest(content, d, Extend(p, l), q) && n.data == Some(content[q]);
          BestThrough(content, d, p, l, q);
          return n;
        }
      } else {
        NoChild(p, l, d);
      }
      if "*" in node.children {
        ChildOf(nodes, kids, p, "*");
        n := SearchFrom(node.children["*"], parts[..|parts| - 1], Extend(p, "*"), d);
        if n != null && n.data != None {
          ghost var q :| q in content && IsBest(content, d, Extend(p, "*"), q) && n.data == Some(content[q]);
          BestThrough(content, d, p, "*", q);
          return n;
        }
      } else {
        NoChild(p, "*", d);
      }
      BestAtDot(content, d, p);
      ChildOf(nodes, kids, p, "");
      n := if "" in node.children then node.children[""] else null;
    }

    lemma NoChild(p: Path, l: string, d: Path)
      requires Valid() && p in nodes && l !in nodes[p].children
      ensures NoneMatches(content, d, Extend(p, l))
    {
      ChildOf(nodes, kids, p, l);
      forall r | r in content
        ensures !(Extend(p, l) <= r)
      {
        PrefixHasNode(nodes, kids, Extend(p, l), r);
      }
    }
  }
}
