/**
 Domain patterns as a plain table: which patterns match a domain, and which of them comes first.
 A domain or pattern is a path: its labels from right to left.
 */
module TrieSpec {
  import opened Wrappers

  type Path = seq<string>

  // ----- splitting -----

  // strings.Split(s, ".")
  function Split(s: string): (parts: seq<string>)
    ensures |parts| >= 1
  {
    if s == "" then [""]
    else
      var rest := Split(s[1..]);
      if s[0] == '.' then [""] + rest else [[s[0]] + rest[0]] + rest[1..]
  }

  function Join(parts: seq<string>): string
    requires |parts| >= 1
  {
    if |parts| == 1 then parts[0] else parts[0] + "." + Join(parts[1..])
  }

  lemma {:induction false} JoinSplit(s: string)
    ensures Join(Split(s)) == s
    ensures forall i :: 0 <= i < |Split(s)| ==> '.' !in Split(s)[i]
  {
    if s != "" {
      JoinSplit(s[1..]);
      var rest := Split(s[1..]);
      if s[0] == '.' {
        assert Split(s)[1..] == rest;
      } else {
        assert Split(s)[1..] == rest[1..];
      }
    }
  }

  lemma {:induction false} SplitJoin(parts: seq<string>)
    requires |parts| >= 1 && forall i :: 0 <= i < |parts| ==> '.' !in parts[i]
    ensures Split(Join(parts)) == parts
    decreases |parts|, |parts[0]|
  {
    var s := Join(parts);
    if parts[0] == "" {
      if |parts| > 1 {
        assert s[1..] == Join(parts[1..]);
        SplitJoin(parts[1..]);
      }
    } else {
      var shorter := [parts[0][1..]] + parts[1..];
      assert s[1..] == Join(shorter) by {
        assert shorter[1..] == parts[1..];
      }
      assert forall i :: 0 <= i < |shorter| ==> '.' !in shorter[i];
      SplitJoin(shorter);
      assert s[0] == parts[0][0];
      assert [s[0]] + parts[0][1..] == parts[0];
    }
  }

  function ValidAndSplitDomain(domain: string): (r: Option<seq<string>>)
    ensures r.Some? ==> |r.value| >= 1 && Join(r.value) == domain && (|r.value| > 1 || r.value[0] != "")
    ensures r.Some? ==> forall i :: 1 <= i < |r.value| ==> r.value[i] != ""
  {
    JoinSplit(domain);
    if domain != "" && domain[|domain| - 1] == '.' then None
    else
      var parts := Split(domain);
      if |parts| == 1 then
        if parts[0] == "" then None else Some(parts)
      else if "" in parts[1..] then None
      else Some(parts)
  }

  // A dot with no label after it
  predicate BareDot(s: string, i: int) {
    0 <= i < |s| && s[i] == '.' && (i + 1 == |s| || s[i + 1] == '.')
  }

  lemma FirstLabel(s: string)
    ensures Split(s)[0] == "" <==> s == "" || s[0] == '.'
    ensures |Split(s)| == 1 && Split(s)[0] == "" ==> s == ""
  {
  }

  lemma {:induction false} EmptyLabels(s: string)
    ensures "" in Split(s)[1..] <==> exists i :: BareDot(s, i)
  {
    if s != "" {
      var t := s[1..];
      EmptyLabels(t);
      FirstLabel(t);
      assert forall i :: BareDot(t, i) ==> BareDot(s, i + 1);
      assert forall i :: BareDot(s, i) && i > 0 ==> BareDot(t, i - 1);
      var rest := Split(t);
      if s[0] == '.' {
        assert Split(s)[1..] == [rest[0]] + rest[1..];
        assert rest[0] == "" <==> BareDot(s, 0);
      } else {
        assert Split(s)[1..] == rest[1..];
        assert !BareDot(s, 0);
      }
    }
  }

  // The domains refused: the empty one, and those with a dot that no label follows.
  lemma InvalidDomains(domain: string)
    ensures ValidAndSplitDomain(domain) == None <==> domain == "" || exists i :: BareDot(domain, i)
  {
    EmptyLabels(domain);
    FirstLabel(domain);
    assert domain != "" && domain[|domain| - 1] == '.' ==> BareDot(domain, |domain| - 1);
  }

  function Reversed(parts: seq<string>): (path: Path)
    ensures |path| == |parts|
  {
    if parts == [] then [] else Reversed(parts[1..]) + [parts[0]]
  }

  lemma {:induction false} ReversedLast(parts: seq<string>)
    requires parts != []
    ensures Reversed(parts) == [parts[|parts| - 1]] + Reversed(parts[..|parts| - 1])
  {
    if |parts| > 1 {
      ReversedLast(parts[1..]);
      assert parts[1..][..|parts| - 2] == parts[..|parts| - 1][1..];
    }
  }

  lemma {:induction false} ReversedNonempty(parts: seq<string>)
    requires forall i :: 0 <= i < |parts| ==> parts[i] != ""
    ensures Nonempty(Reversed(parts))
  {
    if parts != [] {
      ReversedNonempty(parts[1..]);
    }
  }

  // ----- matching -----

  // A label of a pattern accepts a label of a domain.
  predicate Accepts(part: string, d: string) {
    part == d || part == "*"
  }

  predicate Covers(p: Path, d: Path)
    requires |p| <= |d|
  {
    forall i :: 0 <= i < |p| ==> Accepts(p[i], d[i])
  }

  // A pattern matches label by label; one that begins with a dot (its last label is empty) stands
  // for any domain with at least one more label in its place.
  predicate Matches(p: Path, d: Path) {
    || (|p| == |d| && Covers(p, d))
    || (0 < |p| <= |d| && p[|p| - 1] == "" && Covers(p[..|p| - 1], d))
  }

  // Exact before wildcard before leading dot.
  function Rank(part: string, d: string): nat {
    if part == d then 0 else if part == "*" then 1 else 2
  }

  // Among matching patterns, the one whose first differing label, from the right, ranks lower.
  ghost predicate Better(p: Path, q: Path, d: Path) {
    exists i :: 0 <= i < |p| && i < |q| && i < |d| && BetterAt(p, q, d, i)
  }

  predicate BetterAt(p: Path, q: Path, d: Path, i: nat)
    requires i < |p| && i < |q| && i < |d|
  {
    p[..i] == q[..i] && Rank(p[i], d[i]) < Rank(q[i], d[i])
  }

  predicate Nonempty(d: Path) {
    forall i :: 0 <= i < |d| ==> d[i] != ""
  }

  // Of the patterns that extend `p`, q is the first that matches d.
  ghost predicate IsBest<T>(content: map<Path, T>, d: Path, p: Path, q: Path) {
    && q in content && p <= q && Matches(q, d)
    && forall r :: r in content && p <= r && Matches(r, d) ==> r == q || Better(q, r, d)
  }

  ghost predicate NoneMatches<T>(content: map<Path, T>, d: Path, p: Path) {
    forall r :: r in content && p <= r ==> !Matches(r, d)
  }

  // ----- the order is total on matching patterns, so the best one is unique -----

  lemma {:induction false} FirstDifference(p: Path, q: Path) returns (i: nat)
    ensures i <= |p| && i <= |q| && p[..i] == q[..i] && forall j :: 0 <= j < i ==> p[j] == q[j]
    ensures i < |p| && i < |q| ==> p[i] != q[i]
    decreases |p|
  {
    if p == [] || q == [] || p[0] != q[0] {
      i := 0;
    } else {
      var j := FirstDifference(p[1..], q[1..]);
      i := j + 1;
      assert p[..i] == [p[0]] + p[1..][..j] && q[..i] == [q[0]] + q[1..][..j];
    }
  }

  // A matching pattern's label is the domain's, a wildcard, or the leading dot at its end.
  lemma LabelOf(p: Path, d: Path, i: nat)
    requires Matches(p, d) && Nonempty(d) && i < |p|
    ensures i < |d| && (Accepts(p[i], d[i]) || (p[i] == "" && i == |p| - 1))
  {
    if !(|p| == |d| && Covers(p, d)) && i < |p| - 1 {
      assert p[..|p| - 1][i] == p[i];
    }
  }

  lemma NoMatchIsPrefix(p: Path, q: Path, d: Path)
    requires Matches(p, d) && Matches(q, d) && Nonempty(d) && |p| < |q|
    ensures 0 < |p| && p[|p| - 1] != q[|p| - 1]
  {
    LabelOf(q, d, |p| - 1);
  }

  lemma BetterIsTotal(p: Path, q: Path, d: Path)
    requires Matches(p, d) && Matches(q, d) && Nonempty(d) && p != q
    ensures Better(p, q, d) != Better(q, p, d)
  {
    var i := FirstDifference(p, q);
    if |p| < |q| {
      NoMatchIsPrefix(p, q, d);
    }
    if |q| < |p| {
      NoMatchIsPrefix(q, p, d);
    }
    assert i < |p| && i < |q|;
    LabelOf(p, d, i);
    LabelOf(q, d, i);
    assert BetterAt(p, q, d, i) != BetterAt(q, p, d, i);
    forall a | i < a < |p| && a < |q|
      ensures p[..a] != q[..a]
    {
      assert p[..a][i] == p[i] && q[..a][i] == q[i];
    }
  }

  lemma BestIsUnique<T>(content: map<Path, T>, d: Path, q: Path, r: Path)
    requires Nonempty(d) && IsBest(content, d, [], q) && IsBest(content, d, [], r)
    ensures q == r
  {
    if q != r {
      BetterIsTotal(q, r, d);
    }
  }

  // ----- histories of inserts -----

  // Inserting nil data is allowed and leaves the pattern without data.
  datatype Insertion<T> = Insertion(domain: string, data: Option<T>)

  // The patterns an insert writes: "+.x" stands for both "x" and ".x".
  function Targets(domain: string): set<Path> {
    match ValidAndSplitDomain(domain)
    case None => {}
    case Some(parts) =>
      if parts[0] == "+" then {Reversed(parts[1..]), Reversed([""] + parts[1..])} else {Reversed(parts)}
  }

  function Write<T>(content: map<Path, T>, paths: set<Path>, data: Option<T>): map<Path, T> {
    match data
    case Some(x) => content + (map p | p in paths :: x)
    case None => content - paths
  }

  function DataAt<T>(content: map<Path, T>, p: Path): Option<T> {
    if p in content then Some(content[p]) else None
  }

  lemma WriteAll<T>(content: map<Path, T>, paths: set<Path>, data: Option<T>)
    ensures forall p :: DataAt(Write(content, paths, data), p) == if p in paths then data else DataAt(content, p)
    ensures Write(content, paths, data).Keys <= content.Keys + paths
  {
  }

  lemma WriteNothing<T>(content: map<Path, T>, data: Option<T>)
    ensures Write(content, {}, data) == content
  {
  }

  // Writing some patterns and then others
  lemma WriteTwice<T>(content: map<Path, T>, a: set<Path>, b: set<Path>, data: Option<T>)
    ensures Write(Write(content, a, data), b, data) == Write(content, a + b, data)
  {
  }

  lemma NoData<T>(content: map<Path, T>, p: Path)
    ensures p !in content ==> DataAt(content, p) == None
  {
  }

  function Replay<T>(h: seq<Insertion<T>>): map<Path, T> {
    if h == [] then map[] else Write(Replay(h[..|h| - 1]), Targets(h[|h| - 1].domain), h[|h| - 1].data)
  }

  lemma ReplaySnoc<T>(h: seq<Insertion<T>>, i: Insertion<T>)
    ensures Replay(h + [i]) == Write(Replay(h), Targets(i.domain), i.data)
  {
    assert (h + [i])[..|h|] == h;
  }

  // Insert i is the last that writes pattern q.
  predicate LastWrite<T>(h: seq<Insertion<T>>, i: int, q: Path) {
    0 <= i < |h| && q in Targets(h[i].domain) && forall j :: i < j < |h| ==> q !in Targets(h[j].domain)
  }

  // The table holds, for each pattern, the data inserted last for it, if that was not nil.
  lemma {:induction false} ReplayHoldsLastWrite<T>(h: seq<Insertion<T>>, q: Path)
    ensures forall i :: LastWrite(h, i, q) ==> DataAt(Replay(h), q) == h[i].data
    ensures (forall i :: !LastWrite(h, i, q)) ==> q !in Replay(h)
  {
    if h != [] {
      var n := |h| - 1;
      ReplayHoldsLastWrite(h[..n], q);
      WriteAll(Replay(h[..n]), Targets(h[n].domain), h[n].data);
      LastWriteOf(h, q);
      hide Targets, Write, LastWrite;
      assert q in Targets(h[n].domain) ==> LastWrite(h, n, q);
    }
  }

  // The last write of a pattern is the last insert, if that writes it, and otherwise that of the inserts before.
  lemma LastWriteOf<T>(h: seq<Insertion<T>>, q: Path)
    requires h != []
    ensures var n := |h| - 1;
            if q in Targets(h[n].domain) then forall i :: LastWrite(h, i, q) <==> i == n
            else forall i :: LastWrite(h, i, q) <==> LastWrite(h[..n], i, q)
    ensures forall i :: LastWrite(h[..|h| - 1], i, q) ==> h[..|h| - 1][i] == h[i]
  {
    hide Targets;
    var n := |h| - 1;
    assert forall j :: 0 <= j < n ==> h[..n][j] == h[j];
  }

  // Searching after any history of inserts, with and without the table: the first matching pattern,
  // in the order above, among those whose last insert was not nil.
  ghost predicate FirstAmongInserted<T>(h: seq<Insertion<T>>, d: Path, x: T) {
    exists i, q :: LastWrite(h, i, q) && h[i].data == Some(x) && Matches(q, d)
      && forall j, r :: LastWrite(h, j, r) && h[j].data.Some? && Matches(r, d) ==> r == q || Better(q, r, d)
  }

  lemma BestIsFirstAmongInserted<T>(h: seq<Insertion<T>>, d: Path, q: Path)
    requires IsBest(Replay(h), d, [], q)
    ensures FirstAmongInserted(h, d, Replay(h)[q])
  {
    ReplayHoldsLastWrite(h, q);
    var i :| LastWrite(h, i, q);
    forall j, r | LastWrite(h, j, r) && h[j].data.Some? && Matches(r, d)
      ensures r == q || Better(q, r, d)
    {
      ReplayHoldsLastWrite(h, r);
      assert [] <= r;
    }
  }

  lemma NoneMatchesInserted<T>(h: seq<Insertion<T>>, d: Path)
    ensures NoneMatches(Replay(h), d, []) <==> forall i, q :: LastWrite(h, i, q) && h[i].data.Some? ==> !Matches(q, d)
  {
    forall q
      ensures q in Replay(h) ==> exists i :: LastWrite(h, i, q) && h[i].data.Some?
      ensures forall i :: LastWrite(h, i, q) && h[i].data.Some? ==> q in Replay(h)
    {
      ReplayHoldsLastWrite(h, q);
    }
    hide Replay, LastWrite, Matches;
  }

  // What a search for a domain must give after a history of inserts: nothing for a domain that is not
  // valid or begins with a dot, or if no pattern matches; else the data of the first that does.
  ghost predicate SearchAnswers<T>(h: seq<Insertion<T>>, domain: string, answer: Option<T>) {
    var parts := ValidAndSplitDomain(domain);
    if parts == None || parts.value[0] == "" then answer == None
    else match answer
      case None => forall i, q :: LastWrite(h, i, q) && h[i].data.Some? ==> !Matches(q, Reversed(parts.value))
      case Some(x) => FirstAmongInserted(h, Reversed(parts.value), x)
  }

  lemma AnswersHistory<T>(h: seq<Insertion<T>>, domain: string, answer: Option<T>)
    requires var parts := ValidAndSplitDomain(domain);
             if parts == None || parts.value[0] == "" then answer == None
             else match answer
               case None => NoneMatches(Replay(h), Reversed(parts.value), [])
               case Some(x) => exists q :: IsBest(Replay(h), Reversed(parts.value), [], q) && x == Replay(h)[q]
    ensures SearchAnswers(h, domain, answer)
  {
    hide Replay, Reversed, ValidAndSplitDomain, NoneMatches, FirstAmongInserted;
    var parts := ValidAndSplitDomain(domain);
    if parts.Some? && parts.value[0] != "" {
      var d := Reversed(parts.value);
      NoneMatchesInserted(h, d);
      if answer.Some? {
        var q :| IsBest(Replay(h), d, [], q) && answer.value == Replay(h)[q];
        BestIsFirstAmongInserted(h, d, q);
      }
    }
  }

  lemma BestOrNone<T>(content: map<Path, T>, d: Path, p: Path)
    ensures NoneMatches(content, d, p) ==> forall q :: !IsBest(content, d, p, q)
  {
  }

  // ----- one level of the search -----

  // At the end of the domain only the pattern spelled so far is left.
  lemma BestAtEnd<T>(content: map<Path, T>, d: Path, p: Path)
    requires |p| == |d| && Covers(p, d)
    ensures p in content ==> IsBest(content, d, p, p)
    ensures p !in content ==> NoneMatches(content, d, p)
  {
    assert forall r :: p <= r && Matches(r, d) ==> r == p;
  }

  // A pattern that extends p and matches goes on with the domain's label, a wildcard or a final dot.
  lemma NextLabel(d: Path, p: Path, r: Path)
    requires |p| < |d| && Covers(p, d) && Nonempty(d) && p <= r && Matches(r, d)
    ensures |p| < |r| && p == r[..|p|]
    ensures r[|p|] == d[|p|] || r[|p|] == "*" || r == p + [""]
  {
    assert 0 < |p| ==> Accepts(p[|p| - 1], d[|p| - 1]);
    LabelOf(r, d, |p|);
  }

  // The best below a label is best overall when no label that ranks before it has a match.
  lemma BestThrough<T>(content: map<Path, T>, d: Path, p: Path, l: string, q: Path)
    requires |p| < |d| && Covers(p, d) && Nonempty(d)
    requires l == d[|p|] || (l == "*" && NoneMatches(content, d, p + [d[|p|]]))
    requires IsBest(content, d, p + [l], q)
    ensures IsBest(content, d, p, q)
  {
    var k := |p|;
    assert q[k] == (p + [l])[k] == l && q[..k] == (p + [l])[..k] == p;
    forall r | r in content && p <= r && Matches(r, d)
      ensures r == q || Better(q, r, d)
    {
      NextLabel(d, p, r);
      if r[k] == l {
        assert p + [l] <= r;
      } else {
        assert p + [r[k]] <= r;
        assert BetterAt(q, r, d, k);
      }
    }
  }

  // With nothing matching below the domain's label or the wildcard, the leading dot decides.
  lemma BestAtDot<T>(content: map<Path, T>, d: Path, p: Path)
    requires |p| < |d| && Covers(p, d) && Nonempty(d)
    requires NoneMatches(content, d, p + [d[|p|]]) && NoneMatches(content, d, p + ["*"])
    ensures p + [""] in content ==> IsBest(content, d, p, p + [""])
    ensures p + [""] !in content ==> NoneMatches(content, d, p)
  {
    assert Matches(p + [""], d) by { assert (p + [""])[..|p|] == p; }
    forall r | r in content && p <= r && Matches(r, d)
      ensures r == p + [""]
    {
      NextLabel(d, p, r);
      assert p + [r[|p|]] <= r;
    }
  }
}
