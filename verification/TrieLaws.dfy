/**
 What an insert means, told on strings: which domains each kind of pattern answers for, which of several
 patterns answers, and that there is one answer only.
 */
module TrieLaws {
  import opened Wrappers
  import opened TrieSpec

  // A domain a search can find: not empty, and no label of it is.
  ghost predicate Searchable(d: string) {
    d != "" && d[0] != '.' && forall i :: !BareDot(d, i)
  }

  // Labels to be taken literally
  predicate Plain(x: string) {
    "*" !in Split(x)
  }

  // d is something, a dot, and x.
  predicate Under(d: string, x: string) {
    |d| > |x| && d[|d| - |x| - 1..] == "." + x
  }

  // d is one label, a dot, and x.
  predicate JustUnder(d: string, x: string) {
    Under(d, x) && '.' !in d[..|d| - |x| - 1]
  }

  // ----- strings and labels -----

  function AddFront(c: char, parts: seq<string>): seq<string>
    requires parts != []
  {
    if c == '.' then [""] + parts else [[c] + parts[0]] + parts[1..]
  }

  lemma SplitCons(s: string)
    requires s != ""
    ensures Split(s) == AddFront(s[0], Split(s[1..]))
  {
  }

  lemma FrontOfMore(c: char, a: seq<string>, b: seq<string>)
    requires a != []
    ensures AddFront(c, a + b) == AddFront(c, a) + b
  {
    assert (a + b)[1..] == a[1..] + b;
  }

  lemma NoLabels(b: string)
    ensures "" + "." + b == "." + b && Split("." + b) == Split("") + Split(b)
  {
    assert ("." + b)[1..] == b;
  }

  lemma {:induction false} SplitDot(a: string, b: string)
    ensures Split(a + "." + b) == Split(a) + Split(b)
  {
    hide Split, AddFront;
    if a == "" {
      NoLabels(b);
    } else {
      var s := a + "." + b;
      assert s[1..] == a[1..] + "." + b && s[0] == a[0];
      SplitDot(a[1..], b);
      SplitCons(s);
      SplitCons(a);
      FrontOfMore(a[0], Split(a[1..]), Split(b));
    }
  }

  lemma {:induction false} JoinDot(a: seq<string>, b: seq<string>)
    requires a != [] && b != []
    ensures Join(a + b) == Join(a) + "." + Join(b)
  {
    assert (a + b)[1..] == a[1..] + b;
    if |a| > 1 {
      JoinDot(a[1..], b);
    }
  }

  lemma SplitIsInjective(a: string, b: string)
    ensures Split(a) == Split(b) <==> a == b
  {
    JoinSplit(a);
    JoinSplit(b);
  }

  lemma SearchableLabels(d: string)
    ensures Searchable(d) <==> "" !in Split(d)
  {
    EmptyLabels(d);
    FirstLabel(d);
    assert Split(d) == [Split(d)[0]] + Split(d)[1..];
  }

  // Validity by labels
  lemma ValidIs(d: string)
    ensures ValidAndSplitDomain(d) == if d == "" || "" in Split(d)[1..] then None else Some(Split(d))
  {
    EmptyLabels(d);
    FirstLabel(d);
    assert d != "" && d[|d| - 1] == '.' ==> BareDot(d, |d| - 1);
  }

  // What lies under x has its labels at the end.
  lemma UnderLabels(d: string, x: string)
    ensures Under(d, x) <==> |Split(d)| > |Split(x)| && Split(d)[|Split(d)| - |Split(x)|..] == Split(x)
    ensures Under(d, x) ==> |d| > |x| && Split(d) == Split(d[..|d| - |x| - 1]) + Split(x)
  {
    hide Split;
    if Under(d, x) {
      HasLabelsOf(d, x);
    }
    if |Split(d)| > |Split(x)| && Split(d)[|Split(d)| - |Split(x)|..] == Split(x) {
      LabelsUnder(d, x);
    }
  }

  lemma HasLabelsOf(d: string, x: string)
    requires Under(d, x)
    ensures Split(d) == Split(d[..|d| - |x| - 1]) + Split(x)
    ensures |Split(d)| > |Split(x)| && Split(d)[|Split(d)| - |Split(x)|..] == Split(x)
  {
    hide Split;
    var y := d[..|d| - |x| - 1];
    assert d == y + "." + x;
    SplitDot(y, x);
  }

  lemma LabelsUnder(d: string, x: string)
    requires |Split(d)| > |Split(x)| && Split(d)[|Split(d)| - |Split(x)|..] == Split(x)
    ensures Under(d, x)
  {
    hide Split, Join;
    var a := Split(d)[..|Split(d)| - |Split(x)|];
    assert Split(d) == a + Split(x);
    JoinDot(a, Split(x));
    JoinSplit(d);
    JoinSplit(x);
    assert d == Join(a) + "." + x;
  }

  lemma {:induction false} LabelCount(s: string)
    ensures |Split(s)| == 1 <==> '.' !in s
  {
    if s != "" {
      LabelCount(s[1..]);
    }
  }

  lemma JustUnderLabels(d: string, x: string)
    ensures JustUnder(d, x) <==> |Split(d)| == |Split(x)| + 1 && Split(d)[1..] == Split(x)
  {
    UnderLabels(d, x);
    if Under(d, x) {
      LabelCount(d[..|d| - |x| - 1]);
    }
  }

  // ----- patterns and labels -----

  lemma {:induction false} ReversedAt(parts: seq<string>, i: nat)
    requires i < |parts|
    ensures Reversed(parts)[i] == parts[|parts| - 1 - i]
  {
    if i < |parts| - 1 {
      ReversedAt(parts[1..], i);
    }
  }

  lemma ReversedAll(parts: seq<string>)
    ensures forall i :: 0 <= i < |parts| ==> Reversed(parts)[i] == parts[|parts| - 1 - i]
  {
    forall i | 0 <= i < |parts|
      ensures Reversed(parts)[i] == parts[|parts| - 1 - i]
    {
      ReversedAt(parts, i);
    }
  }

  // Labels accept those of d from position k on, one by one.
  predicate Along(p: seq<string>, d: seq<string>, k: int) {
    0 <= k && k + |p| <= |d| && forall i :: 0 <= i < |p| ==> Accepts(p[i], d[k + i])
  }

  // Matching, from left to right
  predicate Fits(p: seq<string>, d: seq<string>) {
    || (|p| == |d| && Along(p, d, 0))
    || (p != [] && p[0] == "" && Along(p[1..], d, |d| - |p| + 1) && |p| <= |d|)
  }

  // A pattern going back along a domain, and going forward
  lemma BackAndForth(p: seq<string>, d: seq<string>, n: nat)
    requires n <= |p| && n <= |d|
    ensures Along(p[|p| - n..], d, |d| - n) <==> Covers(Reversed(p)[..n], Reversed(d))
  {
    ReversedAll(p);
    ReversedAll(d);
    hide Accepts, Reversed;
    var rp, rd, q := Reversed(p), Reversed(d), p[|p| - n..];
    if Along(q, d, |d| - n) {
      forall i | 0 <= i < n
        ensures Accepts(rp[..n][i], rd[i])
      {
        assert Accepts(q[n - 1 - i], d[|d| - n + (n - 1 - i)]);
      }
    }
    if Covers(rp[..n], rd) {
      forall i | 0 <= i < n
        ensures Accepts(q[i], d[|d| - n + i])
      {
        assert Accepts(rp[..n][n - 1 - i], rd[n - 1 - i]);
      }
    }
  }

  lemma MatchesIsFits(p: seq<string>, d: seq<string>)
    ensures Matches(Reversed(p), Reversed(d)) <==> Fits(p, d)
  {
    hide Along, Covers, Accepts, Reversed;
    if p == [] {
      NothingFits(d);
    } else if |p| <= |d| {
      var n := |p| - 1;
      BackAndForth(p, d, n);
      BackAndForth(p, d, |p|);
      ReversedAt(p, n);
      assert p[|p| - n..] == p[1..] && p[|p| - |p|..] == p && Reversed(p)[..|p|] == Reversed(p);
    }
  }

  lemma NothingFits(d: seq<string>)
    ensures Matches(Reversed([]), Reversed(d)) <==> Fits([], d)
  {
  }

  lemma {:induction false} ReversedIsInjective(a: seq<string>, b: seq<string>)
    ensures Reversed(a) == Reversed(b) <==> a == b
  {
    ReversedAll(a);
    ReversedAll(b);
    if Reversed(a) == Reversed(b) {
      forall i | 0 <= i < |a|
        ensures a[i] == b[i]
      {
        assert Reversed(a)[|a| - 1 - i] == Reversed(b)[|a| - 1 - i];
      }
    }
  }

  // ----- one insert -----

  // The first label is not the plus sign that stands for two patterns.
  predicate NoPlus(x: string) {
    x != "+" && !("+." <= x)
  }

  lemma FirstPlus(x: string)
    ensures NoPlus(x) <==> Split(x)[0] != "+"
  {
    if x != "" {
      SplitCons(x);
      FirstLabel(x[1..]);
      var first := Split(x[1..])[0];
      assert ([x[0]] + first)[1..] == first && ([x[0]] + first)[0] == x[0];
      assert [x[0]] + first == "+" <==> x[0] == '+' && first == "";
      assert x[0] == '+' && x[1..] == "" ==> x == "+";
      assert "+." <= x <==> x[0] == '+' && x[1..] != "" && x[1] == '.';
    }
  }

  lemma OneLabel(l: string)
    requires '.' !in l
    ensures Split(l) == [l]
  {
    LabelCount(l);
    JoinSplit(l);
  }

  lemma SearchableParts(d: string)
    ensures Searchable(d) ==> ValidAndSplitDomain(d) == Some(Split(d)) && Split(d)[0] != ""
    ensures !Searchable(d) ==> ValidAndSplitDomain(d) == None || ValidAndSplitDomain(d).value[0] == ""
  {
    SearchableLabels(d);
    ValidIs(d);
    assert Split(d) == [Split(d)[0]] + Split(d)[1..];
    JoinSplit(d);
  }

  lemma PlainTargets(x: string)
    requires ValidAndSplitDomain(x).Some? && NoPlus(x)
    ensures Targets(x) == {Reversed(Split(x))}
  {
    ValidIs(x);
    FirstPlus(x);
  }

  lemma PlusTargets(x: string)
    requires Searchable(x)
    ensures Targets("+." + x) == {Reversed(Split(x)), Reversed([""] + Split(x))}
  {
    OneLabel("+");
    SplitDot("+", x);
    assert "+" + "." + x == "+." + x;
    SearchableLabels(x);
    ValidIs("+." + x);
    assert Split("+." + x)[1..] == Split(x);
  }

  // A single pattern among the targets matches, or none does.
  lemma OneInsert<T>(pattern: string, v: T, d: string, hit: bool, q: Path)
    requires Searchable(d) && (hit ==> q in Targets(pattern) && Matches(q, Reversed(Split(d))))
    requires forall r :: r in Targets(pattern) && Matches(r, Reversed(Split(d))) ==> hit && r == q
    ensures SearchAnswers([Insertion(pattern, Some(v))], d, if hit then Some(v) else None)
  {
    hide Targets, Matches, Reversed, Split, Searchable, ValidAndSplitDomain;
    SearchableParts(d);
    var h := [Insertion(pattern, Some(v))];
    assert forall i, r :: LastWrite(h, i, r) <==> i == 0 && r in Targets(pattern);
    hide LastWrite;
    if hit {
      assert LastWrite(h, 0, q) && h[0].data == Some(v);
      assert FirstAmongInserted(h, Reversed(Split(d)), v);
    }
  }

  lemma Unsearchable<T>(h: seq<Insertion<T>>, d: string)
    ensures !Searchable(d) ==> SearchAnswers(h, d, None)
  {
    hide Searchable, FirstAmongInserted;
    SearchableParts(d);
  }

  lemma OnePattern<T>(pattern: string, v: T, d: string)
    requires ValidAndSplitDomain(pattern).Some? && NoPlus(pattern)
    ensures SearchAnswers([Insertion(pattern, Some(v))], d,
                          if Searchable(d) && Fits(Split(pattern), Split(d)) then Some(v) else None)
  {
    hide SearchAnswers, Fits, Searchable;
    Unsearchable([Insertion(pattern, Some(v))], d);
    if Searchable(d) {
      PlainTargets(pattern);
      MatchesIsFits(Split(pattern), Split(d));
      hide *;
      OneInsert(pattern, v, d, Fits(Split(pattern), Split(d)), Reversed(Split(pattern)));
    }
  }

  // ----- which domains a pattern fits -----

  // Labels without a star are those of the domain.
  lemma PlainAlong(p: seq<string>, d: seq<string>, k: nat)
    requires "*" !in p
    ensures Along(p, d, k) <==> k + |p| <= |d| && d[k..k + |p|] == p
  {
    assert forall i :: 0 <= i < |p| ==> p[i] in p;
    if k + |p| <= |d| && d[k..k + |p|] == p {
      forall i | 0 <= i < |p|
        ensures Accepts(p[i], d[k + i])
      {
        assert d[k + i] == d[k..k + |p|][i];
      }
    }
  }

  lemma AlongBoth(a: seq<string>, b: seq<string>, d: seq<string>, k: nat)
    ensures Along(a + b, d, k) <==> Along(a, d, k) && Along(b, d, k + |a|)
  {
    hide Accepts;
    var q := a + b;
    if Along(q, d, k) {
      forall i | 0 <= i < |b|
        ensures Accepts(b[i], d[k + |a| + i])
      {
        assert Accepts(q[|a| + i], d[k + (|a| + i)]);
      }
      forall i | 0 <= i < |a|
        ensures Accepts(a[i], d[k + i])
      {
        assert Accepts(q[i], d[k + i]);
      }
    }
    if Along(a, d, k) && Along(b, d, k + |a|) {
      forall i | 0 <= i < |q|
        ensures Accepts(q[i], d[k + i])
      {
        if i >= |a| {
          assert Accepts(b[i - |a|], d[k + |a| + (i - |a|)]);
        }
      }
    }
  }

  lemma OneAlong(l: string, d: seq<string>, k: nat)
    ensures Along([l], d, k) <==> k < |d| && (l == d[k] || l == "*")
  {
    if k < |d| {
      assert Along([l], d, k) <==> Accepts([l][0], d[k + 0]);
    }
  }

  lemma PlainFits(p: seq<string>, d: seq<string>)
    requires p != [] && "*" !in p && "" !in p
    ensures Fits(p, d) <==> p == d
  {
    assert p[0] in p;
    hide Along;
    PlainAlong(p, d, 0);
    assert |p| == |d| ==> d[0..|p|] == d;
  }

  lemma DotFits(p: seq<string>, d: seq<string>)
    requires p != [] && "*" !in p && d != [] && d[0] != ""
    ensures Fits([""] + p, d) <==> |d| > |p| && d[|d| - |p|..] == p
  {
    hide Along;
    AlongBoth([""], p, d, 0);
    OneAlong("", d, 0);
    assert ([""] + p)[1..] == p;
    if |d| > |p| {
      PlainAlong(p, d, |d| - |p|);
      assert d[|d| - |p|..|d| - |p| + |p|] == d[|d| - |p|..];
    }
  }

  // A star among plain labels
  lemma StarFits(a: seq<string>, p: seq<string>, d: seq<string>)
    requires "*" !in a && "*" !in p && (a != [] ==> a[0] != "")
    ensures Fits(a + ["*"] + p, d) <==> |d| == |a| + 1 + |p| && d[..|a|] == a && d[|a| + 1..] == p
  {
    hide Along;
    assert (a + ["*"] + p)[0] != "";
    AlongBoth(a + ["*"], p, d, 0);
    AlongBoth(a, ["*"], d, 0);
    OneAlong("*", d, |a|);
    PlainAlong(a, d, 0);
    PlainAlong(p, d, |a| + 1);
    if |d| == |a| + 1 + |p| {
      assert d[0..0 + |a|] == d[..|a|] && d[|a| + 1..|a| + 1 + |p|] == d[|a| + 1..];
    }
  }

  // ----- the laws -----

  // A domain answers for itself.
  lemma DomainLaw<T>(x: string, v: T, d: string)
    requires Searchable(x) && Plain(x) && NoPlus(x)
    ensures SearchAnswers([Insertion(x, Some(v))], d, if d == x then Some(v) else None)
  {
    hide SearchAnswers, Fits, Searchable, NoPlus;
    SearchableLabels(x);
    SearchableParts(x);
    PlainFits(Split(x), Split(d));
    SplitIsInjective(x, d);
    OnePattern(x, v, d);
  }

  // .x answers for everything under x, at any depth.
  lemma DotLaw<T>(x: string, v: T, d: string)
    requires Searchable(x) && Plain(x)
    ensures SearchAnswers([Insertion("." + x, Some(v))], d, if Searchable(d) && Under(d, x) then Some(v) else None)
  {
    hide SearchAnswers, Fits, Searchable, Under, Split, Plain, NoPlus, ValidAndSplitDomain;
    DotParts(x);
    UnderLabels(d, x);
    SearchableLabels(d);
    PlainLabels(x);
    if "" !in Split(d) {
      assert Split(d)[0] in Split(d);
      DotFits(Split(x), Split(d));
    }
    OnePattern("." + x, v, d);
  }

  lemma DotParts(x: string)
    requires Searchable(x)
    ensures Split("." + x) == [""] + Split(x) && ValidAndSplitDomain("." + x).Some? && NoPlus("." + x)
  {
    hide Searchable, Split, ValidAndSplitDomain;
    OneLabel("");
    SearchableLabels(x);
    LabelsAfter("", x);
    assert "" + "." + x == "." + x;
    FirstPlus("." + x);
  }

  // +.x answers for x and for everything under it.
  lemma PlusLaw<T>(x: string, v: T, d: string)
    requires Searchable(x) && Plain(x)
    ensures SearchAnswers([Insertion("+." + x, Some(v))], d,
                          if Searchable(d) && (d == x || Under(d, x)) then Some(v) else None)
  {
    hide SearchAnswers, Fits, Searchable, Under, Reversed, Matches, Targets;
    Unsearchable([Insertion("+." + x, Some(v))], d);
    if Searchable(d) {
      var p, q := Split(x), [""] + Split(x);
      PlusTargets(x);
      SearchableLabels(x);
      SearchableLabels(d);
      assert Split(d)[0] in Split(d);
      PlainFits(p, Split(d));
      DotFits(p, Split(d));
      SplitIsInjective(x, d);
      UnderLabels(d, x);
      MatchesIsFits(p, Split(d));
      MatchesIsFits(q, Split(d));
      OneInsert("+." + x, v, d, d == x || Under(d, x), Reversed(if d == x then p else q));
    }
  }

  // *.x answers for what is one label longer.
  lemma StarLaw<T>(x: string, v: T, d: string)
    requires Searchable(x) && Plain(x)
    ensures SearchAnswers([Insertion("*." + x, Some(v))], d, if Searchable(d) && JustUnder(d, x) then Some(v) else None)
  {
    hide SearchAnswers, Fits, Searchable, JustUnder, Split, Plain, NoPlus, ValidAndSplitDomain;
    StarParts(x);
    JustUnderLabels(d, x);
    PlainLabels(x);
    assert [] + ["*"] + Split(x) == ["*"] + Split(x);
    StarFits([], Split(x), Split(d));
    OnePattern("*." + x, v, d);
  }

  lemma StarParts(x: string)
    requires Searchable(x)
    ensures Split("*." + x) == ["*"] + Split(x) && ValidAndSplitDomain("*." + x).Some? && NoPlus("*." + x)
  {
    hide Searchable, Split, ValidAndSplitDomain;
    OneLabel("*");
    SearchableLabels(x);
    LabelsAfter("*", x);
    assert "*" + "." + x == "*." + x;
    FirstPlus("*." + x);
  }

  // d is a, a dot, one label, a dot, and x.
  predicate Between(d: string, a: string, x: string) {
    a + "." <= d && JustUnder(d[|a| + 1..], x)
  }

  // a.*.x answers for the domains with one label in between.
  lemma InnerStarLaw<T>(a: string, x: string, v: T, d: string)
    requires Searchable(a) && Plain(a) && NoPlus(a) && Searchable(x) && Plain(x)
    ensures SearchAnswers([Insertion(a + ".*." + x, Some(v))], d,
                          if Searchable(d) && Between(d, a, x) then Some(v) else None)
  {
    hide SearchAnswers, Fits, Searchable, Between, Split, Plain, ValidAndSplitDomain, NoPlus;
    InnerParts(a, x);
    BetweenLabels(d, a, x);
    PlainLabels(a);
    PlainLabels(x);
    StarFits(Split(a), Split(x), Split(d));
    OnePattern(a + ".*." + x, v, d);
  }

  lemma PlainLabels(x: string)
    requires Searchable(x) && Plain(x)
    ensures "*" !in Split(x) && Split(x)[0] != ""
  {
    FirstLabel(x);
  }

  lemma InnerParts(a: string, x: string)
    requires Searchable(a) && NoPlus(a) && Searchable(x)
    ensures var p := a + ".*." + x;
            Split(p) == Split(a) + ["*"] + Split(x) && ValidAndSplitDomain(p).Some? && NoPlus(p)
  {
    hide Searchable, Split, ValidAndSplitDomain, NoPlus;
    var p, y := a + ".*." + x, "*." + x;
    OneLabel("*");
    SearchableLabels(x);
    SearchableLabels(a);
    LabelsAfter("*", x);
    assert "*" + "." + x == y && a + "." + y == p;
    assert "" !in Split(y);
    LabelsAfter(a, y);
    assert Split(a) + (["*"] + Split(x)) == Split(a) + ["*"] + Split(x);
    FirstPlus(a);
    FirstPlus(p);
  }

  lemma BetweenLabels(d: string, a: string, x: string)
    ensures Between(d, a, x) <==> |Split(d)| == |Split(a)| + 1 + |Split(x)| && Split(d)[..|Split(a)|] == Split(a)
                                  && Split(d)[|Split(a)| + 1..] == Split(x)
  {
    hide Split, Join, JustUnder;
    var k := |Split(a)|;
    if a + "." <= d {
      var e := d[|a| + 1..];
      assert d == a + "." + e;
      SplitDot(a, e);
      JustUnderLabels(e, x);
      assert Split(d)[k + 1..] == Split(e)[1..];
    }
    if |Split(d)| > k && Split(d)[..k] == Split(a) {
      var rest := Split(d)[k..];
      assert Split(d) == Split(a) + rest;
      JoinDot(Split(a), rest);
      JoinSplit(d);
      JoinSplit(a);
      assert d == a + "." + Join(rest);
    }
  }

  // A label or more, a dot, and a searchable domain make a valid pattern.
  lemma LabelsAfter(a: string, x: string)
    requires "" !in Split(x) || Searchable(x)
    requires "" !in Split(a)[1..]
    ensures Split(a + "." + x) == Split(a) + Split(x) && ValidAndSplitDomain(a + "." + x).Some?
  {
    SearchableLabels(x);
    SplitDot(a, x);
    ValidIs(a + "." + x);
    assert (Split(a) + Split(x))[1..] == Split(a)[1..] + Split(x);
  }

  // ----- several inserts -----

  // There is one answer only.
  lemma AnswerIsUnique<T>(h: seq<Insertion<T>>, d: string, a: Option<T>, b: Option<T>)
    requires SearchAnswers(h, d, a) && SearchAnswers(h, d, b)
    ensures a == b
  {
    SearchableParts(d);
    SearchableLabels(d);
    if Searchable(d) && a.Some? && b.Some? {
      FirstIsUnique(h, Split(d), a.value, b.value);
    }
  }

  lemma FirstIsUnique<T>(h: seq<Insertion<T>>, d: seq<string>, x: T, y: T)
    requires "" !in d && FirstAmongInserted(h, Reversed(d), x) && FirstAmongInserted(h, Reversed(d), y)
    ensures x == y
  {
    hide Matches, Better, Targets, Reversed;
    var i, q :| LastWrite(h, i, q) && h[i].data == Some(x) && Matches(q, Reversed(d))
      && forall j, r :: LastWrite(h, j, r) && h[j].data.Some? && Matches(r, Reversed(d)) ==>
           r == q || Better(q, r, Reversed(d));
    var j, r :| LastWrite(h, j, r) && h[j].data == Some(y) && Matches(r, Reversed(d))
      && forall i, q :: LastWrite(h, i, q) && h[i].data.Some? && Matches(q, Reversed(d)) ==>
           q == r || Better(r, q, Reversed(d));
    if q == r {
      OneLastWrite(h, i, j, q);
    } else {
      ReversedNonempty(d);
      BetterIsTotal(q, r, Reversed(d));
    }
  }

  lemma OneLastWrite<T>(h: seq<Insertion<T>>, i: int, j: int, q: Path)
    requires LastWrite(h, i, q) && LastWrite(h, j, q)
    ensures i == j
  {
    hide Targets;
  }

  // The last insert of a domain counts, and nil takes it out.
  lemma OverwriteLaw<T>(x: string, v: T, w: Option<T>, d: string)
    requires Searchable(x) && Plain(x) && NoPlus(x)
    ensures SearchAnswers([Insertion(x, Some(v)), Insertion(x, w)], d, if d == x then w else None)
  {
    hide Searchable, Reversed, Matches, Split, Plain, ValidAndSplitDomain;
    var h := [Insertion(x, Some(v)), Insertion(x, w)];
    Unsearchable(h, d);
    SearchableParts(d);
    SearchableParts(x);
    if Searchable(d) {
      PlainTargets(x);
      PlainMatches(x, d);
      hide Targets;
      assert h[0].domain == x && h[1].domain == x;
      assert forall i, r :: LastWrite(h, i, r) <==> i == 1 && r == Reversed(Split(x));
      hide LastWrite;
      if d == x && w.Some? {
        var q := Reversed(Split(x));
        assert LastWrite(h, 1, q) && h[1].data == Some(w.value) && Matches(q, Reversed(Split(d)));
        assert FirstAmongInserted(h, Reversed(Split(d)), w.value);
      }
    }
  }

  lemma PlainMatches(x: string, d: string)
    requires Searchable(x) && Plain(x)
    ensures Matches(Reversed(Split(x)), Reversed(Split(d))) <==> d == x
  {
    hide Matches, Fits;
    SearchableLabels(x);
    MatchesIsFits(Split(x), Split(d));
    PlainFits(Split(x), Split(d));
    SplitIsInjective(x, d);
  }

  // Of patterns that differ in one label, the one whose label ranks lower comes first.
  lemma BetterLabel(l: string, m: string, p: seq<string>, d: Path)
    requires |d| > |p| && Rank(l, d[|p|]) < Rank(m, d[|p|])
    ensures Better(Reversed([l] + p), Reversed([m] + p), d)
  {
    var a, b := Reversed([l] + p), Reversed([m] + p);
    assert ([l] + p)[1..] == p && ([m] + p)[1..] == p;
    assert a == Reversed(p) + [l] && b == Reversed(p) + [m];
    assert a[..|p|] == Reversed(p) == b[..|p|];
    assert BetterAt(a, b, d, |p|);
  }

  // What the three patterns with one label before x answer, in whatever order they were inserted: the
  // literal one for its domain, the star for other domains one label longer, the dot for what is deeper.
  ghost predicate Three<T>(h: seq<Insertion<T>>, i: nat, j: nat, k: nat, l: string, x: string, u: T, v: T, w: T) {
    && |h| == 3 && i < 3 && j < 3 && k < 3 && i != j && j != k && i != k
    && h[i] == Insertion(l + "." + x, Some(u)) && h[j] == Insertion("*." + x, Some(v))
    && h[k] == Insertion("." + x, Some(w))
  }

  function ThreeAnswer<T>(l: string, x: string, u: T, v: T, w: T, d: string): Option<T> {
    if d == l + "." + x then Some(u) else if JustUnder(d, x) then Some(v) else if Under(d, x) then Some(w) else None
  }

  lemma PriorityLaw<T>(h: seq<Insertion<T>>, i: nat, j: nat, k: nat, l: string, x: string, u: T, v: T, w: T, d: string)
    requires Searchable(x) && Plain(x) && l != "" && l != "*" && l != "+" && '.' !in l
             && Three(h, i, j, k, l, x, u, v, w)
    ensures SearchAnswers(h, d, if Searchable(d) then ThreeAnswer(l, x, u, v, w, d) else None)
  {
    hide SearchAnswers, Searchable, Split, Plain, Three, ThreeAnswer;
    Unsearchable(h, d);
    if Searchable(d) {
      ThreeWrites(h, i, j, k, l, x, u, v, w);
      ThreeMatches(l, x, d);
      SearchableParts(d);
      SearchableLabels(d);
      ThreeRanked(h, i, j, k, l, x, u, v, w, d);
    }
  }

  lemma ThreeWrites<T>(h: seq<Insertion<T>>, i: nat, j: nat, k: nat, l: string, x: string, u: T, v: T, w: T)
    requires Searchable(x) && l != "" && l != "*" && l != "+" && '.' !in l && Three(h, i, j, k, l, x, u, v, w)
    ensures forall n, r :: LastWrite(h, n, r) <==>
              || (n == i && r == Reversed([l] + Split(x)))
              || (n == j && r == Reversed(["*"] + Split(x)))
              || (n == k && r == Reversed([""] + Split(x)))
  {
    hide Searchable, Split, Reversed, ValidAndSplitDomain;
    OneTarget(l, x);
    OneTarget("*", x);
    OneTarget("", x);
    assert "*" + "." + x == "*." + x && "" + "." + x == "." + x;
    hide Targets;
    ReversedIsInjective([l] + Split(x), ["*"] + Split(x));
    ReversedIsInjective([l] + Split(x), [""] + Split(x));
    ReversedIsInjective([""] + Split(x), ["*"] + Split(x));
    assert ([l] + Split(x))[0] == l && (["*"] + Split(x))[0] == "*" && ([""] + Split(x))[0] == "";
  }

  lemma OneTarget(l: string, x: string)
    requires Searchable(x) && l != "+" && '.' !in l
    ensures Targets(l + "." + x) == {Reversed([l] + Split(x))}
  {
    hide Searchable, Split;
    OneLabel(l);
    SearchableLabels(x);
    LabelsAfter(l, x);
    FirstPlus(l + "." + x);
    PlainTargets(l + "." + x);
    hide ValidAndSplitDomain;
    ValidIs(l + "." + x);
  }

  lemma ThreeMatches(l: string, x: string, d: string)
    requires Searchable(x) && Plain(x) && l != "" && l != "*" && '.' !in l && Searchable(d)
    ensures var p, rd := Split(x), Reversed(Split(d));
            && (Matches(Reversed([l] + p), rd) <==> d == l + "." + x)
            && (Matches(Reversed(["*"] + p), rd) <==> JustUnder(d, x))
            && (Matches(Reversed([""] + p), rd) <==> Under(d, x))
  {
    hide Searchable, Matches, Reversed, Fits, Under, JustUnder, Split;
    var p := Split(x);
    MatchesIsFits([l] + p, Split(d));
    MatchesIsFits(["*"] + p, Split(d));
    MatchesIsFits([""] + p, Split(d));
    SearchableLabels(x);
    SearchableLabels(d);
    OneLabel(l);
    SplitDot(l, x);
    SplitIsInjective(d, l + "." + x);
    PlainFits([l] + p, Split(d));
    assert [] + ["*"] + p == ["*"] + p;
    StarFits([], p, Split(d));
    JustUnderLabels(d, x);
    assert Split(d)[0] in Split(d);
    DotFits(p, Split(d));
    UnderLabels(d, x);
  }

  lemma ThreeRanked<T>(h: seq<Insertion<T>>, i: nat, j: nat, k: nat, l: string, x: string, u: T, v: T, w: T, d: string)
    requires Three(h, i, j, k, l, x, u, v, w) && l != "" && l != "*" && '.' !in l
    requires ValidAndSplitDomain(d) == Some(Split(d)) && Split(d)[0] != "" && "" !in Split(d)
    requires forall n, r :: LastWrite(h, n, r) <==>
              || (n == i && r == Reversed([l] + Split(x)))
              || (n == j && r == Reversed(["*"] + Split(x)))
              || (n == k && r == Reversed([""] + Split(x)))
    requires var p, rd := Split(x), Reversed(Split(d));
             && (Matches(Reversed([l] + p), rd) <==> d == l + "." + x)
             && (Matches(Reversed(["*"] + p), rd) <==> JustUnder(d, x))
             && (Matches(Reversed([""] + p), rd) <==> Under(d, x))
    ensures SearchAnswers(h, d, ThreeAnswer(l, x, u, v, w, d))
  {
    hide LastWrite, Matches, Better, Reversed, Split, ValidAndSplitDomain, Under, JustUnder, Rank;
    var p, rd := Split(x), Reversed(Split(d));
    JustIsUnder(d, x, l);
    if d == l + "." + x {
      RankedLabels(d, x, l);
      assert FirstAmongInserted(h, rd, u) by {
        assert LastWrite(h, i, Reversed([l] + p)) && h[i].data == Some(u);
      }
    } else if JustUnder(d, x) {
      RankedLabels(d, x, l);
      assert FirstAmongInserted(h, rd, v) by {
        assert LastWrite(h, j, Reversed(["*"] + p)) && h[j].data == Some(v);
      }
    } else if Under(d, x) {
      assert FirstAmongInserted(h, rd, w) by {
        assert LastWrite(h, k, Reversed([""] + p)) && h[k].data == Some(w);
      }
    }
  }

  lemma JustIsUnder(d: string, x: string, l: string)
    ensures d == l + "." + x && '.' !in l ==> JustUnder(d, x)
    ensures JustUnder(d, x) ==> Under(d, x)
  {
    if d == l + "." + x {
      assert d[..|l|] == l && d[|l|..] == "." + x;
    }
  }

  lemma RankedLabels(d: string, x: string, l: string)
    requires l != "" && l != "*" && '.' !in l && JustUnder(d, x) && Split(d)[0] != ""
    ensures var p, rd := Split(x), Reversed(Split(d));
            (d == l + "." + x ==> Better(Reversed([l] + p), Reversed(["*"] + p), rd)
                                  && Better(Reversed([l] + p), Reversed([""] + p), rd))
            && Better(Reversed(["*"] + p), Reversed([""] + p), rd)
  {
    hide Split, Better;
    var p, rd := Split(x), Reversed(Split(d));
    LabelBefore(d, x, l);
    if d == l + "." + x {
      BetterLabel(l, "*", p, rd);
      BetterLabel(l, "", p, rd);
    }
    BetterLabel("*", "", p, rd);
  }

  // The label that stands before those of x
  lemma LabelBefore(d: string, x: string, l: string)
    requires (d == l + "." + x && '.' !in l) || JustUnder(d, x)
    ensures |Split(d)| == |Split(x)| + 1 && Reversed(Split(d))[|Split(x)|] == Split(d)[0]
    ensures d == l + "." + x && '.' !in l ==> Split(d)[0] == l
  {
    hide Split;
    JustUnderLabels(d, x);
    if d == l + "." + x && '.' !in l {
      OneLabel(l);
      SplitDot(l, x);
    }
    ReversedAt(Split(d), |Split(x)|);
  }
}
