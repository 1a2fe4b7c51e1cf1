/**
 The strategies of a load-balancing group: jump consistent hashing and round robin.
 */
module LoadBalance {

  type uint64 = x: int | 0 <= x < 0x1_0000_0000_0000_0000
  type int32 = x: int | -0x8000_0000 <= x < 0x8000_0000

  // ----- jumpHash -----

  function NextKey(key: uint64): uint64 {
    (key * 2862933555777941757 + 1) % 0x1_0000_0000_0000_0000
  }

  // key >> 33
  function High(key: uint64): (h: nat)
    ensures h < 0x8000_0000
  {
    key / 0x2_0000_0000
  }

  // From bucket b, where the key's high bits say to jump to
  type Jump = (nat, nat) -> int

  // What the jump must be for all that follows: forward, from every bucket there can be.
  ghost predicate Forward(jump: Jump) {
    forall b: nat, k: nat :: b < 0x8000_0000 && k < 0x8000_0000 ==> b < jump(b, k)
  }

  // What is needed of floating-point rounding, and holds of IEEE 754 double precision in any mode: it
  // respects order, and leaves integers up to 2^53, and 2^62, as they are.
  ghost predicate Rounds(round: real -> real) {
    && (forall x, y {:trigger round(x), round(y)} :: x <= y ==> round(x) <= round(y))
    && (forall x :: 0.0 <= x <= 9007199254740992.0 && x == x.Floor as real ==> round(x) == x)
    && round(4611686018427387904.0) == 4611686018427387904.0
  }

  // The jump of the source: quotient and product are rounded, and cut to an integer.
  function RoundedJump(round: real -> real, b: nat, k: nat): int {
    round(Times((b + 1) as real, round(Over(2147483648.0, (k + 1) as real)))).Floor
  }

  function Times(a: real, x: real): real {
    a * x
  }

  function Over(m: real, k: real): real
    requires k >= 1.0
  {
    m / k
  }

  function Rounded(round: real -> real): Jump {
    (b: nat, k: nat) => RoundedJump(round, b, k)
  }

  lemma FactorBounds(m: real, k: real)
    requires 1.0 <= k <= m
    ensures 1.0 <= Over(m, k) <= m
  {
    var x := m / k;
    assert x * k == m;
  }

  lemma NonNegative(a: real, b: real)
    requires a >= 0.0 && b >= 0.0
    ensures a * b >= 0.0
  {
  }

  lemma Grows(a: real, x: real, y: real)
    requires a >= 0.0 && x <= y
    ensures a * x <= a * y
  {
    NonNegative(a, y - x);
    assert a * y - a * x == a * (y - x);
  }

  lemma Cap(a: real, m: real)
    requires a <= 2147483648.0 && m == 2147483648.0
    ensures a * m <= 4611686018427387904.0
  {
  }

  lemma ProductBounds(a: real, x: real, m: real)
    requires 0.0 <= a <= m && 1.0 <= x <= m && m == 2147483648.0
    ensures a <= Times(a, x) <= 4611686018427387904.0
  {
    Grows(a, 1.0, x);
    Grows(a, x, m);
    Cap(a, m);
  }

  lemma FloorBounds(x: real, lo: nat, hi: nat)
    requires lo as real <= x <= hi as real
    ensures lo <= x.Floor <= hi
  {
  }

  lemma Fixed(round: real -> real)
    requires Rounds(round)
    ensures round(1.0) == 1.0 && round(2147483648.0) == 2147483648.0
            && round(4611686018427387904.0) == 4611686018427387904.0
  {
  }

  lemma FixedInteger(round: real -> real, n: nat)
    requires Rounds(round) && n <= 0x8000_0000
    ensures round(n as real) == n as real
  {
    assert (n as real).Floor as real == n as real;
  }

  lemma Between(round: real -> real, lo: real, x: real, hi: real)
    requires Rounds(round) && lo <= x <= hi && round(lo) == lo && round(hi) == hi
    ensures lo <= round(x) <= hi
  {
  }

  lemma RoundedProductBounds(round: real -> real, a: real, q: real)
    requires Rounds(round) && round(a) == a && 0.0 <= a <= 2147483648.0 && 1.0 <= q <= 2147483648.0
    ensures a <= round(Times(a, round(q))) <= 4611686018427387904.0
  {
    Fixed(round);
    hide Rounds, Times;
    Between(round, 1.0, q, 2147483648.0);
    ProductBounds(a, round(q), 2147483648.0);
    Between(round, a, Times(a, round(q)), 4611686018427387904.0);
  }

  lemma RoundedJumpBounds(round: real -> real, b: nat, k: nat)
    requires Rounds(round) && b < 0x8000_0000 && k < 0x8000_0000
    ensures b < RoundedJump(round, b, k) <= 0x4000_0000_0000_0000
  {
    hide Rounds, Times, Over;
    FixedInteger(round, b + 1);
    FactorBounds(2147483648.0, (k + 1) as real);
    var q := Over(2147483648.0, (k + 1) as real);
    RoundedProductBounds(round, (b + 1) as real, q);
    FloorBounds(round(Times((b + 1) as real, round(q))), b + 1, 0x4000_0000_0000_0000);
  }

  // However its products are rounded, the source's jump goes forward, and fits an int64.
  lemma RoundedIsForward(round: real -> real)
    requires Rounds(round)
    ensures Forward(Rounded(round))
    ensures forall b: nat, k: nat :: b < 0x8000_0000 && k < 0x8000_0000 ==>
            Rounded(round)(b, k) <= 0x4000_0000_0000_0000
  {
    hide RoundedJump;
    forall b: nat, k: nat | b < 0x8000_0000 && k < 0x8000_0000
      ensures b < Rounded(round)(b, k) <= 0x4000_0000_0000_0000
    {
      RoundedJumpBounds(round, b, k);
    }
  }

  // Not rounding at all is one way.
  lemma ExactRounds()
    ensures Rounds((x: real) => x)
  {
  }

  // The loop from bucket b with the next jump to j
  ghost function JumpFrom(jump: Jump, key: uint64, b: nat, j: nat, buckets: int32): nat
    requires Forward(jump)
    decreases if j < buckets then buckets - j else 0
  {
    if j >= buckets then b
    else
      var key1 := NextKey(key);
      JumpFrom(jump, key1, j, jump(j, High(key1)), buckets)
  }

  ghost function JumpHash(jump: Jump, key: uint64, buckets: int32): nat
    requires Forward(jump)
  {
    JumpFrom(jump, key, 0, 0, buckets)
  }

  lemma {:induction false} JumpInRange(jump: Jump, key: uint64, b: nat, j: nat, buckets: int32)
    requires Forward(jump) && (b < buckets || (b == j == 0 < buckets))
    ensures JumpFrom(jump, key, b, j, buckets) < buckets
    decreases if j < buckets then buckets - j else 0
  {
    hide NextKey, High;
    if j < buckets {
      JumpInRange(jump, NextKey(key), j, jump(j, High(NextKey(key))), buckets);
    }
  }

  // With m buckets rather than n, a key stays where it is or goes to a bucket that is new.
  lemma {:induction false} JumpGrows(jump: Jump, key: uint64, b: nat, j: nat, n: int32, m: int32)
    requires Forward(jump) && n <= m
    ensures var before, after := JumpFrom(jump, key, b, j, n), JumpFrom(jump, key, b, j, m);
            after == before || n <= after
    decreases if j < m then m - j else 0
  {
    hide NextKey, High;
    if j < m {
      var key1 := NextKey(key);
      var j1 := jump(j, High(key1));
      JumpGrows(jump, key1, j, j1, n, m);
      if j >= n {
        JumpsForward(jump, key1, j, j1, m);
      }
    }
  }

  lemma {:induction false} JumpsForward(jump: Jump, key: uint64, b: nat, j: nat, buckets: int32)
    requires Forward(jump) && b <= j
    ensures JumpFrom(jump, key, b, j, buckets) >= b
    decreases if j < buckets then buckets - j else 0
  {
    hide NextKey, High;
    if j < buckets {
      JumpsForward(jump, NextKey(key), j, jump(j, High(NextKey(key))), buckets);
    }
  }

  // The guarantee of consistent hashing: every key has a bucket; one more bucket takes keys from the
  // others and moves none between them; and so do any number.
  lemma Consistent(jump: Jump, key: uint64, n: int32, m: int32)
    requires Forward(jump) && 1 <= n <= m
    ensures JumpHash(jump, key, n) < n
    ensures n + 1 < 0x8000_0000 ==> JumpHash(jump, key, n + 1) in {JumpHash(jump, key, n), n}
    ensures JumpHash(jump, key, m) < n ==> JumpHash(jump, key, m) == JumpHash(jump, key, n)
  {
    JumpInRange(jump, key, 0, 0, n);
    if n + 1 < 0x8000_0000 {
      JumpInRange(jump, key, 0, 0, n + 1);
      JumpGrows(jump, key, 0, 0, n, n + 1);
    }
    JumpGrows(jump, key, 0, 0, n, m);
  }

  ghost function Bucket(jump: Jump, key: uint64, n: int32): (r: nat)
    requires Forward(jump) && n > 0
    ensures r == JumpHash(jump, key, n) < n
  {
    JumpInRange(jump, key, 0, 0, n);
    JumpHash(jump, key, n)
  }

  method ComputeJumpHash(jump: Jump, key: uint64, buckets: int32) returns (r: nat)
    requires Forward(jump)
    ensures r == JumpHash(jump, key, buckets) && (buckets >= 1 ==> r < buckets)
  {
    hide NextKey, High;
    if buckets >= 1 {
      JumpInRange(jump, key, 0, 0, buckets);
    }
    var b: nat, j: nat, k := 0, 0, key;
    while j < buckets
      invariant JumpFrom(jump, k, b, j, buckets) == JumpHash(jump, key, buckets)
      decreases buckets - j
    {
      b := j;
      k := NextKey(k);
      j := jump(b, High(k));
    }
    r := b;
  }

  // ----- strategyConsistentHashing -----

  const MAX_RETRY := 5

  // The key of the i-th try; the sum of a 32-bit hash and a small number does not wrap around.
  function TryKey(key: uint64, i: nat): uint64 {
    (key + i) % 0x1_0000_0000_0000_0000
  }

  // Which of the proxies is chosen, from the i-th try on
  ghost function ChosenFrom(jump: Jump, key: uint64, alive: seq<bool>, i: nat): (r: nat)
    requires Forward(jump) && 0 < |alive| < 0x8000_0000
    ensures r < |alive| && (alive[r] || true !in alive)
    decreases MAX_RETRY - i
  {
    JumpInRange(jump, TryKey(key, i), 0, 0, |alive|);
    if i >= MAX_RETRY then FirstAlive(alive)
    else if alive[JumpHash(jump, TryKey(key, i), |alive|)] then JumpHash(jump, TryKey(key, i), |alive|)
    else ChosenFrom(jump, key, alive, i + 1)
  }

  function FirstAlive(alive: seq<bool>): (r: nat)
    requires alive != []
    ensures r < |alive| && (alive[r] || true !in alive) && (alive[r] ==> forall i :: 0 <= i < r ==> !alive[i])
    ensures true !in alive ==> r == 0
  {
    if alive[0] || |alive| == 1 then 0
    else
      assert alive == [alive[0]] + alive[1..];
      var r := FirstAlive(alive[1..]);
      if alive[1..][r] then r + 1 else 0
  }

  lemma FirstIsFirst(alive: seq<bool>)
    requires alive != []
    ensures forall p :: 0 <= p < |alive| && alive[p] ==> alive[FirstAlive(alive)] && FirstAlive(alive) <= p
  {
  }

  ghost function AtTry(jump: Jump, key: uint64, n: int32, j: nat): (r: nat)
    requires Forward(jump) && n > 0
    ensures r < n
  {
    Bucket(jump, (key + j) % 0x1_0000_0000_0000_0000, n)
  }

  lemma {:induction false} TriesSoFar(jump: Jump, key: uint64, alive: seq<bool>, i: nat)
    requires Forward(jump) && 0 < |alive| < 0x8000_0000 && i <= 5
    requires forall j :: 0 <= j < i ==> !alive[AtTry(jump, key, |alive|, j)]
    ensures ChosenFrom(jump, key, alive, 0) == ChosenFrom(jump, key, alive, i)
  {
    hide FirstAlive, JumpHash, ChosenFrom;
    if i > 0 {
      TriesSoFar(jump, key, alive, i - 1);
      ChosenNext(jump, key, alive, i - 1);
      assert !alive[AtTry(jump, key, |alive|, i - 1)];
    }
  }

  // The tries, one by one: the bucket of the key, of the key plus one and so on, five in all, until one is
  // alive; after them the first proxy that is.
  lemma {:induction false} TriesInTurn(jump: Jump, key: uint64, alive: seq<bool>, i: nat)
    requires Forward(jump) && 0 < |alive| < 0x8000_0000 && i <= 5
    requires forall j :: 0 <= j < i ==> !alive[AtTry(jump, key, |alive|, j)]
    ensures var r := ChosenFrom(jump, key, alive, 0);
            if i == 5 then forall p :: 0 <= p < |alive| && alive[p] ==> alive[r] && r <= p
            else alive[AtTry(jump, key, |alive|, i)] ==> r == AtTry(jump, key, |alive|, i)
  {
    hide FirstAlive, JumpHash, ChosenFrom;
    TriesSoFar(jump, key, alive, i);
    ChosenNext(jump, key, alive, i);
    FirstIsFirst(alive);
    if i < 5 {
      assert AtTry(jump, key, |alive|, i) == JumpHash(jump, TryKey(key, i), |alive|);
    }
  }

  // New proxies behind the old ones: a key whose first choice is alive stays with it, or goes to one
  // of the new, or, when that is not alive, to a second choice.
  lemma GrowthKeepsChoice(jump: Jump, key: uint64, alive: seq<bool>, more: seq<bool>)
    requires Forward(jump) && 0 < |alive| < 0x8000_0000
    requires |alive + more| < 0x8000_0000 && alive[Bucket(jump, key, |alive|)]
             && (forall i :: 0 <= i < |more| ==> more[i])
    ensures var before, after := ChosenFrom(jump, key, alive, 0), ChosenFrom(jump, key, alive + more, 0);
            before == JumpHash(jump, key, |alive|) && (after == before || after >= |alive|)
  {
    Consistent(jump, key, |alive|, |alive + more|);
    JumpInRange(jump, key, 0, 0, |alive + more|);
    assert TryKey(key, 0) == key;
  }

  method ConsistentHashing(jump: Jump, key: uint64, alive: seq<bool>) returns (r: nat)
    requires Forward(jump) && 0 < |alive| < 0x8000_0000
    ensures r == ChosenFrom(jump, key, alive, 0) && r < |alive| && (alive[r] || true !in alive)
  {
    hide ChosenFrom, FirstAlive, JumpFrom;
    var i := 0;
    while i < MAX_RETRY
      invariant i <= MAX_RETRY && ChosenFrom(jump, key, alive, 0) == ChosenFrom(jump, key, alive, i)
      decreases MAX_RETRY - i
    {
      var idx := ComputeJumpHash(jump, TryKey(key, i), |alive|);
      ChosenNext(jump, key, alive, i);
      if alive[idx] {
        return idx;
      }
      i := i + 1;
    }
    ChosenNext(jump, key, alive, i);
    // the whole list, when availability is poor
    for p := 0 to |alive|
      invariant forall q :: 0 <= q < p ==> !alive[q]
    {
      if alive[p] {
        assert FirstAlive(alive) == p;
        return p;
      }
    }
    r := 0;
  }

  lemma ChosenNext(jump: Jump, key: uint64, alive: seq<bool>, i: nat)
    requires Forward(jump) && 0 < |alive| < 0x8000_0000
    ensures i >= MAX_RETRY ==> ChosenFrom(jump, key, alive, i) == FirstAlive(alive)
    ensures i < MAX_RETRY ==>
      var idx := JumpHash(jump, TryKey(key, i), |alive|);
      idx < |alive| && ChosenFrom(jump, key, alive, i) == if alive[idx] then idx
        else ChosenFrom(jump, key, alive, i + 1)
  {
    JumpInRange(jump, TryKey(key, i), 0, 0, |alive|);
  }

  // ----- strategyRoundRobin -----

  // Position k steps on from idx, in a ring of n
  function Ahead(idx: nat, k: nat, n: nat): (r: nat)
    requires n > 0
    ensures r < n
  {
    (idx + k) % n
  }

  lemma StepAhead(idx: nat, k: nat, n: nat)
    requires n > 0
    ensures Ahead(Ahead(idx, k, n), 1, n) == Ahead(idx, k + 1, n) && (idx < n ==> Ahead(idx, 0, n) == idx)
  {
    ModAdd(idx + k, 1, n);
    ModSmall(idx, n);
  }

  lemma AheadAgain(idx: nat, k: nat, j: nat, n: nat)
    requires n > 0
    ensures Ahead(Ahead(idx, k, n), j, n) == Ahead(idx, k + j, n)
  {
    ModAdd(idx + k, j, n);
  }

  lemma ModSmall(a: nat, n: nat)
    requires n > 0
    ensures a < n ==> a % n == a
  {
  }

  lemma {:induction false} ModPlus(a: nat, q: nat, n: nat)
    requires n > 0
    ensures (a + q * n) % n == a % n
  {
    if q > 0 {
      ModPlus(a, q - 1, n);
      assert a + q * n == (a + (q - 1) * n) + n;
      ModOnce(a + (q - 1) * n, n);
    }
  }

  lemma ModOnce(a: nat, n: nat)
    requires n > 0
    ensures (a + n) % n == a % n
  {
    var q, r := a / n, a % n;
    assert a + n == (q + 1) * n + r;
    Remainder(q + 1, r, n);
  }

  lemma Remainder(q: nat, r: nat, n: nat)
    requires r < n
    ensures (q * n + r) % n == r
  {
    var x := q * n + r;
    var d := x / n - q;
    assert x % n - r == -(d * n);
    AtLeast(d, n);
  }

  lemma AtLeast(d: int, n: nat)
    ensures (d >= 1 ==> d * n >= n) && (d <= -1 ==> d * n + n <= 0)
  {
    if d >= 1 {
      assert d * n == (d - 1) * n + n;
    } else if d <= -1 {
      assert d * n == (d + 1) * n - n;
    }
  }

  lemma ModAdd(a: nat, b: nat, n: nat)
    requires n > 0
    ensures (a % n + b) % n == (a + b) % n
  {
    assert a + b == (a % n + b) + (a / n) * n;
    ModPlus(a % n + b, a / n, n);
  }

  // How far ahead of idx the next proxy that is alive stands; n for the last
  ghost predicate IsNext(idx: nat, alive: seq<bool>, k: nat) {
    && 1 <= k <= |alive| && alive[Ahead(idx, k, |alive|)]
    && forall j :: 1 <= j < k ==> !alive[Ahead(idx, j, |alive|)]
  }

  class RoundRobin {
    var idx: nat

    constructor ()
      ensures idx == 0
    {
      idx := 0;
    }

    // The next proxy in turn that is alive; the first of the list if none is.
    method Pick(alive: seq<bool>) returns (r: nat)
      requires |alive| > 0
      modifies this
      ensures r < |alive|
      ensures true in alive ==> r == idx && exists k :: IsNext(old(idx), alive, k) && r == Ahead(old(idx), k, |alive|)
      ensures true !in alive ==> r == 0 && idx == Ahead(old(idx), |alive|, |alive|)
    {
      hide Ahead;
      var n := |alive|;
      ghost var start := idx;
      var i := 0;
      while i < n
        invariant i <= n && (i > 0 ==> idx == Ahead(start, i, n)) && (i == 0 ==> idx == start)
        invariant forall j :: 1 <= j <= i ==> !alive[Ahead(start, j, n)]
      {
        StepAhead(start, i, n);
        StartAhead(start, n);
        idx := Ahead(idx, 1, n);
        i := i + 1;
        if alive[idx] {
          assert IsNext(start, alive, i);
          return idx;
        }
      }
      NoneAlive(start, alive);
      r := 0;
    }
  }

  lemma StartAhead(idx: nat, n: nat)
    requires n > 0
    ensures Ahead(Ahead(idx, 0, n), 1, n) == Ahead(idx, 1, n)
  {
    StepAhead(idx, 0, n);
  }

  // A full turn passes everyone.
  lemma NoneAlive(idx: nat, alive: seq<bool>)
    requires |alive| > 0 && forall j :: 1 <= j <= |alive| ==> !alive[Ahead(idx, j, |alive|)]
    ensures true !in alive
  {
    forall t | 0 <= t < |alive|
      ensures !alive[t]
    {
      var k := Reaches(idx, t, |alive|);
    }
  }

  // Every position of the ring is met within one turn.
  lemma Reaches(idx: nat, t: nat, n: nat) returns (k: nat)
    requires t < n
    ensures 1 <= k <= n && Ahead(idx, k, n) == t
  {
    var at := idx % n;
    k := if t > at then t - at else t + n - at;
    ModAdd(idx, k, n);
    ModSmall(t, n);
    ModOnce(t, n);
  }

  // The picks of a run over a list that does not change
  ghost predicate Picks(idx: nat, alive: seq<bool>, picks: seq<nat>)
    requires |alive| > 0
    decreases |picks|
  {
    picks == [] || ((exists k :: IsNext(idx, alive, k) && picks[0] == Ahead(idx, k, |alive|))
      && Picks(picks[0], alive, picks[1..]))
  }

  // Nobody waits for more than one round: a proxy that is alive and d places ahead is among the next d picks.
  lemma {:induction false} EveryoneIsServed(idx: nat, alive: seq<bool>, picks: seq<nat>, d: nat)
    requires |alive| > 0 && Picks(idx, alive, picks) && 1 <= d <= |alive| && alive[Ahead(idx, d, |alive|)]
             && |picks| >= d
    ensures Ahead(idx, d, |alive|) in picks[..d]
    decreases d
  {
    hide Ahead;
    var n := |alive|;
    var k: nat :| IsNext(idx, alive, k) && picks[0] == Ahead(idx, k, n);
    assert k <= d;
    if k == d {
      assert picks[..d][0] == picks[0];
    } else {
      AheadAgain(idx, k, d - k, n);
      EveryoneIsServed(picks[0], alive, picks[1..], d - k);
      var i :| 0 <= i < d - k && picks[1..][..d - k][i] == Ahead(idx, d, n);
      assert picks[..d][i + 1] == Ahead(idx, d, n);
    }
  }
}
