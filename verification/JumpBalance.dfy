/**
 How evenly jump consistent hashing, computed without rounding, deals out keys.
 */
module JumpBalance {
  import opened LoadBalance

  const M := 0x1_0000_0000_0000_0000

  ghost function Exact(): Jump {
    Rounded((x: real) => x)
  }

  lemma ExactIsForward()
    ensures Forward(Exact())
  {
    ExactRounds();
    RoundedIsForward((x: real) => x);
  }

  // Without rounding, the jump is an integer quotient.
  lemma ExactJump(b: nat, h: nat)
    ensures Exact()(b, h) == (b + 1) * 0x8000_0000 / (h + 1)
  {
    var n, d := (b + 1) * 0x8000_0000, h + 1;
    var q := n / d;
    FloorOfQuotient(n, d);
    assert Times((b + 1) as real, Over(2147483648.0, d as real)) == n as real / d as real by {
      TimesOver((b + 1) as real, 2147483648.0, d as real);
    }
  }

  lemma TimesOver(a: real, m: real, d: real)
    requires d >= 1.0
    ensures Times(a, Over(m, d)) == (a * m) / d
  {
    var x := m / d;
    assert x * d == m;
    var y := (a * m) / d;
    assert y * d == a * m;
    assert (a * x) * d == a * (x * d);
    SameFactor(a * x, y, d);
  }

  lemma SameFactor(x: real, y: real, d: real)
    requires d >= 1.0 && x * d == y * d
    ensures x == y
  {
    assert (x - y) * d == 0.0;
  }

  lemma FloorOfQuotient(n: nat, d: nat)
    requires d >= 1
    ensures (n as real / d as real).Floor == n / d
  {
    var q, r := n / d, n % d;
    var x := n as real / d as real;
    assert n == q * d + r;
    assert x * d as real == (q * d + r) as real == q as real * d as real + r as real;
    assert (x - q as real) * d as real == r as real;
    Fraction(x - q as real, d as real, r as real);
  }

  lemma Fraction(x: real, d: real, r: real)
    requires d >= 1.0 && x * d == r && 0.0 <= r < d
    ensures 0.0 <= x < 1.0
  {
    NotNegative(x, d);
    assert (1.0 - x) * d == d - r;
    NotNegative(1.0 - x, d);
  }

  lemma NotNegative(x: real, d: real)
    requires d >= 1.0
    ensures x * d >= 0.0 ==> x >= 0.0
    ensures x * d > 0.0 ==> x > 0.0
  {
  }

  // ----- counting -----

  function Range(lo: int, n: nat): (r: set<int>)
    ensures forall x :: x in r <==> lo <= x < lo + n
  {
    if n == 0 then {} else Range(lo, n - 1) + {lo + n - 1}
  }

  lemma {:induction false} RangeSize(lo: int, n: nat)
    ensures |Range(lo, n)| == n
  {
    if n > 0 {
      RangeSize(lo, n - 1);
    }
  }

  // A set that a function takes into another without merging is no larger.
  lemma {:induction false} Injects<X, Y>(a: set<X>, b: set<Y>, f: X -> Y, g: Y -> X)
    requires forall x :: x in a ==> f(x) in b && g(f(x)) == x
    ensures |a| <= |b|
  {
    if x :| x in a {
      var a', b' := a - {x}, b - {f(x)};
      forall z | z in a'
        ensures f(z) in b' && g(f(z)) == z
      {
        assert g(f(z)) == z && g(f(x)) == x;
      }
      Injects(a', b', f, g);
    }
  }

  // From bucket b, the numbers that jump to bucket n or beyond: (b + 1) * 2^31 / n of the 2^31 there are.
  lemma JumpCounts(b: nat, n: nat)
    requires n > b
    ensures |set h: int | 0 <= h < 0x8000_0000 && Exact()(b, h) >= n| == (b + 1) * 0x8000_0000 / n
  {
    var c := (b + 1) * 0x8000_0000 / n;
    CountFits(b, n);
    var s := set h: int | 0 <= h < 0x8000_0000 && Exact()(b, h) >= n;
    forall h: int | 0 <= h < 0x8000_0000
      ensures h in s <==> h in Range(0, c)
    {
      ExactJump(b, h);
      Swapped((b + 1) * 0x8000_0000, n, h + 1);
    }
    assert s == Range(0, c);
    RangeSize(0, c);
  }

  lemma CountFits(b: nat, n: nat)
    requires n > b
    ensures (b + 1) * 0x8000_0000 / n <= 0x8000_0000
  {
    var c := (b + 1) * 0x8000_0000 / n;
    Swapped((b + 1) * 0x8000_0000, n, 0x8000_0001);
    Fewer(b + 1, n);
  }

  lemma Fewer(a: nat, n: nat)
    requires 0 < a <= n
    ensures 0x8000_0001 * n > a * 0x8000_0000
  {
  }

  // x / m >= k exactly if k * m <= x, so m and k can change places.
  lemma Swapped(x: nat, m: nat, k: nat)
    requires m > 0 && k > 0
    ensures x / m >= k <==> k * m <= x
    ensures x / m >= k <==> x / k >= m
  {
    AtLeastQuotient(x, m, k);
    AtLeastQuotient(x, k, m);
  }

  lemma Distribute(q: int, k: int, m: int)
    ensures (q - k) * m == q * m - k * m
  {
  }

  lemma AtLeastQuotient(x: nat, m: nat, k: nat)
    requires m > 0
    ensures x / m >= k <==> k * m <= x
  {
    var q, r := x / m, x % m;
    assert x == q * m + r;
    var d := q - k;
    assert x - k * m == d * m + r by { Distribute(q, k, m); }
    AtLeast(d, m);
    assert d == 0 ==> d * m == 0;
  }

  // ----- two buckets -----

  function Forth(x: int): int {
    (x * 2862933555777941757 + 1) % M
  }

  function Back(y: int): int {
    (y - 1) * 16133697096952638549 % M
  }

  lemma ModIs(a: int, r: int, t: int)
    requires a == r + M * t && 0 <= r < M
    ensures a % M == r
  {
  }

  lemma ForthBack(x: int)
    requires 0 <= x < M
    ensures 0 <= Forth(x) < M && 0 <= Back(x) < M && Back(Forth(x)) == x && Forth(Back(x)) == x
  {
    var q := (x * 2862933555777941757 + 1) / M;
    ModIs((Forth(x) - 1) * 16133697096952638549, x, x * 2503948805982125087 - q * 16133697096952638549);
    var p := (x - 1) * 16133697096952638549 / M;
    ModIs(Back(x) * 2862933555777941757 + 1, x, (x - 1) * 2503948805982125087 - p * 2862933555777941757);
  }

  // Of two buckets, the second gets exactly half of all keys.
  lemma HalfOfAllKeys()
    ensures Forward(Exact())
    ensures |set k: int | 0 <= k < M && JumpHash(Exact(), k, 2) == 1| == 0x8000_0000_0000_0000
  {
    ExactIsForward();
    var s := set k: int | 0 <= k < M && JumpHash(Exact(), k, 2) == 1;
    var t := Range(0x8000_0000_0000_0000, 0x8000_0000_0000_0000);
    forall k | 0 <= k < M
      ensures k in s <==> Forth(k) in t
    {
      SecondOfTwo(k);
      ForthBack(k);
    }
    forall y | y in t
      ensures Back(y) in s && Forth(Back(y)) == y
    {
      ForthBack(y);
    }
    forall x | x in s
      ensures Forth(x) in t && Back(Forth(x)) == x
    {
      ForthBack(x);
    }
    Injects(s, t, x => Forth(x), y => Back(y));
    Injects(t, s, y => Back(y), x => Forth(x));
    RangeSize(0x8000_0000_0000_0000, 0x8000_0000_0000_0000);
  }

  lemma SecondOfTwo(k: uint64)
    requires Forward(Exact())
    ensures JumpHash(Exact(), k, 2) == 1 <==> Forth(k) >= 0x8000_0000_0000_0000
  {
    var k1 := NextKey(k);
    var h, h2 := High(k1), High(NextKey(k1));
    ExactJump(0, h);
    ExactJump(1, h2);
    UpperHalf(k1);
    Swapped(0x8000_0000, h + 1, 2);
    Swapped(0x8000_0000, h + 1, 1);
    Swapped(0x1_0000_0000, h2 + 1, 2);
  }

  lemma UpperHalf(k: uint64)
    ensures k >= 0x8000_0000_0000_0000 <==> High(k) >= 0x4000_0000
  {
  }

  // ----- known answers -----

  // Whatever the machine's numbers are, 32-bit keys do not all go to one bucket, and these go where they
  // do in every implementation.
  lemma KnownBuckets()
    ensures Forward(Exact())
    ensures JumpHash(Exact(), 0, 2) == 0 && JumpHash(Exact(), 4, 2) == 1
    ensures JumpHash(Exact(), 1, 60) == 55
    ensures JumpHash(Exact(), 256, 1024) == 520
  {
    hide *;
    ExactIsForward();
    Of60();
    Of1024();
    Of2();
  }

  lemma Of2()
    requires Forward(Exact())
    ensures JumpHash(Exact(), 0, 2) == 0 && JumpHash(Exact(), 4, 2) == 1
  {
    SecondOfTwo(0);
    SecondOfTwo(4);
    JumpInRange(Exact(), 0, 0, 0, 2);
  }

  lemma Of60()
    requires Forward(Exact())
    ensures JumpHash(Exact(), 1, 60) == 55
  {
    Turn(1, 0, 60, 2862933555777941758, 0, 333289331, 6);
    Turn(2862933555777941758, 6, 60, 7520437575244155655, 444327113340336747, 875494160, 17);
    Turn(7520437575244155655, 17, 60, 7839698697979377132, 1167171453253111144, 912661046, 42);
    Turn(7839698697979377132, 42, 60, 18059102405681908285, 1216720760040354915, 2102356218, 43);
    Turn(18059102405681908285, 43, 60, 17997455577525816906, 2802771592529600365, 2095179583, 45);
    Turn(17997455577525816906, 45, 60, 15352177874620350243, 2793204008557592725, 1787228728, 55);
    Turn(15352177874620350243, 55, 60, 5357871289784907160, 2382657070315373787, 623738310, 192);
  }

  lemma Of1024()
    requires Forward(Exact())
    ensures JumpHash(Exact(), 256, 1024) == 520
  {
    FirstTurns();
    LastTurns();
    hide Exact, NextKey, High;
    assert JumpHash(Exact(), 256, 1024) == JumpFrom(Exact(), 256, 0, 0, 1024);
  }

  lemma FirstTurns()
    requires Forward(Exact())
    ensures forall b: nat :: JumpFrom(Exact(), 256, b, 0, 1024) == JumpFrom(Exact(), 4569389403071022828, 3, 16, 1024)
  {
    Turn(256, 0, 1024, 13487971404480576769, 39, 1570206531, 1);
    Turn(13487971404480576769, 1, 1024, 14592341821717395966, 2093332339786478773, 1698772169, 2);
    Turn(14592341821717395966, 2, 1024, 15464308700622647303, 2264730561222309935, 1800282474, 3);
    Turn(15464308700622647303, 3, 1024, 4569389403071022828, 2400059767675749634, 531946937, 16);
  }

  lemma LastTurns()
    requires Forward(Exact())
    ensures forall b: nat :: JumpFrom(Exact(), 4569389403071022828, b, 16, 1024) == 520
  {
    Turn(4569389403071022828, 16, 1024, 2277514397722515261, 709168956819460621, 265137571, 137);
    Turn(2277514397722515261, 137, 1024, 4889150287270209354, 353470095695644489, 569172004, 520);
    Turn(4889150287270209354, 520, 1024, 2460374328665044003, 758795826555447711, 286425269, 3906);
  }

  // One turn of the loop, at bucket j with a key: the next key, its high bits, and the next bucket
  lemma Turn(key: uint64, j: nat, n: int32, next: uint64, q: nat, h: nat, to: nat)
    requires Forward(Exact()) && j < n && key * 2862933555777941757 + 1 == M * q + next
    requires 0x2_0000_0000 * h <= next < 0x2_0000_0000 * (h + 1)
    requires to * (h + 1) <= (j + 1) * 0x8000_0000 < (to + 1) * (h + 1)
    ensures to < n ==> forall b: nat :: JumpFrom(Exact(), key, b, j, n) == JumpFrom(Exact(), next, j, to, n)
    ensures to >= n ==> forall b: nat :: JumpFrom(Exact(), key, b, j, n) == j
  {
    hide Exact;
    ModIs(key * 2862933555777941757 + 1, next, q);
    assert NextKey(key) == next && High(next) == h;
    ExactJump(j, h);
    QuotientIs((j + 1) * 0x8000_0000, h + 1, to);
    hide NextKey, High;
  }

  lemma QuotientIs(x: nat, m: nat, k: nat)
    requires m > 0 && k * m <= x < (k + 1) * m
    ensures x / m == k
  {
    AtLeastQuotient(x, m, k);
    AtLeastQuotient(x, m, k + 1);
  }
}
