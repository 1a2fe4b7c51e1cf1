// Machine numbers, bytes, and the two orders in which Go's encoding/binary lays out 16-bit numbers.
module Bytes {
  type byte = x: int | 0 <= x < 0x100
  type uint16 = x: int | 0 <= x < 0x1_0000
  type uint32 = x: int | 0 <= x < 0x1_0000_0000

  function Min(a: nat, b: nat): nat {
    if a < b then a else b
  }

  // n >> k
  function Shr(n: nat, k: nat): nat {
    if k == 0 then n else Shr(n / 2, k - 1)
  }

  function Pow2(n: nat): (r: nat)
    ensures r >= 1
  {
    if n == 0 then 1 else 2 * Pow2(n - 1)
  }

  lemma {:induction false} Pow2Sum(a: nat, b: nat)
    ensures Pow2(a + b) == Pow2(a) * Pow2(b)
  {
    if b > 0 {
      Pow2Sum(a, b - 1);
      assert a + b - 1 == a + (b - 1);
    }
  }

  lemma {:induction false} Pow2Grows(a: nat, b: nat)
    requires a <= b
    ensures Pow2(a) <= Pow2(b)
  {
    if a < b {
      Pow2Grows(a, b - 1);
    }
  }

  lemma Pow32()
    ensures Pow2(32) == 0x1_0000_0000
  {
    assert Pow2(4) == 16;
    hide Pow2;
    Pow2Sum(4, 4);
    Pow2Sum(8, 8);
    Pow2Sum(16, 16);
  }

  function PutBE16(v: uint16): (r: seq<byte>)
    ensures |r| == 2
  {
    [v / 0x100, v % 0x100]
  }

  function GetBE16(b: seq<byte>): uint16
    requires |b| == 2
  {
    (b[0] as int) * 0x100 + b[1] as int
  }

  function PutLE16(v: uint16): seq<byte> {
    [v % 0x100, v / 0x100]
  }

  function GetLE16(b: seq<byte>): uint16
    requires |b| == 2
  {
    (b[1] as int) * 0x100 + b[0] as int
  }

  lemma Digit(q: nat, d: byte)
    ensures (q * 0x100 + d) / 0x100 == q && (q * 0x100 + d) % 0x100 == d
  {
  }

  lemma RoundTrip16(v: uint16)
    ensures GetBE16(PutBE16(v)) == v && GetLE16(PutLE16(v)) == v
  {
  }

  lemma Front(a: seq<byte>, b: seq<byte>)
    ensures (a + b)[..|a|] == a && (a + b)[|a|..] == b
  {
  }

  lemma Regrouped(a: seq<byte>, b: seq<byte>, c: seq<byte>)
    ensures (a + b) + c == a + (b + c)
  {
  }

  // All pieces, one after the other.
  function Concat<T>(chunks: seq<seq<T>>): seq<T> {
    if chunks == [] then [] else chunks[0] + Concat(chunks[1..])
  }

  lemma {:induction false} ConcatAppend<T>(a: seq<seq<T>>, b: seq<seq<T>>)
    ensures Concat(a + b) == Concat(a) + Concat(b)
  {
    if a == [] {
      assert a + b == b;
    } else {
      assert (a + b)[1..] == a[1..] + b;
      ConcatAppend(a[1..], b);
    }
  }

  // Cut into pieces of n bytes, the last one shorter if need be.
  function Cut(data: seq<byte>, n: nat): seq<seq<byte>>
    requires n > 0
  {
    if data == [] then []
    else if |data| <= n then [data]
    else [data[..n]] + Cut(data[n..], n)
  }

  lemma {:induction false} CutKeepsAll(data: seq<byte>, n: nat)
    requires n > 0
    ensures Concat(Cut(data, n)) == data
    ensures forall i :: 0 <= i < |Cut(data, n)| ==> 0 < |Cut(data, n)[i]| <= n
  {
    if data == [] {
    } else if |data| <= n {
      ConcatCons(data, []);
      assert [data] + [] == [data] && data + [] == data;
    } else {
      CutKeepsAll(data[n..], n);
      ConcatCons(data[..n], Cut(data[n..], n));
      hide Concat;
      assert data[..n] + data[n..] == data;
    }
  }

  // All pieces but the last have n bytes.
  lemma {:induction false} CutSizes(data: seq<byte>, n: nat)
    requires n > 0
    ensures forall i :: 0 <= i < |Cut(data, n)| - 1 ==> |Cut(data, n)[i]| == n
    ensures forall i :: 0 <= i < |Cut(data, n)| ==> 0 < |Cut(data, n)[i]| <= n
  {
    if |data| > n {
      CutSizes(data[n..], n);
      CutKeepsAll(data[n..], n);
    }
  }

  lemma ConcatCons(x: seq<byte>, xs: seq<seq<byte>>)
    ensures Concat([x] + xs) == x + Concat(xs)
  {
    assert ([x] + xs)[1..] == xs;
  }
}
