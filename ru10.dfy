/**
 * The RU10 index picker (src/ru10.c). An RU10 block names intermediate
 * symbols through a walk: seed the C library generator with the block ID,
 * draw a degree d, a step a in 1 .. L' - 1 and a start b below L', where L'
 * is the first prime from L, the number of intermediate symbols. Then step
 * b := (b + a) mod L', skipping values from L on, and write d values in all.
 * The indices are finally sorted by exchange.
 *
 * The count L and the degree table are stubs in this file, so L is a
 * parameter here (it has to be at least 2) and the degree function `deg` is
 * one too.
 */
module Ru10 {
  import opened Modular
  import Util
  import Libc
  import Combinatorics
  import Swar

  // ---------------------------------------------------------------------
  // smallest_prime_greater_or_equal

  /**
   * The trial-division test of smallest_prime_greater_or_equal: no j from 2
   * on with j·j <= i divides i. Every i below 4 passes, 0 and 1 included.
   */
  ghost predicate TrialPrime(i: int)
  {
    forall j :: 2 <= j <= i && j * j <= i ==> i % j != 0
  }

  /** From 2 on the test decides primality; below 2 every integer passes it. */
  lemma TrialPrimeIsPrime(i: int)
    ensures i < 2 ==> TrialPrime(i)
    ensures i >= 2 ==> (TrialPrime(i) <==> Util.Prime(i))
  {
    if i >= 2 {
      if TrialPrime(i) {
        forall d | 2 <= d < i
          ensures i % d != 0
        {
          if i % d == 0 {
            var a := Util.SmallDivisor(i, d);
            assert false;
          }
        }
      }
      if Util.Prime(i) {
        forall j | 2 <= j <= i && j * j <= i
          ensures i % j != 0
        {
          assert j * 2 <= j * j;
        }
      }
    }
  }

  /** Every integer below 4 passes the test: no j >= 2 has j·j below 4. */
  lemma SmallTrialPrime(i: int)
    requires i < 4
    ensures TrialPrime(i)
  {
    forall j | 2 <= j <= i
      ensures j * j > i
    {
      assert j * j >= 2 * j;
    }
  }

  /** The least divisor of t from j on; t itself when there is no smaller one. */
  ghost function LeastDivisor(t: int, j: int): (r: int)
    requires 2 <= j <= t
    ensures j <= r <= t && t % r == 0
    ensures forall m :: j <= m < r ==> t % m != 0
    decreases t - j
  {
    if t % j == 0 then j else LeastDivisor(t, j + 1)
  }

  /** Euclid's argument: the least divisor of 1 + n·n! is a prime above n. */
  lemma EuclidWitness(n: int)
    requires n >= 4
    ensures 1 + n * Combinatorics.Fact(n) >= 2
    ensures var r := LeastDivisor(1 + n * Combinatorics.Fact(n), 2); r > n && TrialPrime(r)
  {
    var t := 1 + n * Combinatorics.Fact(n);
    ProductAtLeast(n, Combinatorics.Fact(n));
    var r := LeastDivisor(t, 2);
    if r <= n {
      Util.EuclidResidue(n, r);
      assert false;
    }
    LeastDivisorPrime(t);
  }

  lemma ProductAtLeast(n: int, f: int)
    requires n >= 0 && f >= 1
    ensures n * f >= n
  {
    assert n * f == n * (f - 1) + n;
  }

  /** The least divisor from 2 on passes the test: a smaller divisor of it would divide t. */
  lemma LeastDivisorPrime(t: int)
    requires t >= 2
    ensures TrialPrime(LeastDivisor(t, 2))
  {
    var r := LeastDivisor(t, 2);
    forall j | 2 <= j <= r && j * j <= r
      ensures r % j != 0
    {
      if r % j == 0 {
        SquareBelow(j, r);
        Util.DividesTrans(j, r, t);
        assert false;
      }
    }
  }

  /** A j >= 2 whose square is at most r is below r. */
  lemma SquareBelow(j: int, r: int)
    requires 2 <= j && j * j <= r
    ensures j < r
  {
    assert j * 2 <= j * j;
  }

  /** A number from n on that passes the test, so that the search from n stops. */
  ghost function PrimeBound(n: int): (r: int)
    ensures r >= n && TrialPrime(r)
  {
    if n < 4 then
      SmallTrialPrime(n);
      n
    else
      EuclidWitness(n);
      LeastDivisor(1 + n * Combinatorics.Fact(n), 2)
  }

  /** The first integer from i on that passes the test, for a search that started at n. */
  ghost function PrimeFrom(n: int, i: int): (r: int)
    requires n <= i <= PrimeBound(n)
    ensures i <= r && TrialPrime(r)
    ensures forall y :: i <= y < r ==> !TrialPrime(y)
    decreases PrimeBound(n) - i
  {
    if TrialPrime(i) then i else PrimeFrom(n, i + 1)
  }

  /** smallest_prime_greater_or_equal(n): the first integer from n on that passes the test. */
  ghost function NextPrime(n: int): int
  {
    PrimeFrom(n, n)
  }

  /** From 2 on the search returns the least prime at or above its argument. */
  lemma NextPrimeIsPrime(n: int)
    requires n >= 2
    ensures NextPrime(n) >= n && Util.Prime(NextPrime(n))
    ensures forall y :: n <= y < NextPrime(n) ==> !Util.Prime(y)
  {
    TrialPrimeIsPrime(NextPrime(n));
    forall y | n <= y < NextPrime(n)
      ensures !Util.Prime(y)
    {
      TrialPrimeIsPrime(y);
    }
  }

  /** smallest_prime_greater_or_equal: try i = n, n + 1, … with the trial-division test. */
  method SmallestPrimeGreaterOrEqual(n: int) returns (r: int)
    ensures r == NextPrime(n)
  {
    ghost var bound := PrimeBound(n);
    var i := n;
    while true
      invariant n <= i <= bound
      invariant PrimeFrom(n, i) == NextPrime(n)
      decreases bound - i
    {
      var isPrime := PassesTrialDivision(i);
      if isPrime {
        return i;
      }
      i := i + 1;
    }
  }

  /** The inner loop of smallest_prime_greater_or_equal: divide by j = 2, 3, … while j·j <= i. */
  method PassesTrialDivision(i: int) returns (isPrime: bool)
    ensures isPrime <==> TrialPrime(i)
  {
    var j := 2;
    while j * j <= i
      invariant 2 <= j
      invariant forall m :: 2 <= m < j ==> i % m != 0
      decreases i - j
    {
      assert j * 2 <= j * j;
      if i % j == 0 {
        return false;
      }
      j := j + 1;
    }
    forall m | j <= m <= i
      ensures m * m > i
    {
      Util.SquareMono(j, m);
    }
    return true;
  }

  // ---------------------------------------------------------------------
  // bit_set

  /**
   * bit_set(num, bit): 1 when bit `bit` of num is set, else 0. The mask
   * 1 << bit is defined for bit < 64.
   */
  function BitSet(num: bv64, bit: bv64): (r: int)
    requires bit < 64
    ensures r == 0 || r == 1
    ensures r == 1 <==> (num >> bit) & 1 == 1
  {
    Swar.MaskBit(num, bit);
    if (num & (1 << bit)) != 0 then 1 else 0
  }

  // ---------------------------------------------------------------------
  // pick_indices

  /** The skip loop `while (b >= l) b = (b + a) % p`, cut off after `fuel` steps. */
  function Skip(b: int, a: int, p: int, l: int, fuel: nat): int
    requires p > 0
    decreases fuel
  {
    if b < l || fuel == 0 then b else Skip((b + a) % p, a, p, l, fuel - 1)
  }

  /** A walk that drops below l within `fuel` steps makes the skip loop stop below l. */
  lemma {:induction false} SkipLands(b: int, a: int, p: int, l: int, fuel: nat, n: nat)
    requires p > 0 && 0 <= b < p && n <= fuel && Walk(b, a, p, n) < l
    ensures 0 <= Skip(b, a, p, l, fuel) < p && Skip(b, a, p, l, fuel) < l
    decreases n
  {
    WalkStep(b, a, p, n);
    if b >= l {
      SkipLands((b + a) % p, a, p, l, fuel - 1, n - 1);
    }
  }

  /** With p prime, 0 < a < p and l >= 1, the skip loop stops below l within p steps. */
  lemma SkipStops(b: int, a: int, p: int, l: int)
    requires Util.Prime(p) && 0 < a < p && 0 <= b < p && l >= 1
    ensures 0 <= Skip(b, a, p, l, p) < p && Skip(b, a, p, l, p) < l
  {
    var n := ReachZero(b, a, p);
    SkipLands(b, a, p, l, p, n);
  }

  /** How many indices pick_indices writes: d clipped to l, but always at least one. */
  function IndexCount(d: int, l: int): (c: int)
    ensures c >= 1 && (l >= 1 ==> c <= l)
    ensures 1 <= d <= l ==> c == d
  {
    var e := if d > l then l else d;
    if e >= 1 then e else 1
  }

  /** The k indices after c: each is one step of the walk from the last, then skipped below l. */
  function Hits(c: int, a: int, p: int, l: int, k: nat): (s: seq<int>)
    requires p > 0
    ensures |s| == k
    decreases k
  {
    if k == 0 then []
    else
      var next := Skip((c + a) % p, a, p, l, p);
      [next] + Hits(next, a, p, l, k - 1)
  }

  /** The indices pick_indices writes, in the order it writes them. */
  function Walked(b: int, a: int, p: int, l: int, d: int): (s: seq<int>)
    requires p > 0
    ensures |s| == IndexCount(d, l)
  {
    var first := Skip(b, a, p, l, p);
    [first] + Hits(first, a, p, l, IndexCount(d, l) - 1)
  }

  lemma {:induction false} HitsBelow(c: int, a: int, p: int, l: int, k: nat)
    requires Util.Prime(p) && 0 < a < p && 0 <= c < p && l >= 1
    ensures forall i :: 0 <= i < k ==> 0 <= Hits(c, a, p, l, k)[i] < l
    decreases k
  {
    if k > 0 {
      var next := Skip((c + a) % p, a, p, l, p);
      SkipStops((c + a) % p, a, p, l);
      HitsBelow(next, a, p, l, k - 1);
    }
  }

  /** Every index the walk writes lies in 0 .. l - 1, and there are IndexCount(d, l) of them. */
  lemma WalkedBelow(b: int, a: int, p: int, l: int, d: int)
    requires Util.Prime(p) && 0 < a < p && 0 <= b < p && l >= 1
    ensures |Walked(b, a, p, l, d)| == IndexCount(d, l)
    ensures forall i :: 0 <= i < |Walked(b, a, p, l, d)| ==> 0 <= Walked(b, a, p, l, d)[i] < l
  {
    var first := Skip(b, a, p, l, p);
    SkipStops(b, a, p, l);
    HitsBelow(first, a, p, l, IndexCount(d, l) - 1);
  }

  /** The skip loop `while (b >= l) b = (b + a) % p` of pick_indices. */
  method SkipBelow(b0: int, a: int, p: int, l: int) returns (b: int)
    requires Util.Prime(p) && 0 < a < p && 0 <= b0 < p && l >= 1
    ensures b == Skip(b0, a, p, l, p) && 0 <= b < l && b < p
  {
    SkipStops(b0, a, p, l);
    b := b0;
    ghost var fuel: nat := p;
    while b >= l
      invariant 0 <= b < p
      invariant Skip(b, a, p, l, fuel) == Skip(b0, a, p, l, p) < l
      decreases fuel
    {
      b := (b + a) % p;
      fuel := fuel - 1;
    }
  }

  /**
   * The writing loop of pick_indices, for d already clipped to l: skip b
   * below l and write it, then d - 1 times step b once, skip below l again
   * and write it.
   */
  method WriteWalk(b0: int, a: int, p: int, l: int, d: int, indices: array<int>) returns (count: int)
    requires Util.Prime(p) && 0 < a < p && 0 <= b0 < p && 1 <= l && d <= l
    requires IndexCount(d, l) <= indices.Length
    modifies indices
    ensures count == IndexCount(d, l)
    ensures indices[..count] == Walked(b0, a, p, l, d)
    ensures indices[count..] == old(indices[count..])
  {
    var b := SkipBelow(b0, a, p, l);
    indices[0] := b;
    count := 1;
    var j := 1;
    while j < d
      invariant 1 <= j && count == j && (j <= d || j == 1)
      invariant 0 <= b < p
      invariant indices[..count] + Hits(b, a, p, l, IndexCount(d, l) - count) == Walked(b0, a, p, l, d)
      invariant indices[count..] == old(indices[count..])
    {
      b := (b + a) % p;
      b := SkipBelow(b, a, p, l);
      indices[count] := b;
      count := count + 1;
      j := j + 1;
    }
  }

  /** The values of s never decrease. */
  predicate Sorted(s: seq<int>)
  {
    forall x, y :: 0 <= x < y < |s| ==> s[x] <= s[y]
  }

  /** Every value of p is at most every value of q. */
  predicate Below(p: seq<int>, q: seq<int>)
  {
    forall x, y :: 0 <= x < |p| && 0 <= y < |q| ==> p[x] <= q[y]
  }

  /** Below depends on the values of q only, not on their order. */
  lemma BelowPermuted(p: seq<int>, q: seq<int>, q': seq<int>)
    requires Below(p, q) && multiset(q) == multiset(q')
    ensures Below(p, q')
  {
    forall x, y | 0 <= x < |p| && 0 <= y < |q'|
      ensures p[x] <= q'[y]
    {
      assert q'[y] in multiset(q');
      var z :| 0 <= z < |q| && q[z] == q'[y];
    }
  }

  /** One more settled entry: s[i] is at most everything after it and at least everything before it. */
  lemma SortedStep(s: seq<int>, i: int, n: int)
    requires 0 <= i < n <= |s|
    requires Sorted(s[..i]) && Below(s[..i], s[i..n])
    requires forall y :: i < y < n ==> s[i] <= s[y]
    ensures Sorted(s[..i + 1]) && Below(s[..i + 1], s[i + 1..n])
  {
    forall x | 0 <= x < i
      ensures s[x] <= s[i]
    {
      assert s[..i][x] == s[x] && s[i..n][0] == s[i];
    }
    var front, back := s[..i + 1], s[i + 1..n];
    forall x, y | 0 <= x < |front| && 0 <= y < |back|
      ensures front[x] <= back[y]
    {
      if x < i {
        assert s[..i][x] == s[x] && s[i..n][y + 1] == s[i + 1 + y];
      }
    }
  }

  /** Exchange entries i and j. */
  method Swap(a: array<int>, i: int, j: int)
    requires 0 <= i < j < a.Length
    modifies a
    ensures a[..] == old(a[..])[i := old(a[j])][j := old(a[i])]
  {
    a[i], a[j] := a[j], a[i];
  }

  /** Exchanging two entries of a sequence keeps its multiset of values. */
  lemma SwapPermutes(s: seq<int>, i: int, j: int)
    requires 0 <= i < j < |s|
    ensures multiset(s[i := s[j]][j := s[i]]) == multiset(s)
  {
    var t := s[i := s[j]];
    assert multiset(t) == multiset(s) - multiset{s[i]} + multiset{s[j]};
    assert multiset(t[j := s[i]]) == multiset(t) - multiset{s[j]} + multiset{s[i]};
  }

  /**
   * One step of the inner loop: when entry j was smaller than entry i and
   * the two have been exchanged, entry i is at most every entry up to j,
   * everything outside i .. n - 1 is as it was and i .. n - 1 is permuted.
   */
  lemma SwapStep(a: array<int>, s: seq<int>, i: int, j: int, n: int)
    requires 0 <= i < j < n <= |s| && s[j] < s[i]
    requires forall y :: i < y < j ==> s[i] <= s[y]
    requires a[..] == s[i := s[j]][j := s[i]]
    ensures forall y :: i < y <= j ==> a[i] <= a[y]
    ensures a[..i] == s[..i] && a[n..] == s[n..] && multiset(a[i..n]) == multiset(s[i..n])
  {
    var t := a[..];
    var u := s[i..n];
    assert t[i..n] == u[0 := u[j - i]][j - i := u[0]];
    SwapPermutes(u, 0, j - i);
    assert t[..i] == s[..i];
    assert t[n..] == s[n..];
    forall y | i < y <= j
      ensures a[i] <= a[y]
    {
      assert a[i] == t[i] && a[y] == t[y];
    }
  }

  /** The inner loop of the exchange sort: entry i ends up at most every entry after it, below n. */
  method SettleFront(a: array<int>, i: int, n: int)
    requires 0 <= i < n <= a.Length
    modifies a
    ensures forall y :: i < y < n ==> a[i] <= a[y]
    ensures a[..i] == old(a[..i]) && a[n..] == old(a[n..])
    ensures multiset(a[i..n]) == multiset(old(a[i..n]))
  {
    var j := i + 1;
    while j < n
      invariant i < j <= n
      invariant forall y :: i < y < j ==> a[i] <= a[y]
      invariant a[..i] == old(a[..i]) && a[n..] == old(a[n..])
      invariant multiset(a[i..n]) == multiset(old(a[i..n]))
    {
      if a[i] > a[j] {
        ghost var before := a[..];
        Swap(a, i, j);
        SwapStep(a, before, i, j, n);
      }
      j := j + 1;
    }
  }

  /**
   * One pass of the outer loop, on values: if the first i entries were
   * sorted and at most the rest up to n, and the pass kept them, put at
   * position i a least entry of i .. n - 1 and permuted that range, then the
   * first i + 1 entries are sorted and at most the rest, and the first n
   * entries are a permutation of what they were.
   */
  lemma SettledStep(s: seq<int>, t: seq<int>, i: int, n: int)
    requires 0 <= i < n <= |s| == |t|
    requires Sorted(s[..i]) && Below(s[..i], s[i..n])
    requires t[..i] == s[..i] && multiset(t[i..n]) == multiset(s[i..n])
    requires forall y :: i < y < n ==> t[i] <= t[y]
    ensures Sorted(t[..i + 1]) && Below(t[..i + 1], t[i + 1..n])
    ensures multiset(t[..n]) == multiset(s[..n])
  {
    BelowPermuted(s[..i], s[i..n], t[i..n]);
    SortedStep(t, i, n);
    assert t[..n] == t[..i] + t[i..n] && s[..n] == s[..i] + s[i..n];
  }

  /**
   * The exchange sort at the end of pick_indices: for each i, every later
   * entry smaller than entry i trades places with it. The first n entries
   * end up in non-decreasing order, holding the same values.
   */
  method ExchangeSort(a: array<int>, n: int)
    requires 0 <= n <= a.Length
    modifies a
    ensures Sorted(a[..n]) && multiset(a[..n]) == multiset(old(a[..n]))
    ensures a[n..] == old(a[n..])
  {
    var i := 0;
    while i < n - 1
      invariant 0 <= i <= n && (n > 0 ==> i < n)
      invariant Sorted(a[..i]) && Below(a[..i], a[i..n])
      invariant multiset(a[..n]) == multiset(old(a[..n]))
      invariant a[n..] == old(a[n..])
    {
      ghost var before := a[..];
      SettleFront(a, i, n);
      SettledStep(before, a[..], i, n);
      i := i + 1;
    }
    if n > 0 {
      SortedStep(a[..], i, n);
      assert a[..i + 1] == a[..n];
    }
  }

  /** Reordering keeps every value inside 0 .. l - 1. */
  lemma PermutedBelow(s: seq<int>, t: seq<int>, l: int)
    requires multiset(s) == multiset(t)
    requires forall i :: 0 <= i < |s| ==> 0 <= s[i] < l
    ensures forall i :: 0 <= i < |t| ==> 0 <= t[i] < l
  {
    forall i | 0 <= i < |t|
      ensures 0 <= t[i] < l
    {
      assert t[i] in multiset(t);
      var k :| 0 <= k < |s| && s[k] == t[i];
    }
  }

  /** The degree pick_indices draws: deg(v) for v the first draw modulo 2^20. */
  function Degree(deg: nat -> int, rand: Libc.Rand, seed: nat): int
  {
    deg(rand(seed, 0) % 1048576)
  }

  /**
   * The walk parameters pick_indices draws after srand(seed), for the prime
   * p: the step a in 1 .. p - 1 (second draw) and the start b in 0 .. p - 1
   * (third draw).
   */
  function Step(rand: Libc.Rand, seed: nat, p: int): (a: int)
    requires p >= 2
    ensures 1 <= a <= p - 1
  {
    1 + rand(seed, 1) % (p - 1)
  }

  function Start(rand: Libc.Rand, seed: nat, p: int): (b: int)
    requires p >= 2
    ensures 0 <= b < p
  {
    rand(seed, 2) % p
  }

  /**
   * The indices pick_indices chooses for the seed, in the order the walk
   * visits them: the walk modulo the least prime p >= l, from the drawn
   * start with the drawn step, for the drawn degree.
   */
  ghost function Picked(l: int, deg: nat -> int, rand: Libc.Rand, seed: nat): (s: seq<int>)
    requires l >= 2
    ensures |s| == IndexCount(Degree(deg, rand, seed), l)
    ensures forall i :: 0 <= i < |s| ==> 0 <= s[i] < l
  {
    var p := NextPrime(l);
    NextPrimeIsPrime(l);
    var d := if Degree(deg, rand, seed) > l then l else Degree(deg, rand, seed);
    WalkedBelow(Start(rand, seed, p), Step(rand, seed, p), p, l, d);
    Walked(Start(rand, seed, p), Step(rand, seed, p), p, l, d)
  }

  /**
   * pick_indices for an intermediate-symbol count l >= 2 and the degree
   * function `deg`: the indices written are those of the walk, as a
   * multiset, in ascending order; and nothing after them changes.
   */
  method PickIndices(l: int, deg: nat -> int, rand: Libc.Rand, codeBlockIndex: int, indices: array<int>) returns (count: int)
    requires l >= 2
    requires IndexCount(Degree(deg, rand, Libc.Unsigned32(codeBlockIndex)), l) <= indices.Length
    modifies indices
    ensures count == IndexCount(Degree(deg, rand, Libc.Unsigned32(codeBlockIndex)), l)
    ensures multiset(indices[..count]) == multiset(Picked(l, deg, rand, Libc.Unsigned32(codeBlockIndex)))
    ensures Sorted(indices[..count])
    ensures forall i :: 0 <= i < count ==> 0 <= indices[i] < l
    ensures indices[count..] == old(indices[count..])
  {
    var lprime, a, b, d := DrawWalk(l, deg, rand, Libc.Unsigned32(codeBlockIndex));
    count := WriteSorted(b, a, lprime, l, d, indices);
  }

  /**
   * The second part of pick_indices: the walk written out, then sorted in
   * place. The result holds the walk's indices, in ascending order.
   */
  method WriteSorted(b0: int, a: int, p: int, l: int, d: int, indices: array<int>) returns (count: int)
    requires Util.Prime(p) && 0 < a < p && 0 <= b0 < p && 1 <= l && d <= l
    requires IndexCount(d, l) <= indices.Length
    modifies indices
    ensures count == IndexCount(d, l)
    ensures multiset(indices[..count]) == multiset(Walked(b0, a, p, l, d))
    ensures Sorted(indices[..count])
    ensures forall i :: 0 <= i < count ==> 0 <= indices[i] < l
    ensures indices[count..] == old(indices[count..])
  {
    count := WriteWalk(b0, a, p, l, d, indices);
    WalkedBelow(b0, a, p, l, d);
    ghost var written := indices[..count];
    ExchangeSort(indices, count);
    ghost var sorted := indices[..count];
    PermutedBelow(written, sorted, l);
    forall i | 0 <= i < count
      ensures 0 <= indices[i] < l
    {
      assert indices[i] == sorted[i];
    }
  }

  /** The first part of pick_indices: the prime L', three draws, and the degree clipped to l. */
  method DrawWalk(l: int, deg: nat -> int, rand: Libc.Rand, seed: nat) returns (lprime: int, a: int, b: int, d: int)
    requires l >= 2
    ensures Util.Prime(lprime) && 0 < a < lprime && 0 <= b < lprime && d <= l
    ensures IndexCount(d, l) == IndexCount(Degree(deg, rand, seed), l)
    ensures Walked(b, a, lprime, l, d) == Picked(l, deg, rand, seed)
  {
    lprime := SmallestPrimeGreaterOrEqual(l);
    NextPrimeIsPrime(l);
    a := Step(rand, seed, lprime);
    b := Start(rand, seed, lprime);
    d := Degree(deg, rand, seed);
    if d > l {
      d := l;
    }
  }
}
