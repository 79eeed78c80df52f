/**
 * Index generation of the Raptor codec, after section 5.4.4 of RFC 5053:
 * the table-driven generator Rand, the degree generator Deg, the number of
 * intermediate symbols (L = K + S + H), the triple generator and the LT
 * indices of one encoding symbol.
 *
 * The two 256-entry tables V0 and V1 of Rand and the systematic index table
 * J are parameters: the repository leaves their contents out. The
 * floating-point starting points of the two searches in
 * intermediate_symbols, floor(sqrt(2K)) and floor(log(S + K) / log 4), are
 * parameters too (isqrt and ilog4).
 */
module Raptor {
  import Ru10
  import Util
  import Libc
  import Combinatorics

  // ---------------------------------------------------------------------
  // raptor_rand

  /** Two 256-entry tables of bytes, as raptor.c declares V0 and V1. */
  predicate ByteTables(v0: seq<bv8>, v1: seq<bv8>)
  {
    |v0| == 256 && |v1| == 256
  }

  /** Two 256-entry tables of 32-bit words, as section 5.4.4.1 of RFC 5053 defines V0 and V1. */
  predicate Tables(v0: seq<bv32>, v1: seq<bv32>)
  {
    |v0| == 256 && |v1| == 256
  }

  /** A remainder is never larger than a non-negative dividend. */
  lemma ModAtMost(w: int, m: int)
    requires w >= 0 && m >= 1
    ensures w % m <= w
  {
    var q := w / m;
    assert w == m * q + w % m;
    if q > 0 {
      Ru10.ProductAtLeast(m, q);
    }
  }

  /** Reducing modulo 2^32 first leaves the last byte alone. */
  lemma LowByte(n: int)
    ensures Libc.Unsigned32(n) % 256 == n % 256
  {
    var q1 := n / 0x1_0000_0000;
    var r1 := n % 0x1_0000_0000;
    var q2 := r1 / 256;
    var r2 := r1 % 256;
    assert n == (16777216 * q1 + q2) * 256 + r2;
    Util.DivUnique(n, 256, 16777216 * q1 + q2, r2);
  }

  /**
   * raptor_rand(x, i, m) as written: the table positions are taken from
   * 32-bit sums, and the byte tables make every result a byte.
   */
  function RandAsWritten(x: nat, i: nat, m: int, v0: seq<bv8>, v1: seq<bv8>): (r: int)
    requires ByteTables(v0, v1) && m >= 1
    ensures 0 <= r < m && r < 256
  {
    var w := (v0[Libc.Unsigned32(x + i) % 256] ^ v1[Libc.Unsigned32(x / 256 + i) % 256]) as int;
    ModAtMost(w, m);
    w % m
  }

  /** The table word V0[(x + i) % 256] ^ V1[(x / 256 + i) % 256], the positions taken from 32-bit sums. */
  function Word(x: nat, i: nat, v0: seq<bv32>, v1: seq<bv32>): bv32
    requires Tables(v0, v1)
  {
    v0[Libc.Unsigned32(x + i) % 256] ^ v1[Libc.Unsigned32(x / 256 + i) % 256]
  }

  /** raptor_rand(x, i, m) with 32-bit tables: the table word modulo m. */
  function Rand(x: nat, i: nat, m: int, v0: seq<bv32>, v1: seq<bv32>): (r: int)
    requires Tables(v0, v1) && m >= 1
    ensures 0 <= r < m
  {
    Word(x, i, v0, v1) as int % m
  }

  /** The 32-bit wrap-around of the sums x + i and x / 256 + i never moves a table position. */
  lemma RandPositions(x: nat, i: nat, m: int, v0: seq<bv32>, v1: seq<bv32>)
    requires Tables(v0, v1) && m >= 1
    ensures Rand(x, i, m, v0, v1) == (v0[(x + i) % 256] ^ v1[(x / 256 + i) % 256]) as int % m
  {
    LowByte(x + i);
    LowByte(x / 256 + i);
  }

  /** A table whose 256 entries are all w. */
  function Constant(w: bv32): (t: seq<bv32>)
    ensures |t| == 256 && forall i :: 0 <= i < 256 ==> t[i] == w
  {
    seq(256, _ => w)
  }

  /** With 32-bit tables every value below m is an output of Rand for some tables. */
  lemma RandReaches(x: nat, i: nat, m: int, w: bv32)
    requires 1 <= m && w as int < m
    ensures Rand(x, i, m, Constant(w), Constant(0)) == w as int
  {
    var v0, v1 := Constant(w), Constant(0);
    var p, q := Libc.Unsigned32(x + i) % 256, Libc.Unsigned32(x / 256 + i) % 256;
    assert v0[p] == w && v1[q] == 0;
    XorZero(w);
    assert Word(x, i, v0, v1) == w;
    SmallMod(w as int, m);
  }

  /** A non-negative number below m is its own remainder. */
  lemma SmallMod(n: int, m: int)
    requires 0 <= n < m
    ensures n % m == n
  {
  }

  /** Exclusive or with zero changes nothing. */
  lemma XorZero(w: bv32)
    ensures w ^ 0 == w
  {
  }

  // ---------------------------------------------------------------------
  // deg

  /** The table f of deg: the upper ends of the brackets of v. */
  const DegreeBounds: seq<int> := [0, 10241, 491582, 712794, 831695, 948446, 1032189, 1048576]

  /** The table d of deg: the degree for each bracket. */
  const Degrees: seq<int> := [0, 1, 2, 3, 4, 10, 11, 40]

  /**
   * The degree distribution of section 5.4.4.2 of RFC 5053 as a step
   * function of v: 1 below 10241, 2 below 491582, 3 below 712794, 4 below
   * 831695, 10 below 948446, 11 below 1032189, and 40 from there on.
   */
  function DegreeOf(v: int): (d: int)
    ensures d == 1 || d == 2 || d == 3 || d == 4 || d == 10 || d == 11 || d == 40
  {
    if v < 10241 then 1
    else if v < 491582 then 2
    else if v < 712794 then 3
    else if v < 831695 then 4
    else if v < 948446 then 10
    else if v < 1032189 then 11
    else 40
  }

  /** A larger v never gives a smaller degree. */
  lemma DegreeMonotone(v: int, w: int)
    requires v <= w
    ensures DegreeOf(v) <= DegreeOf(w)
  {
  }

  /**
   * deg(v): the first j in 1 .. 6 with v < f[j] gives d[j]; past them all
   * the last entry d[7]. The entry f[7] is never read.
   */
  method Deg(v: nat) returns (d: int)
    ensures d == DegreeOf(v)
  {
    var j := 1;
    while j < |DegreeBounds| - 1
      invariant 1 <= j <= |DegreeBounds| - 1
      invariant v >= DegreeBounds[j - 1]
    {
      if v < DegreeBounds[j] {
        return Degrees[j];
      }
      j := j + 1;
    }
    return Degrees[|Degrees| - 1];
  }

  /**
   * With the byte tables of raptor.c the first draw of the triple generator
   * is below 256, so the degree is always 1.
   */
  lemma ByteDegreeIsOne(y: nat, v0: seq<bv8>, v1: seq<bv8>)
    requires ByteTables(v0, v1)
    ensures DegreeOf(RandAsWritten(y, 0, 1048576, v0, v1)) == 1
  {
  }

  /**
   * With 32-bit tables every degree of the distribution can occur: whatever
   * the seed y, some tables make the first draw any v below 2^20.
   */
  lemma DegreeReachable(y: nat, v: bv32)
    requires v < 1048576
    ensures DegreeOf(Rand(y, 0, 1048576, Constant(v), Constant(0))) == DegreeOf(v as int)
  {
    RandReaches(y, 0, 1048576, v);
  }

  // ---------------------------------------------------------------------
  // intermediate_symbols

  /** x(x - 1) >= 2k: the first search of intermediate_symbols stops at such an x. */
  predicate XDone(k: nat, x: int)
  {
    x * (x - 1) >= 2 * k
  }

  /** The first search runs past x only while x <= 2k. */
  lemma XBelow(k: nat, x: int)
    requires x >= 1 && !XDone(k, x)
    ensures x < 2 * k + 1
  {
    Ru10.ProductAtLeast(x - 1, x);
    assert (x - 1) * x == x * (x - 1);
  }

  /** The least x' >= x with x'(x' - 1) >= 2k. */
  function XFrom(k: nat, x: int): (r: int)
    requires x >= 1
    ensures r >= x && XDone(k, r)
    ensures forall y :: x <= y < r ==> !XDone(k, y)
    decreases 2 * k + 1 - x
  {
    if XDone(k, x) then x
    else
      XBelow(k, x);
      XFrom(k, x + 1)
  }

  /** C(h, floor(h / 2)), the central binomial coefficient. */
  function CenterBinom(h: nat): nat
  {
    Combinatorics.Binom(h, h / 2)
  }

  /** The second search runs past h only while h < n + 2. */
  lemma HBelow(n: nat, h: nat)
    requires CenterBinom(h) < n
    ensures h < n + 2
  {
    if h >= 2 {
      Combinatorics.BinomAtLeastN(h, h / 2);
    }
  }

  /** The least h' >= h with C(h', floor(h' / 2)) >= n. */
  function HFrom(n: nat, h: nat): (r: nat)
    ensures r >= h && CenterBinom(r) >= n
    ensures forall g :: h <= g < r ==> CenterBinom(g) < n
    decreases n + 2 - h
  {
    if CenterBinom(h) >= n then h
    else
      HBelow(n, h);
      HFrom(n, h + 1)
  }

  /** A start at or below the least solution does not change the result of the first search. */
  lemma XStart(k: nat, x: int)
    requires 1 <= x <= XFrom(k, 1)
    ensures XFrom(k, x) == XFrom(k, 1)
  {
  }

  /** A start at or below the least solution does not change the result of the second search. */
  lemma HStart(n: nat, h: nat)
    requires h <= HFrom(n, 0)
    ensures HFrom(n, h) == HFrom(n, 0)
  {
  }

  /** ceil(0.01 k), over the integers. */
  function Ceil100(k: nat): (c: nat)
    ensures 100 * c >= k && 100 * (c - 1) < k
  {
    (k + 99) / 100
  }

  /** The three counts intermediate_symbols computes. */
  datatype Symbols = Symbols(l: int, s: int, h: int)

  /**
   * intermediate_symbols(K): X is the least x from the start isqrt(K), at
   * least 1, with x(x - 1) >= 2K; S is the least prime at or above
   * ceil(0.01 K) + X; H is the least h from the start ilog4(S + K) with
   * C(h, floor(h / 2)) >= S + K; and L = K + S + H.
   */
  ghost function SymbolsOf(k: nat, isqrt: nat -> nat, ilog4: nat -> nat): (r: Symbols)
    ensures r.l == k + r.s + r.h
  {
    var x := XFrom(k, if isqrt(k) < 1 then 1 else isqrt(k));
    var s := Ru10.NextPrime(Ceil100(k) + x);
    var h := HFrom(s + k, ilog4(s + k));
    Symbols(k + s + h, s, h)
  }

  /**
   * For K >= 1, S is a prime of at least 3, C(H, floor(H / 2)) covers S + K,
   * and L' (the least prime at or above L) is a prime of at least L.
   */
  lemma SymbolsFacts(k: nat, isqrt: nat -> nat, ilog4: nat -> nat)
    requires k >= 1
    ensures var r := SymbolsOf(k, isqrt, ilog4);
      Util.Prime(r.s) && r.s >= 3 && r.l >= k + 3 && CenterBinom(r.h) >= r.s + k
      && Util.Prime(Ru10.NextPrime(r.l)) && Ru10.NextPrime(r.l) >= r.l
  {
    var x0 := if isqrt(k) < 1 then 1 else isqrt(k);
    var x := XFrom(k, x0);
    assert x >= 2;
    Ru10.NextPrimeIsPrime(Ceil100(k) + x);
    var r := SymbolsOf(k, isqrt, ilog4);
    Ru10.NextPrimeIsPrime(r.l);
  }

  /** intermediate_symbols: the two searches, with the prime search between them. */
  method IntermediateSymbols(k: nat, isqrt: nat -> nat, ilog4: nat -> nat) returns (l: int, s: int, h: int)
    ensures Symbols(l, s, h) == SymbolsOf(k, isqrt, ilog4)
  {
    var x := isqrt(k);
    if x < 1 {
      x := 1;
    }
    ghost var x0 := x;
    while x * (x - 1) < 2 * k
      invariant x >= 1 && XFrom(k, x) == XFrom(k, x0)
      decreases 2 * k + 1 - x
    {
      XBelow(k, x);
      x := x + 1;
    }
    s := Ceil100(k) + x;
    s := Ru10.SmallestPrimeGreaterOrEqual(s);
    h := HSearch(s, k, ilog4);
    l := k + s + h;
  }

  /** The second search of intermediate_symbols, from ilog4(S + K). */
  method HSearch(s: int, k: nat, ilog4: nat -> nat) returns (h: nat)
    requires s + k >= 0
    ensures h == HFrom(s + k, ilog4(s + k))
  {
    h := ilog4(s + k);
    var c := Util.CenterBinomial(h);
    while c < s + k
      invariant c == CenterBinom(h) && HFrom(s + k, h) == HFrom(s + k, ilog4(s + k))
      decreases s + k + 2 - h
    {
      HBelow(s + k, h);
      h := h + 1;
      c := Util.CenterBinomial(h);
    }
  }

  // ---------------------------------------------------------------------
  // triple_generator

  /** The generator's preconditions: K >= 1 has an entry J(K) in the 32-bit table J, and V0, V1 are tables. */
  predicate Generator(k: nat, j: seq<int>, v0: seq<bv32>, v1: seq<bv32>)
  {
    1 <= k < |j| && 0 <= j[k] < 0x1_0000_0000 && Tables(v0, v1)
  }

  /**
   * The seed y of the triple generator for J(K) = jk and the symbol ID x,
   * with Q = 65521: A = (53591 + jk·997) mod Q in 64-bit arithmetic, B =
   * (10267·(jk + 1)) mod Q in 32-bit arithmetic (both the sum and the
   * product wrap modulo 2^32), and y = (B + x·A) mod Q.
   */
  function TripleSeed(jk: nat, x: nat): (y: nat)
    ensures y < 65521
  {
    var a := (53591 + jk * 997) % 65521;
    var b := Libc.Unsigned32(10267 * Libc.Unsigned32(jk + 1)) % 65521;
    (b + x * a) % 65521
  }

  /** The outputs of triple_generator: the degree d, the step a and the start b. */
  datatype Triple = Triple(d: int, a: int, b: int)

  /** L', the least prime at or above L. */
  ghost function LPrime(k: nat, isqrt: nat -> nat, ilog4: nat -> nat): int
  {
    Ru10.NextPrime(SymbolsOf(k, isqrt, ilog4).l)
  }

  /**
   * triple_generator(K, x): d from the first draw, a in 1 .. L' - 1 from the
   * second and b in 0 .. L' - 1 from the third, all three drawn with the
   * seed y.
   */
  ghost function TripleOf(k: nat, x: nat, j: seq<int>, v0: seq<bv32>, v1: seq<bv32>, isqrt: nat -> nat, ilog4: nat -> nat): (t: Triple)
    requires Generator(k, j, v0, v1)
    ensures 1 <= t.d <= 40
    ensures 1 <= t.a < LPrime(k, isqrt, ilog4) && 0 <= t.b < LPrime(k, isqrt, ilog4)
  {
    SymbolsFacts(k, isqrt, ilog4);
    var lp := LPrime(k, isqrt, ilog4);
    var y := TripleSeed(j[k], x);
    Triple(DegreeOf(Rand(y, 0, 1048576, v0, v1)), 1 + Rand(y, 1, lp - 1, v0, v1), Rand(y, 2, lp, v0, v1))
  }

  /** triple_generator: computes L and L' afresh, then draws the triple. */
  method TripleGenerator(k: nat, x: nat, j: seq<int>, v0: seq<bv32>, v1: seq<bv32>, isqrt: nat -> nat, ilog4: nat -> nat)
    returns (d: int, a: int, b: int)
    requires Generator(k, j, v0, v1)
    ensures Triple(d, a, b) == TripleOf(k, x, j, v0, v1, isqrt, ilog4)
  {
    var l, s, h := IntermediateSymbols(k, isqrt, ilog4);
    var lprime := Ru10.SmallestPrimeGreaterOrEqual(l);
    SymbolsFacts(k, isqrt, ilog4);
    var y := TripleSeed(j[k], x);
    var v := Rand(y, 0, 1048576, v0, v1);
    d := Deg(v);
    a := 1 + Rand(y, 1, lprime - 1, v0, v1);
    b := Rand(y, 2, lprime, v0, v1);
  }

  // ---------------------------------------------------------------------
  // find_lt_indices

  /**
   * The LT indices of encoding symbol x, in the order the walk visits them:
   * from b, step a modulo L', skipping every value >= L, for d clipped to
   * 1 .. L. All are below L.
   */
  ghost function LtIndices(k: nat, x: nat, j: seq<int>, v0: seq<bv32>, v1: seq<bv32>, isqrt: nat -> nat, ilog4: nat -> nat): (s: seq<int>)
    requires Generator(k, j, v0, v1)
    ensures |s| == Ru10.IndexCount(TripleOf(k, x, j, v0, v1, isqrt, ilog4).d, SymbolsOf(k, isqrt, ilog4).l)
    ensures forall i :: 0 <= i < |s| ==> 0 <= s[i] < SymbolsOf(k, isqrt, ilog4).l
  {
    SymbolsFacts(k, isqrt, ilog4);
    var t := TripleOf(k, x, j, v0, v1, isqrt, ilog4);
    var l := SymbolsOf(k, isqrt, ilog4).l;
    var lp := LPrime(k, isqrt, ilog4);
    var d := if t.d > l then l else t.d;
    Ru10.WalkedBelow(t.b, t.a, lp, l, d);
    Ru10.Walked(t.b, t.a, lp, l, d)
  }

  /**
   * The indices find_lt_indices computes as written: its skip loops test
   * b >= L' instead of b >= L, so they never run, and the indices are below
   * L' only.
   */
  ghost function LtIndicesAsWritten(k: nat, x: nat, j: seq<int>, v0: seq<bv32>, v1: seq<bv32>, isqrt: nat -> nat, ilog4: nat -> nat): (s: seq<int>)
    requires Generator(k, j, v0, v1)
    ensures |s| == Ru10.IndexCount(TripleOf(k, x, j, v0, v1, isqrt, ilog4).d, SymbolsOf(k, isqrt, ilog4).l)
    ensures forall i :: 0 <= i < |s| ==> 0 <= s[i] < LPrime(k, isqrt, ilog4)
  {
    SymbolsFacts(k, isqrt, ilog4);
    var t := TripleOf(k, x, j, v0, v1, isqrt, ilog4);
    var l := SymbolsOf(k, isqrt, ilog4).l;
    var lp := LPrime(k, isqrt, ilog4);
    var d := if t.d > l then l else t.d;
    Ru10.WalkedBelow(t.b, t.a, lp, lp, d);
    Ru10.Walked(t.b, t.a, lp, lp, d)
  }

  /** The first part of find_lt_indices: L, L', the triple, and d clipped to L. */
  method LtWalk(k: nat, x: nat, j: seq<int>, v0: seq<bv32>, v1: seq<bv32>, isqrt: nat -> nat, ilog4: nat -> nat)
    returns (l: int, lprime: int, d: int, a: int, b: int)
    requires Generator(k, j, v0, v1)
    ensures l == SymbolsOf(k, isqrt, ilog4).l && l >= 1 && d <= l
    ensures Util.Prime(lprime) && lprime >= l && 0 < a < lprime && 0 <= b < lprime
    ensures Ru10.Walked(b, a, lprime, l, d) == LtIndices(k, x, j, v0, v1, isqrt, ilog4)
    ensures Ru10.Walked(b, a, lprime, lprime, d) == LtIndicesAsWritten(k, x, j, v0, v1, isqrt, ilog4)
  {
    var s, h;
    l, s, h := IntermediateSymbols(k, isqrt, ilog4);
    lprime := Ru10.SmallestPrimeGreaterOrEqual(l);
    SymbolsFacts(k, isqrt, ilog4);
    d, a, b := TripleGenerator(k, x, j, v0, v1, isqrt, ilog4);
    if d > l {
      d := l;
    }
  }

  /**
   * find_lt_indices with the skip test of RFC 5053 (b >= L): the indices
   * written are those of the walk, as a multiset, in ascending order, all
   * below L; nothing after them changes. The ascending sort stands for the
   * qsort call.
   */
  method FindLtIndices(k: nat, x: nat, j: seq<int>, v0: seq<bv32>, v1: seq<bv32>, isqrt: nat -> nat, ilog4: nat -> nat, indices: array<int>)
    returns (count: int)
    requires Generator(k, j, v0, v1)
    requires |LtIndices(k, x, j, v0, v1, isqrt, ilog4)| <= indices.Length
    modifies indices
    ensures count == |LtIndices(k, x, j, v0, v1, isqrt, ilog4)|
    ensures multiset(indices[..count]) == multiset(LtIndices(k, x, j, v0, v1, isqrt, ilog4))
    ensures Ru10.Sorted(indices[..count])
    ensures forall i :: 0 <= i < count ==> 0 <= indices[i] < SymbolsOf(k, isqrt, ilog4).l
    ensures indices[count..] == old(indices[count..])
  {
    var l, lprime, d, a, b := LtWalk(k, x, j, v0, v1, isqrt, ilog4);
    count := Ru10.WriteSorted(b, a, lprime, l, d, indices);
  }

  /**
   * find_lt_indices as written: the skip loops test b >= L', so the indices
   * are only known to be below L'.
   */
  method FindLtIndicesAsWritten(k: nat, x: nat, j: seq<int>, v0: seq<bv32>, v1: seq<bv32>, isqrt: nat -> nat, ilog4: nat -> nat, indices: array<int>)
    returns (count: int)
    requires Generator(k, j, v0, v1)
    requires |LtIndicesAsWritten(k, x, j, v0, v1, isqrt, ilog4)| <= indices.Length
    modifies indices
    ensures count == |LtIndicesAsWritten(k, x, j, v0, v1, isqrt, ilog4)|
    ensures multiset(indices[..count]) == multiset(LtIndicesAsWritten(k, x, j, v0, v1, isqrt, ilog4))
    ensures Ru10.Sorted(indices[..count])
    ensures indices[count..] == old(indices[count..])
  {
    var l, lprime, d, a, b := LtWalk(k, x, j, v0, v1, isqrt, ilog4);
    count := Ru10.WriteSorted(b, a, lprime, lprime, d, indices);
  }

  // ---------------------------------------------------------------------
  // The skip test of find_lt_indices, on one input

  /** The starts floor(sqrt(2 K)) for K = 1 and floor(log(S + K) / log 4) for S + K = 4: both are 1. */
  function One(n: nat): nat
  {
    1
  }

  /** For K = 1: X = 2, S = 3, H = 4 and so L = 8. */
  lemma SymbolsOne()
    ensures SymbolsOf(1, One, One) == Symbols(8, 3, 4)
  {
    assert !XDone(1, 1) && XDone(1, 2);
    assert XFrom(1, 1) == 2;
    Ru10.SmallTrialPrime(3);
    assert Ru10.NextPrime(3) == 3;
    Combinatorics.BinomOne(2);
    Combinatorics.BinomOne(3);
    Combinatorics.BinomAtLeastN(4, 2);
    var h := HFrom(4, 1);
    assert CenterBinom(1) < 4 && CenterBinom(2) < 4 && CenterBinom(3) < 4 && CenterBinom(4) >= 4;
    assert h == 4;
  }

  /** 11 is prime. */
  lemma ElevenPrime()
    ensures Util.Prime(11)
  {
    forall d | 2 <= d < 11
      ensures 11 % d != 0
    {
      if d == 2 {
      } else if d == 3 {
      } else if d == 4 {
      } else if d == 5 {
      } else if d == 6 {
      } else if d == 7 {
      } else if d == 8 {
      } else if d == 9 {
      } else {
      }
    }
  }

  /** For K = 1: L' = 11, the least prime at or above 8. */
  lemma LPrimeOne()
    ensures LPrime(1, One, One) == 11
  {
    SymbolsOne();
    Ru10.NextPrimeIsPrime(8);
    var p := Ru10.NextPrime(8);
    assert !Util.Prime(8) && !Util.Prime(9) && !Util.Prime(10) by {
      assert 8 % 2 == 0 && 9 % 3 == 0 && 10 % 2 == 0;
    }
    ElevenPrime();
    assert p == 11;
  }

  /** For K = 1, symbol ID 0, V0 all 8 and V1 all 0: d = 1, a = 1 + 8 mod 10 = 9, b = 8 mod 11 = 8. */
  lemma TripleOne()
    ensures TripleOf(1, 0, [0, 0], Constant(8), Constant(0), One, One) == Triple(1, 9, 8)
  {
    LPrimeOne();
    var y := TripleSeed(0, 0);
    RandReaches(y, 0, 1048576, 8);
    RandReaches(y, 1, 10, 8);
    RandReaches(y, 2, 11, 8);
  }

  /**
   * As written, find_lt_indices can return an index that is not an
   * intermediate symbol: for K = 1, symbol ID 0, V0 all 8 and V1 all 0, L is
   * 8 and the only index is 8. The corrected skip test moves it on to
   * (8 + 9) mod 11 = 6.
   */
  lemma LtIndicesAsWrittenEscape()
    ensures SymbolsOf(1, One, One).l == 8
    ensures LtIndicesAsWritten(1, 0, [0, 0], Constant(8), Constant(0), One, One) == [8]
    ensures LtIndices(1, 0, [0, 0], Constant(8), Constant(0), One, One) == [6]
  {
    SymbolsOne();
    LPrimeOne();
    TripleOne();
    assert Ru10.Skip(8, 9, 11, 11, 11) == 8;
    assert Ru10.Skip(8, 9, 11, 8, 11) == 6 by {
      assert Ru10.Skip(6, 9, 11, 8, 10) == 6;
    }
    assert Ru10.Hits(8, 9, 11, 11, 0) == [] && Ru10.Hits(6, 9, 11, 8, 0) == [];
  }
}
