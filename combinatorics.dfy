/**
 * Reference definitions for the counting functions of the utility file:
 * factorials, binomial coefficients (by Pascal's rule) and products of
 * integer sequences, with the identities that connect them.
 */
module Combinatorics {

  function Fact(n: nat): (r: nat)
    ensures r >= 1
  {
    if n == 0 then 1 else n * Fact(n - 1)
  }

  /** Binomial coefficient by Pascal's rule; zero outside 0 <= k <= n. */
  function Binom(n: nat, k: nat): nat
  {
    if k == 0 then 1
    else if n == 0 then 0
    else Binom(n - 1, k - 1) + Binom(n - 1, k)
  }

  /** Product of a sequence of integers. */
  function Prod(s: seq<int>): int
  {
    if s == [] then 1 else s[0] * Prod(s[1..])
  }

  /** The integers lo, lo + 1, …, hi - 1. */
  function Range(lo: int, hi: int): (r: seq<int>)
    ensures |r| == if lo <= hi then hi - lo else 0
    ensures forall i :: 0 <= i < |r| ==> r[i] == lo + i
    decreases hi - lo
  {
    if lo >= hi then [] else [lo] + Range(lo + 1, hi)
  }

  lemma {:induction false} BinomZero(n: nat, k: nat)
    requires k > n
    ensures Binom(n, k) == 0
  {
    if n > 0 {
      BinomZero(n - 1, k - 1);
      BinomZero(n - 1, k);
    }
  }

  lemma {:induction false} BinomFull(n: nat)
    ensures Binom(n, n) == 1
  {
    if n > 0 {
      BinomFull(n - 1);
      BinomZero(n - 1, n);
    }
  }

  lemma {:induction false} BinomOne(n: nat)
    ensures Binom(n, 1) == n
  {
    if n > 0 {
      BinomOne(n - 1);
    }
  }

  lemma {:induction false} BinomPositive(n: nat, k: nat)
    requires k <= n
    ensures Binom(n, k) >= 1
  {
    if k > 0 && n > 0 {
      BinomPositive(n - 1, k - 1);
    }
  }

  /** n! = C(n, k) · k! · (n - k)!, the closed form that `choose` computes. */
  lemma {:induction false} BinomFactorial(n: nat, k: nat)
    requires k <= n
    ensures Binom(n, k) * Fact(k) * Fact(n - k) == Fact(n)
  {
    if k == 0 {
    } else if k == n {
      BinomFull(n);
    } else {
      BinomFactorial(n - 1, k - 1);
      BinomFactorial(n - 1, k);
      PascalStep(Binom(n - 1, k - 1), Binom(n - 1, k), Fact(k - 1), Fact(n - 1 - k), Fact(n - 1), n, k);
    }
  }

  lemma BinomSymmetric(n: nat, k: nat)
    requires k <= n
    ensures Binom(n, k) == Binom(n, n - k)
  {
    BinomFactorial(n, k);
    BinomFactorial(n, n - k);
    assert n - (n - k) == k;
    SymmetricStep(Binom(n, k), Binom(n, n - k), Fact(k), Fact(n - k), Fact(n));
  }

  lemma CancelPositive(a: int, b: int, d: int)
    requires d > 0 && a * d == b * d
    ensures a == b
  {
    assert (a - b) * d == 0;
  }

  lemma SymmetricStep(a: int, b: int, x: int, y: int, f: int)
    requires x > 0 && y > 0
    requires a * x * y == f && b * y * x == f
    ensures a == b
  {
    assert a * (x * y) == b * (x * y);
    CancelPositive(a, b, x * y);
  }

  /** The arithmetic of one Pascal step of BinomFactorial, over plain integers. */
  lemma PascalStep(a: int, b: int, fa: int, fb: int, f: int, n: int, k: int)
    requires a * fa * ((n - k) * fb) == f
    requires b * (k * fa) * fb == f
    ensures (a + b) * (k * fa) * ((n - k) * fb) == n * f
  {
    calc {
      (a + b) * (k * fa) * ((n - k) * fb);
      k * (a * fa * ((n - k) * fb)) + (n - k) * (b * (k * fa) * fb);
      k * f + (n - k) * f;
    }
  }

  /** Every middle coefficient of row n is at least n. */
  lemma {:induction false} BinomAtLeastN(n: nat, k: nat)
    requires 1 <= k < n
    ensures Binom(n, k) >= n
  {
    if k == 1 {
      BinomOne(n);
    } else {
      BinomAtLeastN(n - 1, k - 1);
      BinomPositive(n - 1, k);
    }
  }

  lemma {:induction false} ProdAppend(s: seq<int>, t: seq<int>)
    ensures Prod(s + t) == Prod(s) * Prod(t)
  {
    if s == [] {
      assert s + t == t;
    } else {
      assert (s + t)[1..] == s[1..] + t;
      ProdAppend(s[1..], t);
    }
  }

  /** Replacing one factor scales the product by the ratio of the new factor to the old one. */
  lemma {:induction false} ProdUpdate(s: seq<int>, i: nat, v: int)
    requires i < |s|
    ensures Prod(s[i := v]) * s[i] == Prod(s) * v
  {
    if i == 0 {
      assert s[i := v][1..] == s[1..];
    } else {
      assert s[i := v][1..] == s[1..][i - 1 := v];
      ProdUpdate(s[1..], i - 1, v);
    }
  }

  lemma {:induction false} ProdRangeFact(n: nat)
    ensures Prod(Range(1, n + 1)) == Fact(n)
  {
    if n > 0 {
      assert Range(1, n + 1) == Range(1, n) + [n] by {
        assert forall i :: 0 <= i < n ==> Range(1, n + 1)[i] == (Range(1, n) + [n])[i];
      }
      ProdAppend(Range(1, n), [n]);
      ProdRangeFact(n - 1);
    }
  }

  /** A range splits at any point between its ends. */
  lemma RangeSplit(lo: int, mid: int, hi: int)
    requires lo <= mid <= hi
    ensures Range(lo, hi) == Range(lo, mid) + Range(mid, hi)
  {
    var r, s := Range(lo, hi), Range(lo, mid) + Range(mid, hi);
    assert |r| == |s|;
    forall i | 0 <= i < |r|
      ensures r[i] == s[i]
    {
      if i < mid - lo {
        assert s[i] == Range(lo, mid)[i];
      } else {
        assert s[i] == Range(mid, hi)[i - (mid - lo)];
      }
    }
  }

  /** (k+1)·(k+2)·…·n times k! is n!. */
  lemma ProdRangeSplit(k: nat, n: nat)
    requires k <= n
    ensures Prod(Range(k + 1, n + 1)) * Fact(k) == Fact(n)
  {
    RangeSplit(1, k + 1, n + 1);
    ProdAppend(Range(1, k + 1), Range(k + 1, n + 1));
    ProdRangeFact(n);
    ProdRangeFact(k);
    var a, p := Prod(Range(1, k + 1)), Prod(Range(k + 1, n + 1));
    assert a * p == p * a;
  }

  /** The numerators k+1..n and denominators 1..n-k of `choose` have ratio C(n, k). */
  lemma ChooseFactors(n: nat, k: nat)
    requires k <= n
    ensures Prod(Range(k + 1, n + 1)) == Binom(n, k) * Prod(Range(1, n - k + 1))
  {
    ProdRangeSplit(k, n);
    ProdRangeFact(n - k);
    BinomFactorial(n, k);
    CancelFactor(Prod(Range(k + 1, n + 1)), Binom(n, k), Fact(k), Fact(n - k), Fact(n));
  }

  /** From p·a == f == b·a·c with a positive, p == b·c. */
  lemma CancelFactor(p: int, b: int, a: int, c: int, f: int)
    requires a > 0 && p * a == f && b * a * c == f
    ensures p == b * c
  {
    assert p * a == (b * c) * a;
    CancelPositive(p, b * c, a);
  }

  /** Dividing one factor by d divides the product by d. */
  lemma {:induction false} ProdScale(s: seq<int>, i: nat, v: int, d: int)
    requires i < |s| && s[i] == v * d
    ensures Prod(s[i := v]) * d == Prod(s)
  {
    if i == 0 {
      assert s[i := v][1..] == s[1..];
    } else {
      assert s[i := v][1..] == s[1..][i - 1 := v];
      ProdScale(s[1..], i - 1, v, d);
    }
  }
}
