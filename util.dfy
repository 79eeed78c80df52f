/**
 * The integer utilities shared by the codecs (util.c; src/util.c holds the
 * same functions). Calls to libc `rand()` are replaced by an explicit finite
 * sequence of draws; running out of draws is reported as `None`.
 */
module Util {
  import opened Wrappers
  import opened Combinatorics
  import opened Swar

  // ---------------------------------------------------------------------
  // partition: Partition[I, J] of section 5.3.1.2 of RFC 5053

  /** numLong blocks of lenLong bytes and numShort blocks of lenShort bytes (JL, IL, JS, IS in the RFC). */
  datatype Parts = Parts(lenLong: nat, lenShort: nat, numLong: nat, numShort: nat)

  /**
   * Split i bytes into j blocks whose sizes differ by at most one. The
   * ceiling and floor of the floating-point quotient are the integer
   * expressions below for i >= 0 and j >= 1; a size whose block count is
   * zero is itself set to zero.
   */
  function Partition(i: nat, j: nat): (p: Parts)
    requires j >= 1
    ensures p.numLong + p.numShort == j && p.numLong < j && p.numShort >= 1
    ensures p.numLong == i % j && p.lenShort == i / j
    ensures p.lenLong * p.numLong + p.lenShort * p.numShort == i
    ensures p.numLong > 0 ==> p.lenLong == p.lenShort + 1
    ensures p.numLong == 0 ==> p.lenLong == 0
  {
    var lenLong := (i + j - 1) / j;
    var lenShort := i / j;
    var numLong := i - lenShort * j;
    var numShort := j - numLong;
    assert numLong == i % j;
    assert numLong > 0 ==> lenLong == lenShort + 1 by {
      if numLong > 0 {
        DivUnique(i + j - 1, j, lenShort + 1, numLong - 1);
      }
    }
    SizesAddUp(lenShort, numLong, j);
    Parts(if numLong == 0 then 0 else lenLong, if numShort == 0 then 0 else lenShort, numLong, numShort)
  }

  /** a / j is q when a = q·j + r with 0 <= r < j. */
  lemma DivUnique(a: int, j: int, q: int, r: int)
    requires j > 0 && 0 <= r < j && a == q * j + r
    ensures a / j == q
  {
    var q', r' := a / j, a % j;
    if q' != q {
      MulGap(q', q, j);
      MulGap(q, q', j);
      assert false;
    }
  }

  /** Quotients that differ make products at least a divisor apart. */
  lemma MulGap(x: int, y: int, j: int)
    requires j > 0
    ensures x > y ==> x * j >= y * j + j
  {
    if x > y {
      var d := x - y - 1;
      assert d * j >= 0;
      assert x * j == (y + 1 + d) * j == y * j + j + d * j;
    }
  }

  /** With q = i / j and r = i % j: r blocks of q + 1 and j - r blocks of q make q·j + r bytes. */
  lemma SizesAddUp(q: int, r: int, j: int)
    ensures (q + 1) * r + q * (j - r) == q * j + r
  {
  }

  // ---------------------------------------------------------------------
  // pickDegree: binary search of a cumulative distribution

  /** The table is non-decreasing on the indices 1 .. |cdf| - 1 that the search reads. */
  predicate NonDecreasing(cdf: seq<real>)
  {
    forall a, b :: 1 <= a <= b < |cdf| ==> cdf[a] <= cdf[b]
  }

  /** Reference definition: the least index from `i` on whose entry reaches r, or the last index. */
  function FirstAtLeast(cdf: seq<real>, r: real, i: nat): (d: nat)
    requires 1 <= i < |cdf|
    ensures i <= d < |cdf|
    ensures d == |cdf| - 1 || cdf[d] >= r
    ensures forall k :: i <= k < d ==> cdf[k] < r
    decreases |cdf| - i
  {
    if i == |cdf| - 1 || cdf[i] >= r then i else FirstAtLeast(cdf, r, i + 1)
  }

  /**
   * pickDegree(r, cdf, size) with size = |cdf|: the binary search over
   * indices 1 .. size - 1. On a non-decreasing table it finds the least index
   * whose entry is at least r, or size - 1 when there is none.
   */
  method PickDegree(r: real, cdf: seq<real>) returns (d: int)
    ensures |cdf| < 2 ==> d == 1
    ensures |cdf| >= 2 ==> 1 <= d < |cdf|
    ensures |cdf| >= 2 && NonDecreasing(cdf) ==> d == FirstAtLeast(cdf, r, 1)
  {
    var low, high := 1, |cdf| - 1;
    if low >= high {
      return low;
    }
    while low < high
      invariant 1 <= low <= high < |cdf|
      invariant NonDecreasing(cdf) ==> forall k :: 1 <= k < low ==> cdf[k] < r
      invariant NonDecreasing(cdf) ==> high == |cdf| - 1 || cdf[high] >= r
    {
      var mid := low + (high - low) / 2;
      if cdf[mid] >= r {
        high := mid;
      } else {
        low := mid + 1;
      }
    }
    return low;
  }

  // ---------------------------------------------------------------------
  // sampleUniform: distinct values drawn by rejection

  predicate Distinct(s: seq<int>)
  {
    forall a, b :: 0 <= a < b < |s| ==> s[a] != s[b]
  }

  predicate Below(s: seq<int>, max: int)
  {
    forall k :: 0 <= k < |s| ==> 0 <= s[k] < max
  }

  /**
   * Reference definition of the rejection loop: take draws in order, reduce
   * them modulo max, skip values already picked, and stop once num values
   * are picked; None when the draws run out first.
   */
  function Collect(draws: seq<nat>, max: nat, picks: seq<int>, num: nat): Option<seq<int>>
    requires max > 0
    decreases |draws|
  {
    if |picks| >= num then Some(picks)
    else if draws == [] then None
    else if draws[0] % max in picks then Collect(draws[1..], max, picks, num)
    else Collect(draws[1..], max, picks + [draws[0] % max], num)
  }

  /** What Collect returns extends the picks with distinct new values below max, up to num of them. */
  lemma {:induction false} CollectDistinct(draws: seq<nat>, max: nat, picks: seq<int>, num: nat)
    requires max > 0 && Distinct(picks) && Below(picks, max) && |picks| <= num
    ensures Collect(draws, max, picks, num).Some? ==>
      var s := Collect(draws, max, picks, num).value;
      |s| == num && Distinct(s) && Below(s, max) && s[..|picks|] == picks
    decreases |draws|
  {
    if |picks| < num && draws != [] {
      var p := draws[0] % max;
      if p in picks {
        CollectDistinct(draws[1..], max, picks, num);
      } else {
        CollectDistinct(draws[1..], max, picks + [p], num);
        var s := Collect(draws, max, picks, num);
        if s.Some? {
          assert s.value[..|picks|] == (s.value[..|picks| + 1])[..|picks|];
        }
      }
    }
  }

  /** The values the draws give modulo max. */
  function Residues(draws: seq<nat>, max: nat): (r: set<int>)
    requires max > 0
    ensures forall x :: x in r ==> 0 <= x < max
    decreases |draws|
  {
    if draws == [] then {} else {draws[0] % max} + Residues(draws[1..], max)
  }

  /**
   * None only means the draws were too short: when they give enough values
   * not picked yet to reach num, Collect returns Some.
   */
  lemma {:induction false} CollectEnough(draws: seq<nat>, max: nat, picks: seq<int>, num: nat)
    requires max > 0 && num <= |picks| + |Residues(draws, max) - set x | x in picks|
    ensures Collect(draws, max, picks, num).Some?
    decreases |draws|
  {
    if |picks| < num && draws != [] {
      var p := draws[0] % max;
      var seen := set x | x in picks;
      var rest := Residues(draws[1..], max);
      if p in picks {
        assert Residues(draws, max) - seen == rest - seen;
        CollectEnough(draws[1..], max, picks, num);
      } else {
        var seen' := set x | x in picks + [p];
        assert seen' == seen + {p};
        assert Residues(draws, max) - seen == {p} + (rest - seen');
        CollectEnough(draws[1..], max, picks + [p], num);
      }
    }
  }

  /** Collect skips a draw whose value is already picked. */
  lemma CollectSkip(draws: seq<nat>, max: nat, picks: seq<int>, num: nat, k: nat)
    requires max > 0 && k < |draws| && |picks| < num && draws[k] % max in picks
    ensures Collect(draws[k..], max, picks, num) == Collect(draws[k + 1..], max, picks, num)
  {
    assert draws[k..][1..] == draws[k + 1..];
  }

  /** Collect keeps a draw whose value is new. */
  lemma CollectTake(draws: seq<nat>, max: nat, picks: seq<int>, num: nat, k: nat)
    requires max > 0 && k < |draws| && |picks| < num && draws[k] % max !in picks
    ensures Collect(draws[k..], max, picks, num) == Collect(draws[k + 1..], max, picks + [draws[k] % max], num)
  {
    assert draws[k..][1..] == draws[k + 1..];
  }

  function Min(a: int, b: int): int { if a < b then a else b }

  /**
   * sampleUniform(num, max): all of 0 .. max - 1 when num >= max; otherwise
   * num distinct values below max, the k-th being the k-th draw (reduced
   * modulo max) that was not picked before. The `seen` flags are the
   * calloc-ed array of the source.
   */
  method SampleUniform(num: nat, max: nat, draws: seq<nat>) returns (picks: Option<seq<int>>)
    ensures num >= max ==> picks == Some(Range(0, max))
    ensures num < max ==> picks == Collect(draws, max, [], num)
    ensures picks.Some? ==> |picks.value| == Min(num, max) && Distinct(picks.value) && Below(picks.value, max)
  {
    if num >= max {
      var all: seq<int> := [];
      var i := 0;
      while i < max
        invariant 0 <= i <= max && all == Range(0, i)
      {
        assert Range(0, i + 1) == Range(0, i) + [i];
        all := all + [i];
        i := i + 1;
      }
      return Some(all);
    }
    var seen := new bool[max](_ => false);
    var p: seq<int> := [];
    var k := 0;
    while |p| < num
      invariant 0 <= k <= |draws| && |p| <= num
      invariant Collect(draws[k..], max, p, num) == Collect(draws, max, [], num)
      invariant forall v :: 0 <= v < max ==> (seen[v] <==> v in p)
      invariant Distinct(p) && Below(p, max)
      decreases num - |p|
    {
      if k == |draws| {
        return None;
      }
      var q := draws[k] % max;
      while seen[q]
        invariant 0 <= k < |draws| && q == draws[k] % max && |p| < num
        invariant Collect(draws[k..], max, p, num) == Collect(draws, max, [], num)
        invariant forall v :: 0 <= v < max ==> (seen[v] <==> v in p)
        decreases |draws| - k
      {
        CollectSkip(draws, max, p, num, k);
        if k + 1 == |draws| {
          return None;
        }
        k := k + 1;
        q := draws[k] % max;
      }
      CollectTake(draws, max, p, num, k);
      k := k + 1;
      p := p + [q];
      seen[q] := true;
    }
    CollectDistinct(draws, max, [], num);
    return Some(p);
  }

  // ---------------------------------------------------------------------
  // factorial

  /** factorial(x): x! for x >= 1 and 1 otherwise. */
  method Factorial(x: int) returns (f: int)
    ensures x <= 0 ==> f == 1
    ensures x > 0 ==> f == Fact(x)
  {
    f := 1;
    var i := 1;
    while i <= x
      invariant 1 <= i <= (if x >= 1 then x + 1 else 1)
      invariant f == Fact(i - 1)
    {
      f := f * i;
      i := i + 1;
    }
  }

  // ---------------------------------------------------------------------
  // choose and centerBinomial

  predicate Positive(s: seq<int>)
  {
    forall t :: 0 <= t < |s| ==> s[t] > 0
  }

  /** The inner search of `choose`: the largest index below i whose entry d divides, or -1. */
  function LastDivisible(num: seq<int>, d: int, i: int): (r: int)
    requires d > 0 && 0 <= i <= |num|
    ensures -1 <= r < i
    ensures r >= 0 ==> num[r] % d == 0
    ensures forall t :: r < t < i ==> num[t] % d != 0
    decreases i
  {
    if i == 0 then -1
    else if num[i - 1] % d == 0 then i - 1
    else LastDivisible(num, d, i - 1)
  }

  /** A positive multiple of d divided by d stays positive. */
  lemma QuotientPositive(a: int, d: int)
    requires a > 0 && d > 0 && a % d == 0
    ensures a / d > 0 && a / d * d == a
  {
  }

  /**
   * The cancellation pass of `choose` over the denominators at j, j - 1, …, 1:
   * each is divided out of the last numerator it divides and set to 1, and
   * left alone when it divides none.
   */
  function Cancel(num: seq<int>, den: seq<int>, j: int): (r: (seq<int>, seq<int>))
    requires |num| == |den| && j < |den| && Positive(num) && Positive(den)
    ensures |r.0| == |num| && |r.1| == |den| && Positive(r.0) && Positive(r.1)
    decreases j
  {
    if j <= 0 then (num, den)
    else
      var i := LastDivisible(num, den[j], |num|);
      if i < 0 then Cancel(num, den, j - 1)
      else
        QuotientPositive(num[i], den[j]);
        Cancel(num[i := num[i] / den[j]], den[j := 1], j - 1)
  }

  /** Every cancellation keeps the ratio of the numerators' product to the denominators' product. */
  lemma {:induction false} CancelRatio(num: seq<int>, den: seq<int>, j: int, c: int)
    requires |num| == |den| && j < |den| && Positive(num) && Positive(den)
    requires Prod(num) == c * Prod(den)
    ensures Prod(Cancel(num, den, j).0) == c * Prod(Cancel(num, den, j).1)
    decreases j
  {
    if j > 0 {
      var d := den[j];
      var i := LastDivisible(num, d, |num|);
      if i < 0 {
        CancelRatio(num, den, j - 1, c);
      } else {
        QuotientPositive(num[i], d);
        var num', den' := num[i := num[i] / d], den[j := 1];
        ProdScale(num, i, num[i] / d, d);
        ProdScale(den, j, 1, d);
        RatioStep(Prod(num), Prod(den), Prod(num'), Prod(den'), c, d);
        CancelRatio(num', den', j - 1, c);
      }
    }
  }

  lemma RatioStep(p: int, q: int, p': int, q': int, c: int, d: int)
    requires d > 0 && p' * d == p && q' * d == q && p == c * q
    ensures p' == c * q'
  {
    assert p' * d == (c * q') * d;
    CancelPositive(p', c * q', d);
  }

  /** `choose` first replaces k by n - k when k > n / 2. */
  function Smaller(n: nat, k: nat): (k': nat)
    requires k <= n
    ensures k' <= n / 2 && (k' == k || k' == n - k)
  {
    if k > n / 2 then n - k else k
  }

  /** The numerators and denominators of `choose` after the cancellation pass. */
  function Cancelled(n: nat, k: nat): (r: (seq<int>, seq<int>))
    requires k <= n
    ensures |r.0| == |r.1| == n - Smaller(n, k)
    ensures Positive(r.0) && Positive(r.1)
  {
    var k' := Smaller(n, k);
    Cancel(Range(k' + 1, n + 1), Range(1, n - k' + 1), n - k' - 1)
  }

  /** After the pass the numerators' product is still C(n, k) times the denominators' product. */
  lemma CancelledRatio(n: nat, k: nat)
    requires k <= n
    ensures Prod(Cancelled(n, k).0) == Binom(n, k) * Prod(Cancelled(n, k).1)
  {
    var k' := Smaller(n, k);
    var num, den := Range(k' + 1, n + 1), Range(1, n - k' + 1);
    assert Binom(n, k') == Binom(n, k) by {
      if k' != k {
        BinomSymmetric(n, k);
      }
    }
    var c := Binom(n, k');
    assert Prod(num) == c * Prod(den) by {
      ChooseFactors(n, k');
    }
    var r := Cancel(num, den, n - k' - 1);
    assert Prod(r.0) == c * Prod(r.1) by {
      CancelRatio(num, den, n - k' - 1, c);
    }
    assert Cancelled(n, k) == r;
  }

  /** Multiplies the entries of an array, first to last. */
  method Product(a: array<int>) returns (f: int)
    ensures f == Prod(a[..])
  {
    f := 1;
    var i := 0;
    while i < a.Length
      invariant 0 <= i <= a.Length && f == Prod(a[..i])
    {
      ProdAppend(a[..i], [a[i]]);
      assert a[..i + 1] == a[..i] + [a[i]];
      f := f * a[i];
      i := i + 1;
    }
    assert a[..a.Length] == a[..];
  }

  /** The factor arrays of `choose`: numerators k + 1 .. k + m and denominators 1 .. m. */
  method FillFactors(k: nat, m: nat) returns (numerator: array<int>, denominator: array<int>)
    ensures fresh(numerator) && fresh(denominator) && numerator != denominator
    ensures numerator[..] == Range(k + 1, k + m + 1) && denominator[..] == Range(1, m + 1)
  {
    numerator := new int[m];
    denominator := new int[m];
    for j := 0 to m
      invariant forall t :: 0 <= t < j ==> numerator[t] == k + 1 + t && denominator[t] == 1 + t
    {
      numerator[j] := k + 1 + j;
      denominator[j] := 1 + j;
    }
    assert numerator[..] == Range(k + 1, k + m + 1);
    assert denominator[..] == Range(1, m + 1);
  }

  /** The cancellation pass of `choose`, in place on the two arrays. */
  method CancelPass(numerator: array<int>, denominator: array<int>)
    requires numerator != denominator && numerator.Length == denominator.Length
    requires Positive(numerator[..]) && Positive(denominator[..])
    modifies numerator, denominator
    ensures (numerator[..], denominator[..]) == Cancel(old(numerator[..]), old(denominator[..]), numerator.Length - 1)
  {
    var m := numerator.Length;
    var j := m - 1;
    while j > 0
      invariant j <= m - 1
      invariant Positive(numerator[..]) && Positive(denominator[..])
      invariant Cancel(numerator[..], denominator[..], j) == Cancel(old(numerator[..]), old(denominator[..]), m - 1)
      decreases j
    {
      var d := denominator[j];
      var i := m - 1;
      while i >= 0 && numerator[i] % d != 0
        invariant -1 <= i < m
        invariant forall t :: i < t < m ==> numerator[t] % d != 0
      {
        i := i - 1;
      }
      assert i == LastDivisible(numerator[..], d, m);
      if i >= 0 {
        QuotientPositive(numerator[i], d);
        numerator[i] := numerator[i] / d;
        denominator[j] := 1;
      }
      j := j - 1;
    }
  }

  /** Fills the factor arrays of `choose` and runs the cancellation pass over them. */
  method CancelledFactors(n: nat, k: nat) returns (numerator: array<int>, denominator: array<int>)
    requires k <= n
    ensures (numerator[..], denominator[..]) == Cancelled(n, k)
  {
    var k := Smaller(n, k);
    numerator, denominator := FillFactors(k, n - k);
    CancelPass(numerator, denominator);
  }

  /**
   * choose(n, k) as the source writes it: the product of the numerators left
   * after the cancellation pass. A denominator that divides no remaining
   * numerator is skipped and never divided out, so the result is C(n, k)
   * times the product of the denominators left over.
   */
  method ChooseAsWritten(n: nat, k: nat) returns (f: int)
    requires k <= n
    ensures f == Prod(Cancelled(n, k).0)
    ensures f == Binom(n, k) * Prod(Cancelled(n, k).1)
  {
    var numerator, denominator := CancelledFactors(n, k);
    f := Product(numerator);
    CancelledRatio(n, k);
  }

  /** choose(n, k) corrected: the leftover denominators are divided out, giving C(n, k) for every 0 <= k <= n. */
  method Choose(n: nat, k: nat) returns (f: int)
    requires k <= n
    ensures f == Binom(n, k)
  {
    var numerator, denominator := CancelledFactors(n, k);
    var top := Product(numerator);
    var bottom := Product(denominator);
    CancelledRatio(n, k);
    ProdPositive(denominator[..]);
    DivUnique(top, bottom, Binom(n, k), 0);
    f := top / bottom;
  }

  /**
   * centerBinomial(x) as the source writes it: choose(x, x / 2) with the
   * uncorrected choose, so C(x, x / 2) times the denominators the
   * cancellation pass leaves over.
   */
  method CenterBinomialAsWritten(x: nat) returns (f: int)
    ensures f == Prod(Cancelled(x, x / 2).0)
    ensures f == Binom(x, x / 2) * Prod(Cancelled(x, x / 2).1)
  {
    f := ChooseAsWritten(x, x / 2);
  }

  /** centerBinomial(x) corrected: C(x, x / 2), through the corrected Choose. */
  method CenterBinomial(x: nat) returns (f: int)
    ensures f == Binom(x, x / 2)
  {
    f := Choose(x, x / 2);
  }

  /** The product of positive integers is positive. */
  lemma {:induction false} ProdPositive(s: seq<int>)
    requires Positive(s)
    ensures Prod(s) > 0
  {
    if s != [] {
      ProdPositive(s[1..]);
    }
  }

  /** choose(12, 4) as written: the denominator 4 finds no multiple, and the result is 1980 = 4 · C(12, 4), not C(12, 4) = 495. */
  lemma ChooseAsWrittenTwelveFour()
    ensures Prod(Cancelled(12, 4).0) == 1980
    ensures Prod(Cancelled(12, 4).1) == 4
    ensures Binom(12, 4) == 495
  {
    TwelveFour();
    TwelveFourProducts();
    BinomTwelveFour();
  }

  /** The products of the factors TwelveFour leaves. */
  lemma TwelveFourProducts()
    ensures Prod([5, 6, 1, 1, 3, 2, 11, 1]) == 1980
    ensures Prod([1, 1, 1, 4, 1, 1, 1, 1]) == 4
  {
    assert Prod([1]) == 1;
    assert [11, 1][1..] == [1];
    assert Prod([11, 1]) == 11;
    assert [2, 11, 1][1..] == [11, 1];
    assert Prod([2, 11, 1]) == 22;
    assert [3, 2, 11, 1][1..] == [2, 11, 1];
    assert Prod([3, 2, 11, 1]) == 66;
    assert [1, 3, 2, 11, 1][1..] == [3, 2, 11, 1];
    assert Prod([1, 3, 2, 11, 1]) == 66;
    assert [1, 1, 3, 2, 11, 1][1..] == [1, 3, 2, 11, 1];
    assert Prod([1, 1, 3, 2, 11, 1]) == 66;
    assert [6, 1, 1, 3, 2, 11, 1][1..] == [1, 1, 3, 2, 11, 1];
    assert Prod([6, 1, 1, 3, 2, 11, 1]) == 396;
    assert [5, 6, 1, 1, 3, 2, 11, 1][1..] == [6, 1, 1, 3, 2, 11, 1];
    assert Prod([5, 6, 1, 1, 3, 2, 11, 1]) == 1980;
    assert Prod([1]) == 1;
    assert [1, 1][1..] == [1];
    assert Prod([1, 1]) == 1;
    assert [1, 1, 1][1..] == [1, 1];
    assert Prod([1, 1, 1]) == 1;
    assert [1, 1, 1, 1][1..] == [1, 1, 1];
    assert Prod([1, 1, 1, 1]) == 1;
    assert [4, 1, 1, 1, 1][1..] == [1, 1, 1, 1];
    assert Prod([4, 1, 1, 1, 1]) == 4;
    assert [1, 4, 1, 1, 1, 1][1..] == [4, 1, 1, 1, 1];
    assert Prod([1, 4, 1, 1, 1, 1]) == 4;
    assert [1, 1, 4, 1, 1, 1, 1][1..] == [1, 4, 1, 1, 1, 1];
    assert Prod([1, 1, 4, 1, 1, 1, 1]) == 4;
    assert [1, 1, 1, 4, 1, 1, 1, 1][1..] == [1, 1, 4, 1, 1, 1, 1];
    assert Prod([1, 1, 1, 4, 1, 1, 1, 1]) == 4;
  }

  /** One denominator of choose(12, 4): the denominator 8 at 7 is divided out of the numerator at 3. */
  lemma TwelveFourStep0()
    ensures Positive([5, 6, 7, 8, 9, 10, 11, 12]) && Positive([1, 2, 3, 4, 5, 6, 7, 8])
    ensures Positive([5, 6, 7, 1, 9, 10, 11, 12]) && Positive([1, 2, 3, 4, 5, 6, 7, 1])
    ensures Cancel([5, 6, 7, 8, 9, 10, 11, 12], [1, 2, 3, 4, 5, 6, 7, 8], 7) == Cancel([5, 6, 7, 1, 9, 10, 11, 12], [1, 2, 3, 4, 5, 6, 7, 1], 6)
  {
    var s, d := [5, 6, 7, 8, 9, 10, 11, 12], [1, 2, 3, 4, 5, 6, 7, 8];
    assert Positive(s) && Positive(d);
    assert LastDivisible(s, 8, 8) == LastDivisible(s, 8, 7);
    assert LastDivisible(s, 8, 7) == LastDivisible(s, 8, 6);
    assert LastDivisible(s, 8, 6) == LastDivisible(s, 8, 5);
    assert LastDivisible(s, 8, 5) == LastDivisible(s, 8, 4);
    assert LastDivisible(s, 8, 4) == 3;
    assert s[3 := s[3] / d[7]] == [5, 6, 7, 1, 9, 10, 11, 12];
    assert d[7 := 1] == [1, 2, 3, 4, 5, 6, 7, 1];
  }

  /** One denominator of choose(12, 4): the denominator 7 at 6 is divided out of the numerator at 2. */
  lemma TwelveFourStep1()
    ensures Cancel([5, 6, 7, 1, 9, 10, 11, 12], [1, 2, 3, 4, 5, 6, 7, 1], 6) == Cancel([5, 6, 1, 1, 9, 10, 11, 12], [1, 2, 3, 4, 5, 6, 1, 1], 5)
  {
    var s, d := [5, 6, 7, 1, 9, 10, 11, 12], [1, 2, 3, 4, 5, 6, 7, 1];
    assert Positive(s) && Positive(d);
    assert LastDivisible(s, 7, 8) == LastDivisible(s, 7, 7);
    assert LastDivisible(s, 7, 7) == LastDivisible(s, 7, 6);
    assert LastDivisible(s, 7, 6) == LastDivisible(s, 7, 5);
    assert LastDivisible(s, 7, 5) == LastDivisible(s, 7, 4);
    assert LastDivisible(s, 7, 4) == LastDivisible(s, 7, 3);
    assert LastDivisible(s, 7, 3) == 2;
    assert s[2 := s[2] / d[6]] == [5, 6, 1, 1, 9, 10, 11, 12];
    assert d[6 := 1] == [1, 2, 3, 4, 5, 6, 1, 1];
  }

  /** One denominator of choose(12, 4): the denominator 6 at 5 is divided out of the numerator at 7. */
  lemma TwelveFourStep2()
    ensures Cancel([5, 6, 1, 1, 9, 10, 11, 12], [1, 2, 3, 4, 5, 6, 1, 1], 5) == Cancel([5, 6, 1, 1, 9, 10, 11, 2], [1, 2, 3, 4, 5, 1, 1, 1], 4)
  {
    var s, d := [5, 6, 1, 1, 9, 10, 11, 12], [1, 2, 3, 4, 5, 6, 1, 1];
    assert Positive(s) && Positive(d);
    assert LastDivisible(s, 6, 8) == 7;
    assert s[7 := s[7] / d[5]] == [5, 6, 1, 1, 9, 10, 11, 2];
    assert d[5 := 1] == [1, 2, 3, 4, 5, 1, 1, 1];
  }

  /** One denominator of choose(12, 4): the denominator 5 at 4 is divided out of the numerator at 5. */
  lemma TwelveFourStep3()
    ensures Cancel([5, 6, 1, 1, 9, 10, 11, 2], [1, 2, 3, 4, 5, 1, 1, 1], 4) == Cancel([5, 6, 1, 1, 9, 2, 11, 2], [1, 2, 3, 4, 1, 1, 1, 1], 3)
  {
    var s, d := [5, 6, 1, 1, 9, 10, 11, 2], [1, 2, 3, 4, 5, 1, 1, 1];
    assert Positive(s) && Positive(d);
    assert LastDivisible(s, 5, 8) == LastDivisible(s, 5, 7);
    assert LastDivisible(s, 5, 7) == LastDivisible(s, 5, 6);
    assert LastDivisible(s, 5, 6) == 5;
    assert s[5 := s[5] / d[4]] == [5, 6, 1, 1, 9, 2, 11, 2];
    assert d[4 := 1] == [1, 2, 3, 4, 1, 1, 1, 1];
  }

  /** One denominator of choose(12, 4): the denominator 4 at 3 divides no numerator and stays. */
  lemma TwelveFourStep4()
    ensures Cancel([5, 6, 1, 1, 9, 2, 11, 2], [1, 2, 3, 4, 1, 1, 1, 1], 3) == Cancel([5, 6, 1, 1, 9, 2, 11, 2], [1, 2, 3, 4, 1, 1, 1, 1], 2)
  {
    var s, d := [5, 6, 1, 1, 9, 2, 11, 2], [1, 2, 3, 4, 1, 1, 1, 1];
    assert Positive(s) && Positive(d);
    assert LastDivisible(s, 4, 8) == LastDivisible(s, 4, 7);
    assert LastDivisible(s, 4, 7) == LastDivisible(s, 4, 6);
    assert LastDivisible(s, 4, 6) == LastDivisible(s, 4, 5);
    assert LastDivisible(s, 4, 5) == LastDivisible(s, 4, 4);
    assert LastDivisible(s, 4, 4) == LastDivisible(s, 4, 3);
    assert LastDivisible(s, 4, 3) == LastDivisible(s, 4, 2);
    assert LastDivisible(s, 4, 2) == LastDivisible(s, 4, 1);
    assert LastDivisible(s, 4, 1) == LastDivisible(s, 4, 0);
    assert LastDivisible(s, 4, 0) == -1;
  }

  /** One denominator of choose(12, 4): the denominator 3 at 2 is divided out of the numerator at 4. */
  lemma TwelveFourStep5()
    ensures Cancel([5, 6, 1, 1, 9, 2, 11, 2], [1, 2, 3, 4, 1, 1, 1, 1], 2) == Cancel([5, 6, 1, 1, 3, 2, 11, 2], [1, 2, 1, 4, 1, 1, 1, 1], 1)
  {
    var s, d := [5, 6, 1, 1, 9, 2, 11, 2], [1, 2, 3, 4, 1, 1, 1, 1];
    assert Positive(s) && Positive(d);
    assert LastDivisible(s, 3, 8) == LastDivisible(s, 3, 7);
    assert LastDivisible(s, 3, 7) == LastDivisible(s, 3, 6);
    assert LastDivisible(s, 3, 6) == LastDivisible(s, 3, 5);
    assert LastDivisible(s, 3, 5) == 4;
    assert s[4 := s[4] / d[2]] == [5, 6, 1, 1, 3, 2, 11, 2];
    assert d[2 := 1] == [1, 2, 1, 4, 1, 1, 1, 1];
  }

  /** One denominator of choose(12, 4): the denominator 2 at 1 is divided out of the numerator at 7. */
  lemma TwelveFourStep6()
    ensures Cancel([5, 6, 1, 1, 3, 2, 11, 2], [1, 2, 1, 4, 1, 1, 1, 1], 1) == Cancel([5, 6, 1, 1, 3, 2, 11, 1], [1, 1, 1, 4, 1, 1, 1, 1], 0)
  {
    var s, d := [5, 6, 1, 1, 3, 2, 11, 2], [1, 2, 1, 4, 1, 1, 1, 1];
    assert Positive(s) && Positive(d);
    assert LastDivisible(s, 2, 8) == 7;
    assert s[7 := s[7] / d[1]] == [5, 6, 1, 1, 3, 2, 11, 1];
    assert d[1 := 1] == [1, 1, 1, 4, 1, 1, 1, 1];
  }


  /** The factorials choose(12, 4) needs. */
  lemma FactValues()
    ensures Fact(4) == 24 && Fact(8) == 40320 && Fact(12) == 479001600
  {
  }

  /** C(12, 4) = 495, from C(12, 4) · 4! · 8! = 12!. */
  lemma BinomTwelveFour()
    ensures Binom(12, 4) == 495
  {
    FactValues();
    BinomTimesFactorials(12, 4, 24, 40320, 479001600);
    SolveProduct(Binom(12, 4), 24, 40320, 479001600);
  }

  /** BinomFactorial with the three factorials given by value. */
  lemma BinomTimesFactorials(n: nat, k: nat, x: int, y: int, f: int)
    requires k <= n && Fact(k) == x && Fact(n - k) == y && Fact(n) == f
    ensures Binom(n, k) * x * y == f
  {
    BinomFactorial(n, k);
  }

  /** The division that BinomTwelveFour needs, over plain integers. */
  lemma SolveProduct(b: int, x: int, y: int, f: int)
    requires b * x * y == f && x == 24 && y == 40320 && f == 479001600
    ensures b == 495
  {
  }

  /** The denominators 8, 7, 6 and 5 of choose(12, 4). */
  lemma TwelveFourFirst()
    ensures Positive([5, 6, 7, 8, 9, 10, 11, 12]) && Positive([1, 2, 3, 4, 5, 6, 7, 8])
    ensures Positive([5, 6, 1, 1, 9, 2, 11, 2]) && Positive([1, 2, 3, 4, 1, 1, 1, 1])
    ensures Cancel([5, 6, 7, 8, 9, 10, 11, 12], [1, 2, 3, 4, 5, 6, 7, 8], 7) == Cancel([5, 6, 1, 1, 9, 2, 11, 2], [1, 2, 3, 4, 1, 1, 1, 1], 3)
  {
    assert Positive([5, 6, 1, 1, 9, 2, 11, 2]) && Positive([1, 2, 3, 4, 1, 1, 1, 1]);
    TwelveFourStep0();
    TwelveFourStep1();
    TwelveFourStep2();
    TwelveFourStep3();
  }

  /** The denominators 4, 3 and 2 of choose(12, 4). */
  lemma TwelveFourSecond()
    ensures Cancel([5, 6, 1, 1, 9, 2, 11, 2], [1, 2, 3, 4, 1, 1, 1, 1], 3) == ([5, 6, 1, 1, 3, 2, 11, 1], [1, 1, 1, 4, 1, 1, 1, 1])
  {
    TwelveFourStep4();
    TwelveFourStep5();
    TwelveFourStep6();
  }

  /** The factors of choose(12, 4) after the cancellation pass: the denominator 4 is left over. */
  lemma TwelveFour()
    ensures Cancelled(12, 4) == ([5, 6, 1, 1, 3, 2, 11, 1], [1, 1, 1, 4, 1, 1, 1, 1])
  {
    assert Smaller(12, 4) == 4;
    assert Range(5, 13) == [5, 6, 7, 8, 9, 10, 11, 12];
    assert Range(1, 9) == [1, 2, 3, 4, 5, 6, 7, 8];
    TwelveFourFirst();
    TwelveFourSecond();
  }


  // ---------------------------------------------------------------------
  // bitSet, bitsSet, grayCode

  /**
   * bitSet(x, b): whether bit b of the 32-bit word x is set. The source's
   * `(x >> b) & 1 == 1` parses as `(x >> b) & (1 == 1)`, which is the same bit.
   */
  function BitSet(x: bv32, b: nat): (r: bool)
    requires b < 32
    ensures r <==> Bit(x as bv64, b) == 1
  {
    (x >> b) & 1 == 1
  }

  /**
   * bitsSet(x): the number of set bits of x. The three SWAR steps that
   * update the word (pairs, nibbles, bytes) are Swar.S1, S2 and S3, and the
   * multiplication by 0x0101010101010101 sums the bytes into the top byte. The
   * multiplication is written as its two factors 0x1010101 and 0x100000001
   * (Swar.MulFactors shows the product is the same).
   */
  method BitsSet(x: bv64) returns (n: int)
    ensures n == BitsIn(x, 64)
  {
    TopCount(x);
    TopByte(Spread(S3(S2(S1(x)))) * 0x100000001);
    n := ((Spread(S3(S2(S1(x)))) * 0x100000001) >> 56) as int;
  }

  /** Every count of bits lies between 0 and the number of bits counted. */
  lemma {:induction false} BitsInBound(x: bv64, n: nat)
    requires n <= 64
    ensures 0 <= BitsIn(x, n) <= n
  {
    if n > 0 {
      BitsInBound(x, n - 1);
    }
  }

  /** grayCode(x): the reflected binary Gray code of x. */
  function GrayCode(x: bv64): (r: bv64)
    ensures r >> 63 == x >> 63
    ensures r == 0 <==> x == 0
  {
    (x >> 1) ^ x
  }

  /** Consecutive Gray codes, including the wrap from 2^64 - 1 to 0, differ in exactly one bit. */
  lemma GrayAdjacent(x: bv64)
    ensures var d := GrayCode(x) ^ GrayCode(x + 1); d != 0 && d & (d - 1) == 0
  {
  }

  /** Gray coding distributes over XOR, written out on the words. */
  lemma GrayXorWords(x: bv64, y: bv64)
    ensures ((x >> 1) ^ x) ^ ((y >> 1) ^ y) == ((x ^ y) >> 1) ^ (x ^ y)
  {
  }

  /** Only the zero word has Gray code zero, written out on the word. */
  lemma GrayZeroWord(z: bv64)
    ensures ((z >> 1) ^ z) == 0 ==> z == 0
  {
  }

  lemma XorZero(a: bv64, b: bv64)
    ensures a == b <==> a ^ b == 0
  {
  }

  /** Different words have different Gray codes. */
  lemma GrayInjective(x: bv64, y: bv64)
    ensures GrayCode(x) == GrayCode(y) ==> x == y
  {
    GrayXorWords(x, y);
    GrayZeroWord(x ^ y);
    XorZero((x >> 1) ^ x, (y >> 1) ^ y);
    XorZero(x, y);
  }

  /** The number of values of a 64-bit word. */
  const Period: nat := 0x1_0000_0000_0000_0000

  /** The Gray codes of 0, 1, …, n - 1 that have exactly b bits set, in that order. */
  function GrayMatches(b: int, n: nat): (m: seq<bv64>)
    requires n <= Period
    ensures |m| <= n
    decreases n
  {
    if n == 0 then [] else GrayMatches(b, n - 1) + Match(b, n - 1)
  }

  /** The Gray code of x when it has exactly b bits set, else nothing. */
  function Match(b: int, x: nat): (m: seq<bv64>)
    requires x < Period
    ensures |m| <= 1
  {
    var g := GrayCode(x as bv64);
    if BitsIn(g, 64) == b then [g] else []
  }

  /** Every match is the Gray code of a word below n with exactly b bits set. */
  lemma {:induction false} GrayMatchesBits(b: int, n: nat)
    requires n <= Period
    ensures forall i :: 0 <= i < |GrayMatches(b, n)| ==> BitsIn(GrayMatches(b, n)[i], 64) == b
  {
    if n > 0 {
      GrayMatchesBits(b, n - 1);
      var m, m' := GrayMatches(b, n - 1), GrayMatches(b, n);
      forall i | 0 <= i < |m'|
        ensures BitsIn(m'[i], 64) == b
      {
        if i < |m| {
          assert m'[i] == m[i];
        } else {
          assert m'[i] == GrayCode((n - 1) as bv64);
        }
      }
    }
  }

  /** Looking at more words only appends matches. */
  lemma {:induction false} GrayMatchesPrefix(b: int, n: nat, m: nat)
    requires n <= m <= Period
    ensures |GrayMatches(b, n)| <= |GrayMatches(b, m)|
    ensures GrayMatches(b, n) == GrayMatches(b, m)[..|GrayMatches(b, n)|]
    decreases m - n
  {
    if n < m {
      GrayMatchesPrefix(b, n, m - 1);
      var short, long := GrayMatches(b, m - 1), GrayMatches(b, m);
      assert long[..|short|] == short;
    }
  }

  /** No word has fewer than 0 or more than 64 bits set, so such a b has no matches. */
  lemma GrayMatchesNone(b: int, n: nat)
    requires n <= Period && (b < 0 || b > 64)
    ensures GrayMatches(b, n) == []
  {
    var m := GrayMatches(b, n);
    if m != [] {
      BitsInBound(m[0], 64);
    }
  }

  /** `(int)g`: the low 32 bits of g, the two's-complement pattern of the int that is stored. */
  function Low32(g: bv64): bv32
  {
    (g & 0xFFFF_FFFF) as bv32
  }

  /** One more word appends its match, if any. */
  lemma GrayMatchesStep(b: int, x: nat)
    requires x < Period
    ensures GrayMatches(b, x + 1) == GrayMatches(b, x) + Match(b, x)
  {
  }

  /** The first n entries of m, m, m, …: entry i is m[i mod |m|]. */
  function Repeat(m: seq<bv64>, n: nat): (r: seq<bv64>)
    requires m != []
    ensures |r| == n && forall i :: 0 <= i < n ==> r[i] == m[i % |m|]
  {
    if n == 0 then [] else Repeat(m, n - 1) + [m[(n - 1) % |m|]]
  }

  /** Repeating m for at most |m| entries is a prefix of m. */
  lemma RepeatPrefix(m: seq<bv64>, n: nat)
    requires m != [] && n <= |m|
    ensures Repeat(m, n) == m[..n]
  {
    var r := Repeat(m, n);
    forall i | 0 <= i < n
      ensures r[i] == m[i]
    {
      ModBelow(i, |m|);
    }
  }

  /** An index below the modulus is its own remainder. */
  lemma ModBelow(i: int, m: int)
    requires 0 <= i < m
    ensures i % m == i
  {
  }

  /**
   * buildGraySequence(length, b): the Gray codes of x = 0, 1, 2, … that have
   * exactly b bits set, until `length` are found, each cut to a 32-bit int
   * (`s` holds its bit pattern). x is a uint64_t: after 2^64 words it wraps
   * to 0 and the same codes come again, so when one pass finds fewer than
   * `length` the sequence repeats them in order. When no word matches (b is
   * below 0 or above 64) the source loops forever; `ends` is false then.
   * The loop below makes the first pass; the repetition is Repeat.
   */
  method BuildGraySequence(length: int, b: int) returns (s: seq<bv32>, ends: bool)
    requires length >= 1
    ensures ends <==> GrayMatches(b, Period) != []
    ensures ends ==> s == Lows(Repeat(GrayMatches(b, Period), length))
  {
    var found: seq<bv64> := [];
    var x: nat := 0;
    while x < Period && |found| < length
      invariant x <= Period && found == GrayMatches(b, x) && |found| <= length
      decreases Period - x
    {
      GrayMatchesStep(b, x);
      found := TakeIfMatch(b, x, found);
      x := x + 1;
    }
    if found == [] {
      return [], false;
    }
    FirstPass(b, x, length);
    s, ends := Lows(Repeat(found, length)), true;
  }

  /** One pass of buildGraySequence's loop: keep grayCode(x) when bitsSet counts b bits in it. */
  method TakeIfMatch(b: int, x: nat, found: seq<bv64>) returns (r: seq<bv64>)
    requires x < Period
    ensures r == found + Match(b, x)
  {
    var g := GrayCode(x as bv64);
    var count := BitsSet(g);
    if count == b {
      r := found + [g];
    } else {
      r := found;
    }
  }

  /**
   * What the first pass of buildGraySequence leaves: when it stopped with
   * matches in hand (length found, or all 2^64 words seen), repeating them
   * gives the same sequence as repeating the matches of a whole pass.
   */
  lemma FirstPass(b: int, x: nat, length: nat)
    requires x <= Period && GrayMatches(b, x) != [] && |GrayMatches(b, x)| <= length
    requires x == Period || |GrayMatches(b, x)| == length
    ensures GrayMatches(b, Period) != []
    ensures Repeat(GrayMatches(b, x), length) == Repeat(GrayMatches(b, Period), length)
  {
    var found, all := GrayMatches(b, x), GrayMatches(b, Period);
    GrayMatchesPrefix(b, x, Period);
    if x < Period {
      RepeatPrefix(found, length);
      RepeatPrefix(all, length);
      assert found[..length] == found == all[..length];
    }
  }

  /** The low 32 bits of each word. */
  function Lows(ws: seq<bv64>): (r: seq<bv32>)
    ensures |r| == |ws|
  {
    if ws == [] then [] else Lows(ws[..|ws| - 1]) + [Low32(ws[|ws| - 1])]
  }

  // ---------------------------------------------------------------------
  // isPrime and smallestPrimeGreaterOrEqual

  /** The table of small primes: every prime below 193. */
  const SmallPrimes: seq<int> := [
    2, 3, 5, 7, 11, 13, 17, 19, 23, 29, 31, 37, 41, 43, 47, 53, 59, 61, 67, 71,
    73, 79, 83, 89, 97, 101, 103, 107, 109, 113, 127, 131, 137, 139, 149, 151, 157,
    163, 167, 173, 179, 181, 191]

  /** n is prime: at least 2 and divisible by no integer from 2 to n - 1. */
  ghost predicate Prime(n: int)
  {
    n >= 2 && forall d :: 2 <= d < n ==> n % d != 0
  }

  /** isPrime's verdict: no table prime whose square is at most x divides x. */
  predicate Accepted(x: int)
  {
    forall i :: 0 <= i < |SmallPrimes| && SmallPrimes[i] * SmallPrimes[i] <= x ==> x % SmallPrimes[i] != 0
  }

  /** The table is strictly increasing. */
  lemma TableIncreasing(i: nat, j: nat)
    requires i < j < |SmallPrimes|
    ensures 2 <= SmallPrimes[i] < SmallPrimes[j]
    decreases j - i
  {
    assert forall k :: 0 <= k < |SmallPrimes| - 1 ==> 2 <= SmallPrimes[k] < SmallPrimes[k + 1];
    if i + 1 < j {
      TableIncreasing(i + 1, j);
    }
  }

  lemma SquareMono(a: int, b: int)
    requires 0 <= a <= b
    ensures a * a <= b * b
  {
    assert a * a <= a * b;
    assert a * b <= b * b;
  }

  /** Once a table prime's square exceeds x, so does every later one's. */
  lemma SquaresAbove(i: nat, x: int)
    requires i < |SmallPrimes| && SmallPrimes[i] * SmallPrimes[i] > x
    ensures forall j :: i <= j < |SmallPrimes| ==> SmallPrimes[j] * SmallPrimes[j] > x
  {
    forall j | i < j < |SmallPrimes|
      ensures SmallPrimes[j] * SmallPrimes[j] > x
    {
      TableIncreasing(i, j);
      SquareMono(SmallPrimes[i], SmallPrimes[j]);
    }
  }

  /**
   * isPrime(x): trial division by the table primes in order, stopping with
   * true at the first prime whose square exceeds x, with false at the first
   * that divides x, and with true after the table.
   */
  method IsPrime(x: int) returns (r: bool)
    ensures r <==> Accepted(x)
  {
    var i := 0;
    while i < |SmallPrimes|
      invariant 0 <= i <= |SmallPrimes|
      invariant forall j :: 0 <= j < i ==> x % SmallPrimes[j] != 0
    {
      var p := SmallPrimes[i];
      if p * p > x {
        SquaresAbove(i, x);
        return true;
      }
      if x % p == 0 {
        return false;
      }
      i := i + 1;
    }
    return true;
  }

  /** Every integer from 2 to 192 is divisible by a table prime no larger than itself. */
  lemma TableFactor(e: int) returns (k: nat)
    requires 2 <= e < 193
    ensures k < |SmallPrimes| && SmallPrimes[k] <= e && e % SmallPrimes[k] == 0
  {
    if e < 26 {
      k := TableFactor0(e);
    } else if e < 50 {
      k := TableFactor1(e);
    } else if e < 74 {
      k := TableFactor2(e);
    } else if e < 98 {
      k := TableFactor3(e);
    } else if e < 122 {
      k := TableFactor4(e);
    } else if e < 146 {
      k := TableFactor5(e);
    } else if e < 170 {
      k := TableFactor6(e);
    } else if e < 193 {
      k := TableFactor7(e);
    }
  }

  lemma TableFactor0(e: int) returns (k: nat)
    requires 2 <= e < 26
    ensures k < |SmallPrimes| && SmallPrimes[k] <= e && e % SmallPrimes[k] == 0
  {
    if e == 2 {
      k := 0;
    } else if e == 3 {
      k := 1;
    } else if e == 4 {
      k := 0;
    } else if e == 5 {
      k := 2;
    } else if e == 6 {
      k := 0;
    } else if e == 7 {
      k := 3;
    } else if e == 8 {
      k := 0;
    } else if e == 9 {
      k := 1;
    } else if e == 10 {
      k := 0;
    } else if e == 11 {
      k := 4;
    } else if e == 12 {
      k := 0;
    } else if e == 13 {
      k := 5;
    } else if e == 14 {
      k := 0;
    } else if e == 15 {
      k := 1;
    } else if e == 16 {
      k := 0;
    } else if e == 17 {
      k := 6;
    } else if e == 18 {
      k := 0;
    } else if e == 19 {
      k := 7;
    } else if e == 20 {
      k := 0;
    } else if e == 21 {
      k := 1;
    } else if e == 22 {
      k := 0;
    } else if e == 23 {
      k := 8;
    } else if e == 24 {
      k := 0;
    } else {
      k := 2;
    }
  }

  lemma TableFactor1(e: int) returns (k: nat)
    requires 26 <= e < 50
    ensures k < |SmallPrimes| && SmallPrimes[k] <= e && e % SmallPrimes[k] == 0
  {
    if e == 26 {
      k := 0;
    } else if e == 27 {
      k := 1;
    } else if e == 28 {
      k := 0;
    } else if e == 29 {
      k := 9;
    } else if e == 30 {
      k := 0;
    } else if e == 31 {
      k := 10;
    } else if e == 32 {
      k := 0;
    } else if e == 33 {
      k := 1;
    } else if e == 34 {
      k := 0;
    } else if e == 35 {
      k := 2;
    } else if e == 36 {
      k := 0;
    } else if e == 37 {
      k := 11;
    } else if e == 38 {
      k := 0;
    } else if e == 39 {
      k := 1;
    } else if e == 40 {
      k := 0;
    } else if e == 41 {
      k := 12;
    } else if e == 42 {
      k := 0;
    } else if e == 43 {
      k := 13;
    } else if e == 44 {
      k := 0;
    } else if e == 45 {
      k := 1;
    } else if e == 46 {
      k := 0;
    } else if e == 47 {
      k := 14;
    } else if e == 48 {
      k := 0;
    } else {
      k := 3;
    }
  }

  lemma TableFactor2(e: int) returns (k: nat)
    requires 50 <= e < 74
    ensures k < |SmallPrimes| && SmallPrimes[k] <= e && e % SmallPrimes[k] == 0
  {
    if e == 50 {
      k := 0;
    } else if e == 51 {
      k := 1;
    } else if e == 52 {
      k := 0;
    } else if e == 53 {
      k := 15;
    } else if e == 54 {
      k := 0;
    } else if e == 55 {
      k := 2;
    } else if e == 56 {
      k := 0;
    } else if e == 57 {
      k := 1;
    } else if e == 58 {
      k := 0;
    } else if e == 59 {
      k := 16;
    } else if e == 60 {
      k := 0;
    } else if e == 61 {
      k := 17;
    } else if e == 62 {
      k := 0;
    } else if e == 63 {
      k := 1;
    } else if e == 64 {
      k := 0;
    } else if e == 65 {
      k := 2;
    } else if e == 66 {
      k := 0;
    } else if e == 67 {
      k := 18;
    } else if e == 68 {
      k := 0;
    } else if e == 69 {
      k := 1;
    } else if e == 70 {
      k := 0;
    } else if e == 71 {
      k := 19;
    } else if e == 72 {
      k := 0;
    } else {
      k := 20;
    }
  }

  lemma TableFactor3(e: int) returns (k: nat)
    requires 74 <= e < 98
    ensures k < |SmallPrimes| && SmallPrimes[k] <= e && e % SmallPrimes[k] == 0
  {
    if e == 74 {
      k := 0;
    } else if e == 75 {
      k := 1;
    } else if e == 76 {
      k := 0;
    } else if e == 77 {
      k := 3;
    } else if e == 78 {
      k := 0;
    } else if e == 79 {
      k := 21;
    } else if e == 80 {
      k := 0;
    } else if e == 81 {
      k := 1;
    } else if e == 82 {
      k := 0;
    } else if e == 83 {
      k := 22;
    } else if e == 84 {
      k := 0;
    } else if e == 85 {
      k := 2;
    } else if e == 86 {
      k := 0;
    } else if e == 87 {
      k := 1;
    } else if e == 88 {
      k := 0;
    } else if e == 89 {
      k := 23;
    } else if e == 90 {
      k := 0;
    } else if e == 91 {
      k := 3;
    } else if e == 92 {
      k := 0;
    } else if e == 93 {
      k := 1;
    } else if e == 94 {
      k := 0;
    } else if e == 95 {
      k := 2;
    } else if e == 96 {
      k := 0;
    } else {
      k := 24;
    }
  }

  lemma TableFactor4(e: int) returns (k: nat)
    requires 98 <= e < 122
    ensures k < |SmallPrimes| && SmallPrimes[k] <= e && e % SmallPrimes[k] == 0
  {
    if e == 98 {
      k := 0;
    } else if e == 99 {
      k := 1;
    } else if e == 100 {
      k := 0;
    } else if e == 101 {
      k := 25;
    } else if e == 102 {
      k := 0;
    } else if e == 103 {
      k := 26;
    } else if e == 104 {
      k := 0;
    } else if e == 105 {
      k := 1;
    } else if e == 106 {
      k := 0;
    } else if e == 107 {
      k := 27;
    } else if e == 108 {
      k := 0;
    } else if e == 109 {
      k := 28;
    } else if e == 110 {
      k := 0;
    } else if e == 111 {
      k := 1;
    } else if e == 112 {
      k := 0;
    } else if e == 113 {
      k := 29;
    } else if e == 114 {
      k := 0;
    } else if e == 115 {
      k := 2;
    } else if e == 116 {
      k := 0;
    } else if e == 117 {
      k := 1;
    } else if e == 118 {
      k := 0;
    } else if e == 119 {
      k := 3;
    } else if e == 120 {
      k := 0;
    } else {
      k := 4;
    }
  }

  lemma TableFactor5(e: int) returns (k: nat)
    requires 122 <= e < 146
    ensures k < |SmallPrimes| && SmallPrimes[k] <= e && e % SmallPrimes[k] == 0
  {
    if e == 122 {
      k := 0;
    } else if e == 123 {
      k := 1;
    } else if e == 124 {
      k := 0;
    } else if e == 125 {
      k := 2;
    } else if e == 126 {
      k := 0;
    } else if e == 127 {
      k := 30;
    } else if e == 128 {
      k := 0;
    } else if e == 129 {
      k := 1;
    } else if e == 130 {
      k := 0;
    } else if e == 131 {
      k := 31;
    } else if e == 132 {
      k := 0;
    } else if e == 133 {
      k := 3;
    } else if e == 134 {
      k := 0;
    } else if e == 135 {
      k := 1;
    } else if e == 136 {
      k := 0;
    } else if e == 137 {
      k := 32;
    } else if e == 138 {
      k := 0;
    } else if e == 139 {
      k := 33;
    } else if e == 140 {
      k := 0;
    } else if e == 141 {
      k := 1;
    } else if e == 142 {
      k := 0;
    } else if e == 143 {
      k := 4;
    } else if e == 144 {
      k := 0;
    } else {
      k := 2;
    }
  }

  lemma TableFactor6(e: int) returns (k: nat)
    requires 146 <= e < 170
    ensures k < |SmallPrimes| && SmallPrimes[k] <= e && e % SmallPrimes[k] == 0
  {
    if e == 146 {
      k := 0;
    } else if e == 147 {
      k := 1;
    } else if e == 148 {
      k := 0;
    } else if e == 149 {
      k := 34;
    } else if e == 150 {
      k := 0;
    } else if e == 151 {
      k := 35;
    } else if e == 152 {
      k := 0;
    } else if e == 153 {
      k := 1;
    } else if e == 154 {
      k := 0;
    } else if e == 155 {
      k := 2;
    } else if e == 156 {
      k := 0;
    } else if e == 157 {
      k := 36;
    } else if e == 158 {
      k := 0;
    } else if e == 159 {
      k := 1;
    } else if e == 160 {
      k := 0;
    } else if e == 161 {
      k := 3;
    } else if e == 162 {
      k := 0;
    } else if e == 163 {
      k := 37;
    } else if e == 164 {
      k := 0;
    } else if e == 165 {
      k := 1;
    } else if e == 166 {
      k := 0;
    } else if e == 167 {
      k := 38;
    } else if e == 168 {
      k := 0;
    } else {
      k := 5;
    }
  }

  lemma TableFactor7(e: int) returns (k: nat)
    requires 170 <= e < 193
    ensures k < |SmallPrimes| && SmallPrimes[k] <= e && e % SmallPrimes[k] == 0
  {
    if e == 170 {
      k := 0;
    } else if e == 171 {
      k := 1;
    } else if e == 172 {
      k := 0;
    } else if e == 173 {
      k := 39;
    } else if e == 174 {
      k := 0;
    } else if e == 175 {
      k := 2;
    } else if e == 176 {
      k := 0;
    } else if e == 177 {
      k := 1;
    } else if e == 178 {
      k := 0;
    } else if e == 179 {
      k := 40;
    } else if e == 180 {
      k := 0;
    } else if e == 181 {
      k := 41;
    } else if e == 182 {
      k := 0;
    } else if e == 183 {
      k := 1;
    } else if e == 184 {
      k := 0;
    } else if e == 185 {
      k := 2;
    } else if e == 186 {
      k := 0;
    } else if e == 187 {
      k := 4;
    } else if e == 188 {
      k := 0;
    } else if e == 189 {
      k := 1;
    } else if e == 190 {
      k := 0;
    } else if e == 191 {
      k := 42;
    } else {
      k := 0;
    }
  }

  /** A multiple of a multiple of p is a multiple of p. */
  lemma DividesTrans(p: int, a: int, x: int)
    requires p > 0 && a > 0 && a % p == 0 && x % a == 0
    ensures x % p == 0
  {
    var m, n := a / p, x / a;
    assert x == p * (m * n) by {
      assert a == p * m;
      assert x == a * n;
    }
    DivUnique(x, p, m * n, 0);
  }

  /** Every prime passes isPrime's test. */
  lemma PrimeAccepted(x: int)
    requires Prime(x)
    ensures Accepted(x)
  {
    forall i | 0 <= i < |SmallPrimes| && SmallPrimes[i] * SmallPrimes[i] <= x
      ensures x % SmallPrimes[i] != 0
    {
      var p := SmallPrimes[i];
      assert p >= 2 by {
        if i > 0 {
          TableIncreasing(0, i);
        }
      }
      assert p < x by {
        assert p * 2 <= p * p;
      }
    }
  }

  /** A composite x has a divisor from 2 whose square is at most x. */
  lemma SmallDivisor(x: int, d: int) returns (a: int)
    requires 2 <= d < x && x % d == 0
    ensures 2 <= a && a * a <= x && x % a == 0
  {
    var q := x / d;
    assert x == d * q;
    if d <= q {
      a := d;
      SquareMono(d, q);
    } else {
      a := q;
      DivUnique(x, q, d, 0);
      SquareMono(q, d);
    }
  }

  /** Below 193 * 193, passing isPrime's test means being prime. */
  lemma AcceptedPrime(x: int)
    requires 2 <= x < 193 * 193 && Accepted(x)
    ensures Prime(x)
  {
    forall d | 2 <= d < x
      ensures x % d != 0
    {
      if x % d == 0 {
        var a := SmallDivisor(x, d);
        assert a < 193 by {
          if a >= 193 {
            SquareMono(193, a);
          }
        }
        var k := TableFactor(a);
        DividesTrans(SmallPrimes[k], a, x);
        SquareMono(SmallPrimes[k], a);
        assert false;
      }
    }
  }

  /** The first product of two table-sized primes: 193 * 193 passes isPrime's test without being prime. */
  lemma AcceptedBeyondTable()
    ensures Accepted(193 * 193) && !Prime(193 * 193)
  {
    assert (193 * 193) % 193 == 0;
    forall i | 0 <= i < |SmallPrimes|
      ensures (193 * 193) % SmallPrimes[i] != 0
    {
      if i == 0 {
      } else if i == 1 {
      } else if i == 2 {
      } else if i == 3 {
      } else if i == 4 {
      } else if i == 5 {
      } else if i == 6 {
      } else if i == 7 {
      } else if i == 8 {
      } else if i == 9 {
      } else if i == 10 {
      } else if i == 11 {
      } else if i == 12 {
      } else if i == 13 {
      } else if i == 14 {
      } else if i == 15 {
      } else if i == 16 {
      } else if i == 17 {
      } else if i == 18 {
      } else if i == 19 {
      } else if i == 20 {
      } else if i == 21 {
      } else if i == 22 {
      } else if i == 23 {
      } else if i == 24 {
      } else if i == 25 {
      } else if i == 26 {
      } else if i == 27 {
      } else if i == 28 {
      } else if i == 29 {
      } else if i == 30 {
      } else if i == 31 {
      } else if i == 32 {
      } else if i == 33 {
      } else if i == 34 {
      } else if i == 35 {
      } else if i == 36 {
      } else if i == 37 {
      } else if i == 38 {
      } else if i == 39 {
      } else if i == 40 {
      } else if i == 41 {
      }
    }
  }

  /** Below 2 isPrime's test passes vacuously, though no such integer is prime. */
  lemma AcceptedBelowTwo(x: int)
    requires x < 2
    ensures Accepted(x) && !Prime(x)
  {
    forall i | 0 <= i < |SmallPrimes|
      ensures SmallPrimes[i] * SmallPrimes[i] > x
    {
      TableBounds(i);
    }
  }

  /** An integer from 2 to 192 with no factor from 2 to 13 other than itself passes isPrime's test. */
  lemma SmallAccepted(p: int)
    requires 2 <= p < 193
    requires (p % 2 != 0 || p == 2) && (p % 3 != 0 || p == 3) && (p % 5 != 0 || p == 5)
    requires (p % 7 != 0 || p == 7) && (p % 11 != 0 || p == 11) && (p % 13 != 0 || p == 13)
    ensures Accepted(p)
  {
    forall j | 0 <= j < |SmallPrimes| && SmallPrimes[j] * SmallPrimes[j] <= p
      ensures p % SmallPrimes[j] != 0
    {
      if j >= 6 {
        TableIncreasing(5, j);
        SquareMono(14, SmallPrimes[j]);
        assert false;
      }
      assert SmallPrimes[j] != p by {
        assert SmallPrimes[j] >= 2;
        assert SmallPrimes[j] * 2 <= SmallPrimes[j] * SmallPrimes[j];
      }
    }
  }

  /** Every table entry is prime. */
  lemma TablePrime(i: nat)
    requires i < |SmallPrimes|
    ensures Prime(SmallPrimes[i])
  {
    if i < 22 {
      LowEntryAccepted(i);
    } else {
      HighEntryAccepted(i);
    }
    AcceptedPrime(SmallPrimes[i]);
  }

  /** The first 22 table entries, 2 to 79, pass isPrime's test. */
  lemma LowEntryAccepted(i: nat)
    requires i < 22
    ensures Accepted(SmallPrimes[i])
  {
    if i == 0 {
      SmallAccepted(2);
    } else if i == 1 {
      SmallAccepted(3);
    } else if i == 2 {
      SmallAccepted(5);
    } else if i == 3 {
      SmallAccepted(7);
    } else if i == 4 {
      SmallAccepted(11);
    } else if i == 5 {
      SmallAccepted(13);
    } else if i == 6 {
      SmallAccepted(17);
    } else if i == 7 {
      SmallAccepted(19);
    } else if i == 8 {
      SmallAccepted(23);
    } else if i == 9 {
      SmallAccepted(29);
    } else if i == 10 {
      SmallAccepted(31);
    } else if i == 11 {
      SmallAccepted(37);
    } else if i == 12 {
      SmallAccepted(41);
    } else if i == 13 {
      SmallAccepted(43);
    } else if i == 14 {
      SmallAccepted(47);
    } else if i == 15 {
      SmallAccepted(53);
    } else if i == 16 {
      SmallAccepted(59);
    } else if i == 17 {
      SmallAccepted(61);
    } else if i == 18 {
      SmallAccepted(67);
    } else if i == 19 {
      SmallAccepted(71);
    } else if i == 20 {
      SmallAccepted(73);
    } else {
      SmallAccepted(79);
    }
  }

  /** The other table entries, 83 to 191, pass isPrime's test. */
  lemma HighEntryAccepted(i: nat)
    requires 22 <= i < |SmallPrimes|
    ensures Accepted(SmallPrimes[i])
  {
    if i == 22 {
      SmallAccepted(83);
    } else if i == 23 {
      SmallAccepted(89);
    } else if i == 24 {
      SmallAccepted(97);
    } else if i == 25 {
      SmallAccepted(101);
    } else if i == 26 {
      SmallAccepted(103);
    } else if i == 27 {
      SmallAccepted(107);
    } else if i == 28 {
      SmallAccepted(109);
    } else if i == 29 {
      SmallAccepted(113);
    } else if i == 30 {
      SmallAccepted(127);
    } else if i == 31 {
      SmallAccepted(131);
    } else if i == 32 {
      SmallAccepted(137);
    } else if i == 33 {
      SmallAccepted(139);
    } else if i == 34 {
      SmallAccepted(149);
    } else if i == 35 {
      SmallAccepted(151);
    } else if i == 36 {
      SmallAccepted(157);
    } else if i == 37 {
      SmallAccepted(163);
    } else if i == 38 {
      SmallAccepted(167);
    } else if i == 39 {
      SmallAccepted(173);
    } else if i == 40 {
      SmallAccepted(179);
    } else if i == 41 {
      SmallAccepted(181);
    } else {
      SmallAccepted(191);
    }
  }

  /** Every prime below 193 is a table entry. */
  lemma TableComplete(y: int)
    requires Prime(y) && y < 193
    ensures y in SmallPrimes
  {
    var k := TableFactor(y);
    assert SmallPrimes[k] >= 2 by {
      if k > 0 {
        TableIncreasing(0, k);
      }
    }
  }

  /** Fact(n) is a multiple of every integer from 1 to n. */
  lemma {:induction false} FactMultiple(n: nat, p: int)
    requires 1 <= p <= n
    ensures Fact(n) % p == 0
  {
    DivUnique(Fact(n), Fact(n - 1), n, 0);
    if p == n {
      DivUnique(Fact(n), n, Fact(n - 1), 0);
    } else {
      FactMultiple(n - 1, p);
      DividesTrans(p, Fact(n - 1), Fact(n));
    }
  }

  /** The table runs from 2 to 191. */
  lemma TableBounds(i: nat)
    requires i < |SmallPrimes|
    ensures 2 <= SmallPrimes[i] <= 191
  {
    if i > 0 {
      TableIncreasing(0, i);
    }
    if i < |SmallPrimes| - 1 {
      TableIncreasing(i, |SmallPrimes| - 1);
    }
  }

  /** 1 + x · x! leaves remainder 1 on division by any p from 2 to x. */
  lemma EuclidResidue(x: nat, p: int)
    requires 2 <= p <= x
    ensures (1 + x * Fact(x)) % p == 1
  {
    FactMultiple(x, p);
    var c := Fact(x) / p;
    assert x * Fact(x) == (x * c) * p;
    DivUnique(1 + x * Fact(x), p, x * c, 1);
  }

  /** Euclid's witness: above the table, 1 + x · x! passes isPrime's test. */
  lemma AcceptedAbove(x: int) returns (t: int)
    requires x > 191
    ensures t >= x && Accepted(t)
  {
    t := 1 + x * Fact(x);
    assert x * Fact(x) >= x;
    forall i | 0 <= i < |SmallPrimes|
      ensures t % SmallPrimes[i] == 1
    {
      TableBounds(i);
      EuclidResidue(x, SmallPrimes[i]);
    }
  }

  /** The first table entry at least x is prime, and no integer from x up to it is. */
  lemma TableNext(i: nat, x: int)
    requires i < |SmallPrimes| && SmallPrimes[i] >= x
    requires forall j :: 0 <= j < i ==> SmallPrimes[j] < x
    ensures Prime(SmallPrimes[i]) && Accepted(SmallPrimes[i])
    ensures forall j :: 0 <= j < |SmallPrimes| && SmallPrimes[j] >= x ==> SmallPrimes[i] <= SmallPrimes[j]
    ensures forall y :: x <= y < SmallPrimes[i] ==> !Prime(y)
  {
    TablePrime(i);
    PrimeAccepted(SmallPrimes[i]);
    forall j | i < j < |SmallPrimes|
      ensures SmallPrimes[i] < SmallPrimes[j]
    {
      TableIncreasing(i, j);
    }
    forall y | x <= y < SmallPrimes[i] && Prime(y)
      ensures false
    {
      assert SmallPrimes[i] <= 191 by {
        if i < |SmallPrimes| - 1 {
          TableIncreasing(i, |SmallPrimes| - 1);
        }
      }
      TableComplete(y);
    }
  }

  /** Between isPrime's verdicts and primality: the search above the table finds a prime below 193 * 193. */
  lemma SearchPrime(x: int, r: int)
    requires x > 191
    requires r >= x && Accepted(r) && forall y :: x <= y < r ==> !Accepted(y)
    ensures r < 193 * 193 ==> Prime(r) && forall y :: x <= y < r ==> !Prime(y)
  {
    if r < 193 * 193 {
      AcceptedPrime(r);
      forall y | x <= y < r && Prime(y)
        ensures false
      {
        PrimeAccepted(y);
      }
    }
  }

  /**
   * smallestPrimeGreaterOrEqual(x): the first table entry at least x when x
   * is at most the last entry, and otherwise the first integer from x on
   * that passes isPrime.
   */
  method SmallestPrimeGreaterOrEqual(x: int) returns (r: int)
    ensures r >= x && Accepted(r)
    ensures x <= 191 ==> r in SmallPrimes && forall j :: 0 <= j < |SmallPrimes| && SmallPrimes[j] >= x ==> r <= SmallPrimes[j]
    ensures x > 191 ==> forall y :: x <= y < r ==> !Accepted(y)
    ensures r < 193 * 193 ==> Prime(r) && forall y :: x <= y < r ==> !Prime(y)
  {
    if x <= SmallPrimes[|SmallPrimes| - 1] {
      r := FirstTableEntry(x);
    } else {
      r := NextAccepted(x);
      SearchPrime(x, r);
    }
  }

  /** The table scan of smallestPrimeGreaterOrEqual. */
  method FirstTableEntry(x: int) returns (r: int)
    requires x <= 191
    ensures r >= x && r in SmallPrimes && Prime(r) && Accepted(r)
    ensures forall j :: 0 <= j < |SmallPrimes| && SmallPrimes[j] >= x ==> r <= SmallPrimes[j]
    ensures forall y :: x <= y < r ==> !Prime(y)
  {
    var i := 0;
    while i < |SmallPrimes|
      invariant 0 <= i < |SmallPrimes|
      invariant forall j :: 0 <= j < i ==> SmallPrimes[j] < x
    {
      if SmallPrimes[i] >= x {
        TableNext(i, x);
        return SmallPrimes[i];
      }
      i := i + 1;
    }
    assert false;
  }

  /** The isPrime search of smallestPrimeGreaterOrEqual above the table. */
  method NextAccepted(x: int) returns (r: int)
    requires x > 191
    ensures r >= x && Accepted(r)
    ensures forall y :: x <= y < r ==> !Accepted(y)
  {
    ghost var t := AcceptedAbove(x);
    r := x;
    var ok := IsPrime(r);
    while !ok
      invariant x <= r <= t
      invariant ok <==> Accepted(r)
      invariant forall y :: x <= y < r ==> !Accepted(y)
      decreases t - r
    {
      r := r + 1;
      ok := IsPrime(r);
    }
  }
}
