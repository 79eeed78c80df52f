/**
 * The dense Luby-Transform codec (src/luby.c). An LT block is the XOR of d
 * distinct source blocks: d is picked from a cumulative degree table, the
 * blocks are sampled without replacement, both from the codec's `rand_r`
 * seed. The decoder writes one 0/1 row per received block into a K × K
 * matrix and solves it by Gaussian elimination over GF(2).
 *
 * `rand_r` is foreign: the values it returns from the codec's initial seed
 * are the parameter `draws` (draws(k) is the k-th one), and the seed the
 * codec carries becomes the number of draws taken so far.
 */
module Luby {
  import opened Bytes
  import opened Rows
  import opened Combinatorics
  import opened Wrappers
  import Blocks = Block
  import Util

  /** RAND_MAX of the C library the codec is built against (glibc). */
  const RandMax: nat := 2147483647

  /** The values rand_r returns, in order, from a codec's initial seed. */
  type Draws = nat -> nat

  /** rand_r(seed) / RAND_MAX as a double. */
  function Fraction(x: nat): real
  {
    x as real / RandMax as real
  }

  // ---------------------------------------------------------------------
  // pickDegree: linear scan of the cumulative degree table

  /** Reference definition: one more than the first index i at or after `from` with r < cdf[i], else |cdf|. */
  function DegreeFrom(r: real, cdf: seq<real>, from: nat): (d: nat)
    ensures d <= |cdf|
    decreases |cdf| - from
  {
    if from >= |cdf| then |cdf| else if r < cdf[from] then from + 1 else DegreeFrom(r, cdf, from + 1)
  }

  function Degree(r: real, cdf: seq<real>): (d: nat)
    ensures d <= |cdf|
  {
    DegreeFrom(r, cdf, 0)
  }

  /** Past `from`, DegreeFrom lands on the first entry above r, or on |cdf| when there is none. */
  lemma {:induction false} DegreeFromFirst(r: real, cdf: seq<real>, from: nat)
    requires from <= |cdf| && forall i :: 0 <= i < from ==> cdf[i] <= r
    ensures var d := DegreeFrom(r, cdf, from);
      (|cdf| > 0 ==> 1 <= d)
      && (forall i :: 0 <= i < d - 1 ==> cdf[i] <= r)
      && ((0 < d && r < cdf[d - 1]) || forall i :: 0 <= i < |cdf| ==> cdf[i] <= r)
    decreases |cdf| - from
  {
    if from < |cdf| && cdf[from] <= r {
      DegreeFromFirst(r, cdf, from + 1);
    }
  }

  /**
   * The degree pickDegree returns for a draw r: i + 1 for the first i with
   * r < cdf[i], else the table's length; it lies in 1 .. |cdf| for a
   * non-empty table, whatever r is.
   */
  lemma DegreeFirst(r: real, cdf: seq<real>)
    ensures var d := Degree(r, cdf);
      (|cdf| > 0 ==> 1 <= d <= |cdf|)
      && (forall i :: 0 <= i < d - 1 ==> cdf[i] <= r)
      && ((0 < d && r < cdf[d - 1]) || forall i :: 0 <= i < |cdf| ==> cdf[i] <= r)
  {
    DegreeFromFirst(r, cdf, 0);
  }

  /** pickDegree, for the draw already divided by RAND_MAX. */
  method PickDegree(r: real, cdf: seq<real>) returns (d: nat)
    ensures d == Degree(r, cdf)
  {
    var i := 0;
    while i < |cdf|
      invariant 0 <= i <= |cdf|
      invariant DegreeFrom(r, cdf, i) == Degree(r, cdf)
    {
      if r < cdf[i] {
        return i + 1;
      }
      i := i + 1;
    }
    return |cdf|;
  }

  // ---------------------------------------------------------------------
  // sampleUniform: swap-with-last sampling without replacement

  /** The values still available after taking the one at k: the last live value moves into slot k. */
  function Next(avail: seq<int>, k: nat): (r: seq<int>)
    requires k < |avail|
    ensures |r| == |avail| - 1
  {
    avail[k := avail[|avail| - 1]][..|avail| - 1]
  }

  /** Taking the value at k leaves exactly the other values available. */
  lemma NextElements(avail: seq<int>, k: nat)
    requires k < |avail| && Util.Distinct(avail)
    ensures Util.Distinct(Next(avail, k))
    ensures forall x :: x in Next(avail, k) <==> x in avail && x != avail[k]
  {
    var r := Next(avail, k);
    var last := |avail| - 1;
    forall x | x in avail && x != avail[k]
      ensures x in r
    {
      var t :| 0 <= t < |avail| && avail[t] == x;
      if t == last {
        assert r[k] == x;
      } else {
        assert r[t] == x;
      }
    }
  }

  /**
   * Reference definition of the sampling loop: after i picks, the values
   * picked so far and the live prefix of `available`. Pick i takes the live
   * value at draws(at + i) modulo the number of live values.
   */
  function Pass(draws: Draws, at: nat, max: nat, i: nat): (r: (seq<int>, seq<int>))
    requires i <= max
    ensures |r.0| == i && |r.1| == max - i
  {
    if i == 0 then ([], Range(0, max))
    else
      var (picked, live) := Pass(draws, at, max, i - 1);
      var k := draws(at + i - 1) % |live|;
      (picked + [live[k]], Next(live, k))
  }

  /** Writing x at position i of a sequence and keeping i + 1 entries appends x to the first i. */
  lemma TakeAppend(s: seq<int>, i: nat, x: int)
    requires i < |s|
    ensures s[i := x][..i + 1] == s[..i] + [x]
  {
  }

  /** Moving entry n - 1 into position k and keeping n - 1 entries is Next on the first n. */
  lemma TakeNext(s: seq<int>, n: nat, k: nat)
    requires k < n <= |s|
    ensures s[k := s[n - 1]][..n - 1] == Next(s[..n], k)
  {
  }

  /** One more pass picks the live value at the next draw modulo the live count. */
  lemma PassStep(draws: Draws, at: nat, max: nat, i: nat)
    requires i < max
    ensures var live, k := Pass(draws, at, max, i).1, draws(at + i) % (max - i);
      Pass(draws, at, max, i + 1).0 == Pass(draws, at, max, i).0 + [live[k]]
      && Pass(draws, at, max, i + 1).1 == Next(live, k)
  {
  }

  /** The d values sampleUniform picks from 0 .. max - 1, starting at draw `at`. */
  function Sample(draws: Draws, at: nat, d: nat, max: nat): (s: seq<int>)
    requires d <= max
  {
    Pass(draws, at, max, d).0
  }

  /**
   * The loop invariant of sampleUniform: the picked values and the live
   * values together are 0 .. max - 1, each exactly once.
   */
  lemma {:induction false} PassSplits(draws: Draws, at: nat, max: nat, i: nat)
    requires i <= max
    ensures var (picked, live) := Pass(draws, at, max, i);
      Util.Distinct(picked + live) && forall x :: x in picked + live <==> 0 <= x < max
  {
    if i == 0 {
      assert [] + Range(0, max) == Range(0, max);
      forall x | 0 <= x < max
        ensures x in Range(0, max)
      {
        assert Range(0, max)[x] == x;
      }
    } else {
      PassSplits(draws, at, max, i - 1);
      var (picked, live) := Pass(draws, at, max, i - 1);
      var k := draws(at + i - 1) % |live|;
      DistinctSplit(picked, live);
      NextElements(live, k);
      var picked', live' := picked + [live[k]], Next(live, k);
      forall x
        ensures x in picked' + live' <==> x in picked + live
      {
      }
      forall a, b | 0 <= a < b < |picked' + live'|
        ensures (picked' + live')[a] != (picked' + live')[b]
      {
        var s := picked' + live';
        if b < |picked'| {
          if b < |picked| {
            assert s[a] == (picked + live)[a] && s[b] == (picked + live)[b];
          } else {
            assert s[a] in picked;
          }
        } else if a < |picked'| {
          assert s[b] in live';
          if a < |picked| {
            assert s[a] in picked;
          }
        } else {
          assert s[a] == live'[a - |picked'|] && s[b] == live'[b - |picked'|];
        }
      }
    }
  }

  /** The halves of a list without repeats have none, and share no value. */
  lemma DistinctSplit(a: seq<int>, b: seq<int>)
    requires Util.Distinct(a + b)
    ensures Util.Distinct(a) && Util.Distinct(b)
    ensures forall x :: x in a ==> x !in b
  {
    forall p, q | 0 <= p < q < |a|
      ensures a[p] != a[q]
    {
      assert (a + b)[p] == a[p] && (a + b)[q] == a[q];
    }
    forall p, q | 0 <= p < q < |b|
      ensures b[p] != b[q]
    {
      assert (a + b)[|a| + p] == b[p] && (a + b)[|a| + q] == b[q];
    }
    forall p, q | 0 <= p < |a| && 0 <= q < |b|
      ensures a[p] != b[q]
    {
      assert (a + b)[p] == a[p] && (a + b)[|a| + q] == b[q];
    }
  }

  /** sampleUniform picks d distinct values below max. */
  lemma SampleRange(draws: Draws, at: nat, d: nat, max: nat)
    requires d <= max
    ensures Util.Distinct(Sample(draws, at, d, max))
    ensures Util.Below(Sample(draws, at, d, max), max)
  {
    PassSplits(draws, at, max, d);
    var (picked, live) := Pass(draws, at, max, d);
    DistinctSplit(picked, live);
    forall k | 0 <= k < |picked|
      ensures 0 <= picked[k] < max
    {
      assert picked[k] in picked + live;
    }
  }

  /**
   * sampleUniform(seed, d, max): `available` starts as 0 .. max - 1; each pick
   * takes available[draw % (max - i)] and moves the last live entry into
   * its place. d must not exceed max, or the modulus reaches zero.
   */
  method SampleUniform(draws: Draws, at: nat, d: nat, max: nat) returns (indices: seq<int>)
    requires d <= max
    ensures indices == Sample(draws, at, d, max)
    ensures |indices| == d && Util.Distinct(indices) && Util.Below(indices, max)
  {
    var available := new int[max](i => i);
    var picked := new int[d];
    assert available[..max] == Range(0, max);
    var i := 0;
    while i < d
      invariant 0 <= i <= d && picked != available
      invariant picked[..i] == Pass(draws, at, max, i).0
      invariant available[..max - i] == Pass(draws, at, max, i).1
    {
      ghost var p0, a0 := picked[..], available[..];
      ghost var got, live := Pass(draws, at, max, i).0, Pass(draws, at, max, i).1;
      assert p0[..i] == got && a0[..max - i] == live;
      var index := draws(at + i) % (max - i);
      PassStep(draws, at, max, i);
      picked[i] := available[index];
      available[index] := available[max - i - 1];
      assert picked[..] == p0[i := a0[index]] && available[..] == a0[index := a0[max - i - 1]];
      TakeAppend(p0, i, a0[index]);
      TakeNext(a0, max - i, index);
      assert picked[..i + 1] == got + [live[index]] && available[..max - i - 1] == Next(live, index);
      i := i + 1;
    }
    indices := picked[..];
    assert picked[..] == picked[..d];
    SampleRange(draws, at, d, max);
  }

  // ---------------------------------------------------------------------
  // xorBlocks and generateLubyTransformBlock

  /** XOR-ing the same bytes in twice gives back the original buffer. */
  lemma XorPrefixTwice(d: seq<byte>, s: seq<byte>)
    requires |s| <= |d|
    ensures Blocks.XorPrefix(Blocks.XorPrefix(d, s), s) == d
  {
    assert forall i :: 0 <= i < |s| ==> d[i] ^ s[i] ^ s[i] == d[i];
  }

  /** xorBlocks(dest, src, length): dest[i] ^= src[i] for i < length; later bytes are untouched. */
  method XorBlocks(dest: array<byte>, src: seq<byte>, length: nat)
    requires length <= dest.Length && length <= |src|
    modifies dest
    ensures dest[..] == Blocks.XorPrefix(old(dest[..]), src[..length])
  {
    ghost var start := dest[..];
    for i := 0 to length
      invariant forall k :: 0 <= k < i ==> dest[k] == start[k] ^ src[k]
      invariant forall k :: i <= k < dest.Length ==> dest[k] == start[k]
    {
      dest[i] := dest[i] ^ src[i];
    }
  }

  /** Every index names a source block with at least w bytes. */
  predicate Covers(source: seq<seq<byte>>, indices: seq<int>, w: nat)
  {
    forall k :: 0 <= k < |indices| ==> 0 <= indices[k] < |source| && |source[indices[k]]| >= w
  }

  /** The first w bytes of the named source blocks XOR-ed together, in index order. */
  function Encoded(source: seq<seq<byte>>, indices: seq<int>, w: nat): (c: seq<byte>)
    requires Covers(source, indices, w)
    ensures |c| == w
  {
    if indices == [] then Zeros(w)
    else
      var n := |indices| - 1;
      Xor(Encoded(source, indices[..n], w), source[indices[n]][..w])
  }

  /**
   * On equally long source blocks, an encoded block is what the index row
   * stands for in the equation solver: the XOR of the blocks it names,
   * independent of the order they were added in.
   */
  lemma {:induction false} EncodedRow(source: seq<seq<byte>>, indices: seq<int>, w: nat)
    requires Uniform(source, w) && Within(indices, |source|)
    ensures Covers(source, indices, w)
    ensures Encoded(source, indices, w) == XorAll(source, indices, w)
  {
    if indices != [] {
      var n := |indices| - 1;
      EncodedRow(source, indices[..n], w);
      assert indices == indices[..n] + [indices[n]];
      XorAllAppend(source, indices[..n], indices[n], w);
      assert source[indices[n]][..w] == source[indices[n]];
    }
  }

  /**
   * generateLubyTransformBlock(source, indices): a zeroed buffer as long as
   * source block 0, with every named source block XOR-ed in.
   */
  method GenerateBlock(source: seq<seq<byte>>, indices: seq<int>) returns (result: seq<byte>)
    requires |source| > 0 && Covers(source, indices, |source[0]|)
    ensures result == Encoded(source, indices, |source[0]|)
  {
    var w := |source[0]|;
    var data := new byte[w](_ => 0);
    assert data[..] == Zeros(w);
    for i := 0 to |indices|
      invariant data[..] == Encoded(source, indices[..i], w)
    {
      XorBlocks(data, source[indices[i]], w);
      assert indices[..i + 1][..i] == indices[..i];
    }
    assert indices[..|indices|] == indices;
    result := data[..];
  }

  // ---------------------------------------------------------------------
  // PickIndices_Luby and the codec

  /** An encoded block as it travels: the ID it was made for and its bytes. */
  datatype LTBlock = LTBlock(blockCode: int, data: seq<byte>)

  /**
   * PickIndices_Luby from draw `at` on: one draw for the degree d, then d
   * draws for the sampled blocks; also the first draw left unused.
   */
  function Pick(draws: Draws, cdf: seq<real>, k: nat, at: nat): (p: (seq<int>, nat))
    requires |cdf| <= k
    ensures p.1 == at + 1 + |p.0|
  {
    var d := Degree(Fraction(draws(at)), cdf);
    (Sample(draws, at + 1, d, k), at + 1 + d)
  }

  /** n calls of PickIndices_Luby in a row, from draw `at` on, and the draw after them. */
  function Picks(draws: Draws, cdf: seq<real>, k: nat, at: nat, n: nat): (p: (seq<seq<int>>, nat))
    requires |cdf| <= k
    ensures |p.0| == n
    decreases n
  {
    if n == 0 then ([], at)
    else
      var (first, next) := Pick(draws, cdf, k, at);
      var (rest, last) := Picks(draws, cdf, k, next, n - 1);
      ([first] + rest, last)
  }

  /** One more call extends the picks by the pick at the draw the earlier calls reached. */
  lemma {:induction false} PicksAppend(draws: Draws, cdf: seq<real>, k: nat, at: nat, n: nat)
    requires |cdf| <= k
    ensures var (ps, next) := Picks(draws, cdf, k, at, n);
      Picks(draws, cdf, k, at, n + 1) == (ps + [Pick(draws, cdf, k, next).0], Pick(draws, cdf, k, next).1)
    decreases n
  {
    if n == 0 {
      var (first, next) := Pick(draws, cdf, k, at);
      assert Picks(draws, cdf, k, next, 0) == ([], next);
      assert [first] + [] == [] + [first];
    } else {
      var (first, next) := Pick(draws, cdf, k, at);
      PicksAppend(draws, cdf, k, next, n - 1);
      var (ps, last) := Picks(draws, cdf, k, next, n - 1);
      assert [first] + (ps + [Pick(draws, cdf, k, last).0]) == ([first] + ps) + [Pick(draws, cdf, k, last).0];
    }
  }

  /** Every pick names between 1 and |cdf| distinct source blocks. */
  lemma PickValid(draws: Draws, cdf: seq<real>, k: nat, at: nat)
    requires |cdf| <= k
    ensures ValidPick(Pick(draws, cdf, k, at).0, cdf, k)
  {
    DegreeFirst(Fraction(draws(at)), cdf);
    SampleRange(draws, at + 1, Degree(Fraction(draws(at)), cdf), k);
  }

  lemma {:induction false} PicksValid(draws: Draws, cdf: seq<real>, k: nat, at: nat, n: nat)
    requires |cdf| <= k
    ensures forall t :: 0 <= t < n ==> ValidPick(Picks(draws, cdf, k, at, n).0[t], cdf, k)
    decreases n
  {
    if n > 0 {
      var next := Pick(draws, cdf, k, at).1;
      PickValid(draws, cdf, k, at);
      PicksValid(draws, cdf, k, next, n - 1);
      var ps := Picks(draws, cdf, k, at, n).0;
      var rest := Picks(draws, cdf, k, next, n - 1).0;
      assert ps == [Pick(draws, cdf, k, at).0] + rest;
      forall t | 0 < t < n
        ensures ps[t] == rest[t - 1]
      {
      }
    }
  }

  /** What every pick is: between 1 and |cdf| distinct source blocks below k. */
  predicate ValidPick(s: seq<int>, cdf: seq<real>, k: nat)
  {
    (|cdf| > 0 ==> 1 <= |s| <= |cdf|) && Util.Distinct(s) && Util.Below(s, k)
  }

  /** The 0/1 row with a 1 exactly at the named columns. */
  function Indicator(indices: seq<int>, k: nat): (row: seq<int>)
    ensures |row| == k
  {
    seq(k, c => if c in indices then 1 else 0)
  }

  class LubyCodec {
    const sourceBlocks: nat
    const draws: Draws
    const degreeCDF: seq<real>
    /** The seed rand_r advances, as the number of draws taken from it so far. */
    var seed: nat

    /** NewLubyCodec: the block count, the seed and a copy of the degree table. */
    constructor (sourceBlocks: nat, draws: Draws, degreeCDF: seq<real>)
      ensures this.sourceBlocks == sourceBlocks && this.draws == draws && this.degreeCDF == degreeCDF
      ensures seed == 0
    {
      this.sourceBlocks := sourceBlocks;
      this.draws := draws;
      this.degreeCDF := degreeCDF;
      seed := 0;
    }

    /**
     * PickIndices_Luby: the block ID is not read; the indices come from the
     * codec's seed alone, which the call advances by 1 + d draws.
     */
    method PickIndices(codeBlockIndex: int) returns (indices: seq<int>)
      requires |degreeCDF| <= sourceBlocks
      modifies this
      ensures (indices, seed) == Pick(draws, degreeCDF, sourceBlocks, old(seed))
    {
      var degree := PickDegree(Fraction(draws(seed)), degreeCDF);
      seed := seed + 1;
      indices := SampleUniform(draws, seed, degree, sourceBlocks);
      seed := seed + degree;
    }

    /**
     * EncodeLTBlocks over the source blocks: one LT block per requested ID,
     * in order, tagged with that ID, XOR-ing the blocks the next pick names.
     */
    method EncodeLTBlocks(source: seq<seq<byte>>, ids: seq<int>) returns (lt: seq<LTBlock>)
      requires |degreeCDF| <= sourceBlocks <= |source| && |source| > 0
      requires forall b :: 0 <= b < sourceBlocks ==> |source[b]| >= |source[0]|
      modifies this
      ensures var (ps, next) := Picks(draws, degreeCDF, sourceBlocks, old(seed), |ids|);
        seed == next && |lt| == |ids|
        && forall t :: 0 <= t < |ids| ==>
          Covers(source, ps[t], |source[0]|) && lt[t] == LTBlock(ids[t], Encoded(source, ps[t], |source[0]|))
    {
      ghost var start := seed;
      ghost var ps: seq<seq<int>> := [];
      lt := [];
      for i := 0 to |ids|
        invariant (ps, seed) == Picks(draws, degreeCDF, sourceBlocks, start, i) && |lt| == i
        invariant Encodes(source, ids, ps, lt) == true
      {
        PicksAppend(draws, degreeCDF, sourceBlocks, start, i);
        PickValid(draws, degreeCDF, sourceBlocks, seed);
        var indices := PickIndices(ids[i]);
        PickCovers(source, indices, degreeCDF, sourceBlocks);
        var b := GenerateBlock(source, indices);
        EncodesAppend(source, ids, ps, lt, indices, b);
        ps := ps + [indices];
        lt := lt + [LTBlock(ids[i], b)];
      }
    }
  }

  /** The LT blocks so far carry the first |lt| IDs and encode the picks made for them. */
  ghost predicate Encodes(source: seq<seq<byte>>, ids: seq<int>, ps: seq<seq<int>>, lt: seq<LTBlock>)
  {
    |source| > 0 && |ps| == |lt| <= |ids|
    && forall t :: 0 <= t < |lt| ==>
         Covers(source, ps[t], |source[0]|) && lt[t] == LTBlock(ids[t], Encoded(source, ps[t], |source[0]|))
  }

  /** Encoding the next pick and tagging it with the next ID extends the run. */
  lemma EncodesAppend(source: seq<seq<byte>>, ids: seq<int>, ps: seq<seq<int>>, lt: seq<LTBlock>, p: seq<int>, b: seq<byte>)
    requires Encodes(source, ids, ps, lt) && |lt| < |ids|
    requires Covers(source, p, |source[0]|) && b == Encoded(source, p, |source[0]|)
    ensures Encodes(source, ids, ps + [p], lt + [LTBlock(ids[|lt|], b)])
  {
    var ps', lt' := ps + [p], lt + [LTBlock(ids[|lt|], b)];
    forall t | 0 <= t < |lt'|
      ensures Covers(source, ps'[t], |source[0]|) && lt'[t] == LTBlock(ids[t], Encoded(source, ps'[t], |source[0]|))
    {
      if t < |lt| {
        assert ps'[t] == ps[t] && lt'[t] == lt[t];
      }
    }
  }

  /** A valid pick over the first k source blocks, none shorter than block 0, covers block 0's length. */
  lemma PickCovers(source: seq<seq<byte>>, s: seq<int>, cdf: seq<real>, k: nat)
    requires ValidPick(s, cdf, k) && 0 < |source| && k <= |source|
    requires forall b :: 0 <= b < k ==> |source[b]| >= |source[0]|
    ensures Covers(source, s, |source[0]|)
  {
  }

  /**
   * On equally long source blocks every encoded block is the XOR of the
   * distinct source blocks its pick names: the equation the decoder solves.
   */
  lemma EncodedEquations(draws: Draws, cdf: seq<real>, k: nat, at: nat, n: nat, source: seq<seq<byte>>, w: nat)
    requires |cdf| <= k <= |source| && Uniform(source, w)
    ensures var ps := Picks(draws, cdf, k, at, n).0;
      forall t :: 0 <= t < n ==>
        Util.Distinct(ps[t]) && Within(ps[t], |source|) && Covers(source, ps[t], w) && Encoded(source, ps[t], w) == XorAll(source, ps[t], w)
  {
    PicksValid(draws, cdf, k, at, n);
    var ps := Picks(draws, cdf, k, at, n).0;
    forall t | 0 <= t < n
      ensures Util.Distinct(ps[t]) && Within(ps[t], |source|)
        && Covers(source, ps[t], w) && Encoded(source, ps[t], w) == XorAll(source, ps[t], w)
    {
      assert Util.Below(ps[t], k);
      EncodedRow(source, ps[t], w);
    }
  }

  // ---------------------------------------------------------------------
  // The dense decoder: rows of 0/1 coefficients over GF(2)

  /** Every entry of a row is 0 or 1. */
  predicate Bits(row: seq<int>)
  {
    forall c :: 0 <= c < |row| ==> 0 <= row[c] <= 1
  }

  /** k rows of k entries, each 0 or 1. */
  predicate Square(coeff: seq<seq<int>>, k: nat)
  {
    |coeff| == k && forall r :: 0 <= r < k ==> |coeff[r]| == k && Bits(coeff[r])
  }

  /** C's `^` on two entries that are 0 or 1. */
  function BitXor(a: int, b: int): (c: int)
    requires 0 <= a <= 1 && 0 <= b <= 1
    ensures 0 <= c <= 1
  {
    if a == b then 0 else 1
  }

  /** Entry-wise sum over GF(2) of two rows. */
  function RowXor(a: seq<int>, b: seq<int>): (r: seq<int>)
    requires |a| == |b| && Bits(a) && Bits(b)
    ensures |r| == |a| && Bits(r)
  {
    seq(|a|, c requires 0 <= c < |a| => BitXor(a[c], b[c]))
  }

  /** The k loop of Decode_Luby: coeff[j][k] ^= coeff[i][k] for every column k. */
  method XorRows(a: seq<int>, b: seq<int>) returns (r: seq<int>)
    requires |a| == |b| && Bits(a) && Bits(b)
    ensures r == RowXor(a, b)
    ensures forall c :: 0 <= c < |r| ==> (r[c] == 0 <==> a[c] == b[c])
  {
    r := a;
    for k := 0 to |a|
      invariant |r| == |a|
      invariant forall c :: 0 <= c < k ==> r[c] == BitXor(a[c], b[c])
      invariant forall c :: k <= c < |a| ==> r[c] == a[c]
    {
      r := r[k := BitXor(r[k], b[k])];
    }
  }

  /** What the first n columns of a row stand for: the XOR of the source blocks whose entry is set. */
  function RowValue(src: seq<seq<byte>>, row: seq<int>, n: nat, w: nat): (c: seq<byte>)
    requires n <= |row| && n <= |src| && Uniform(src, w)
    ensures |c| == w
  {
    if n == 0 then Zeros(w) else Xor(RowValue(src, row, n - 1, w), Term(src, row, n - 1, w))
  }

  /** What column c of a row contributes: source block c when the entry is set. */
  function Term(src: seq<seq<byte>>, row: seq<int>, c: nat, w: nat): (t: seq<byte>)
    requires c < |row| && c < |src| && Uniform(src, w)
    ensures |t| == w
  {
    if row[c] != 0 then src[c] else Zeros(w)
  }

  /** Column c of the sum of two rows contributes the XOR of what it contributes in each. */
  lemma TermXor(src: seq<seq<byte>>, a: seq<int>, b: seq<int>, c: nat, w: nat)
    requires |a| == |b| && Bits(a) && Bits(b) && c < |a| && c < |src| && Uniform(src, w)
    ensures Term(src, RowXor(a, b), c, w) == Xor(Term(src, a, c, w), Term(src, b, c, w))
  {
    XorZeros(src[c]);
    XorZeros(Zeros(w));
    XorSelf(src[c]);
  }

  /** (A ⊕ x) ⊕ (B ⊕ y) = (A ⊕ B) ⊕ (x ⊕ y). */
  lemma XorRegroup(A: seq<byte>, x: seq<byte>, B: seq<byte>, y: seq<byte>)
    requires |A| == |x| == |B| == |y|
    ensures Xor(Xor(A, x), Xor(B, y)) == Xor(Xor(A, B), Xor(x, y))
  {
    assert forall q :: 0 <= q < |A| ==> Xor(Xor(A, x), Xor(B, y))[q] == Xor(Xor(A, B), Xor(x, y))[q];
  }

  /** The value of the sum of two rows is the XOR of their values. */
  lemma {:induction false} RowValueXor(src: seq<seq<byte>>, a: seq<int>, b: seq<int>, n: nat, w: nat)
    requires |a| == |b| && Bits(a) && Bits(b) && n <= |a| && n <= |src| && Uniform(src, w)
    ensures RowValue(src, RowXor(a, b), n, w) == Xor(RowValue(src, a, n, w), RowValue(src, b, n, w))
  {
    if n == 0 {
      XorZeros(Zeros(w));
    } else {
      RowValueXor(src, a, b, n - 1, w);
      TermXor(src, a, b, n - 1, w);
      assert RowValue(src, RowXor(a, b), n, w) == Xor(RowValue(src, RowXor(a, b), n - 1, w), Term(src, RowXor(a, b), n - 1, w));
      XorRegroup(RowValue(src, a, n - 1, w), Term(src, a, n - 1, w), RowValue(src, b, n - 1, w), Term(src, b, n - 1, w));
    }
  }

  /** A row with no entry set among its first n columns stands for zero bytes. */
  lemma {:induction false} RowValueZero(src: seq<seq<byte>>, row: seq<int>, n: nat, w: nat)
    requires n <= |row| && n <= |src| && Uniform(src, w)
    requires forall c :: 0 <= c < n ==> row[c] == 0
    ensures RowValue(src, row, n, w) == Zeros(w)
  {
    if n > 0 {
      RowValueZero(src, row, n - 1, w);
      XorZeros(Zeros(w));
    }
  }

  /** Adding source block i into a row's value cut at i + 1, when the row has column i set, cuts it at i. */
  lemma BackStep(src: seq<seq<byte>>, row: seq<int>, i: nat, w: nat)
    requires i < |row| && i < |src| && Uniform(src, w)
    ensures (if row[i] != 0 then Xor(RowValue(src, row, i + 1, w), src[i]) else RowValue(src, row, i + 1, w))
      == RowValue(src, row, i, w)
  {
    XorCancel(RowValue(src, row, i, w), src[i]);
    XorZeros(RowValue(src, row, i, w));
  }

  /** A row whose first set entry is column i, up to column i, stands for source block i. */
  lemma RowValueLed(src: seq<seq<byte>>, row: seq<int>, i: nat, w: nat)
    requires i < |row| && i < |src| && Uniform(src, w)
    requires (forall c :: 0 <= c < i ==> row[c] == 0) && row[i] != 0
    ensures RowValue(src, row, i + 1, w) == src[i]
  {
    RowValueZero(src, row, i, w);
    XorZeros(src[i]);
  }

  /** Every row's block is the XOR of the source blocks its row names: the equations hold of src. */
  ghost predicate Satisfied(coeff: seq<seq<int>>, v: seq<seq<byte>>, src: seq<seq<byte>>, w: nat)
  {
    Square(coeff, |src|) && |v| == |src| && Uniform(src, w)
    && forall r :: 0 <= r < |src| ==> v[r] == RowValue(src, coeff[r], |src|, w)
  }

  /** Below the diagonal, the first n columns are zero. */
  predicate Upper(coeff: seq<seq<int>>, n: nat)
  {
    forall j, c :: 0 <= c < n && c < j < |coeff| && c < |coeff[j]| ==> coeff[j][c] == 0
  }

  /** Every diagonal entry is set: elimination found a pivot in every column. */
  predicate UnitDiagonal(coeff: seq<seq<int>>)
  {
    forall i :: 0 <= i < |coeff| && i < |coeff[i]| ==> coeff[i][i] == 1
  }

  /** Blocks laid end to end. */
  function Flatten(bs: seq<seq<byte>>): (out: seq<byte>)
  {
    if bs == [] then [] else Flatten(bs[..|bs| - 1]) + bs[|bs| - 1]
  }

  lemma {:induction false} FlattenLength(bs: seq<seq<byte>>, w: nat)
    requires Uniform(bs, w)
    ensures |Flatten(bs)| == Blocks.Total(|bs|, w)
  {
    if bs != [] {
      FlattenLength(bs[..|bs| - 1], w);
    }
  }

  /** xorBlocks over a whole buffer is the XOR of the two buffers. */
  lemma XorPrefixFull(d: seq<byte>, s: seq<byte>)
    requires |d| == |s|
    ensures Blocks.XorPrefix(d, s) == Xor(d, s)
  {
  }

  /** Rows that agree on their first n columns stand for the same bytes there. */
  lemma {:induction false} RowValueAgree(src: seq<seq<byte>>, a: seq<int>, b: seq<int>, n: nat, w: nat)
    requires n <= |a| && n <= |b| && n <= |src| && Uniform(src, w)
    requires forall c :: 0 <= c < n ==> a[c] == b[c]
    ensures RowValue(src, a, n, w) == RowValue(src, b, n, w)
  {
    if n > 0 {
      RowValueAgree(src, a, b, n - 1, w);
    }
  }

  /** Setting a clear entry x of a row XORs source block x into its value. */
  lemma {:induction false} RowValueSet(src: seq<seq<byte>>, row: seq<int>, x: nat, n: nat, w: nat)
    requires x < n <= |row| && n <= |src| && Uniform(src, w) && row[x] == 0
    ensures RowValue(src, row[x := 1], n, w) == Xor(RowValue(src, row, n, w), src[x])
  {
    var A := RowValue(src, row, n - 1, w);
    if n - 1 == x {
      RowValueAgree(src, row[x := 1], row, x, w);
      XorZeros(A);
    } else {
      RowValueSet(src, row, x, n - 1, w);
      var T := Term(src, row, n - 1, w);
      assert Term(src, row[x := 1], n - 1, w) == T;
      XorAssoc(A, src[x], T);
      XorComm(src[x], T);
      XorAssoc(A, T, src[x]);
    }
  }

  /**
   * The row AddBlocks writes for a pick stands for the block the encoder
   * builds from the same pick: indices drawn without repetition, each
   * below K, set their columns once each.
   */
  lemma {:induction false} IndicatorValue(src: seq<seq<byte>>, indices: seq<int>, w: nat)
    requires Uniform(src, w) && Util.Distinct(indices) && Util.Below(indices, |src|)
    ensures Covers(src, indices, w)
    ensures RowValue(src, Indicator(indices, |src|), |src|, w) == Encoded(src, indices, w)
  {
    var k := |src|;
    if indices == [] {
      RowValueZero(src, Indicator(indices, k), k, w);
    } else {
      var n := |indices| - 1;
      var pre, x := indices[..n], indices[n];
      assert indices == pre + [x];
      IndicatorValue(src, pre, w);
      assert x !in pre;
      assert Indicator(indices, k) == Indicator(pre, k)[x := 1];
      RowValueSet(src, Indicator(pre, k), x, k, w);
      assert src[x][..w] == src[x];
    }
  }

  /**
   * Round trip of the codec: K blocks encoded from K source blocks with
   * picks drawn from some seed, and K rows added to a decoder whose codec
   * draws from the same seed, form a system that the source blocks satisfy.
   */
  lemma EncodedSatisfied(draws: Draws, cdf: seq<real>, at: nat, src: seq<seq<byte>>, w: nat)
    requires |cdf| <= |src| && Uniform(src, w)
    ensures var ps := Picks(draws, cdf, |src|, at, |src|).0;
      forall t :: 0 <= t < |src| ==> Covers(src, ps[t], w)
    ensures var ps := Picks(draws, cdf, |src|, at, |src|).0;
      Satisfied(seq(|src|, t requires 0 <= t < |src| => Indicator(ps[t], |src|)),
                seq(|src|, t requires 0 <= t < |src| => Encoded(src, ps[t], w)), src, w)
  {
    var k := |src|;
    PicksValid(draws, cdf, k, at, k);
    var ps := Picks(draws, cdf, k, at, k).0;
    forall t | 0 <= t < k
      ensures Covers(src, ps[t], w) && RowValue(src, Indicator(ps[t], k), k, w) == Encoded(src, ps[t], w)
    {
      IndicatorValue(src, ps[t], w);
    }
  }

  /**
   * The decoder's rows and blocks after AddBlocks_Luby has taken the blocks
   * for the picks ps: rows first .. first + |ps| - 1 hold those picks'
   * indicator rows and the blocks' bytes, and the rows below first are as
   * they were (c0, v0).
   */
  ghost predicate Added(coeff: seq<seq<int>>, v: seq<seq<byte>>, c0: seq<seq<int>>, v0: seq<seq<byte>>,
                        first: nat, ps: seq<seq<int>>, blocks: seq<LTBlock>, k: nat)
  {
    |ps| <= |blocks| && first + |ps| <= |coeff| == |v| && first <= |c0| && first <= |v0|
    && (forall t :: 0 <= t < |ps| ==> coeff[first + t] == Indicator(ps[t], k) && v[first + t] == blocks[t].data)
    && forall r :: 0 <= r < first ==> coeff[r] == c0[r] && v[r] == v0[r]
  }

  /** Writing the next pick's row and block at slot first + |ps| extends Added by that pick. */
  lemma AddedStep(coeff: seq<seq<int>>, v: seq<seq<byte>>, c0: seq<seq<int>>, v0: seq<seq<byte>>,
                  first: nat, ps: seq<seq<int>>, blocks: seq<LTBlock>, k: nat, p: seq<int>)
    requires Added(coeff, v, c0, v0, first, ps, blocks, k) && |ps| < |blocks| && first + |ps| < |coeff|
    ensures Added(coeff[first + |ps| := Indicator(p, k)], v[first + |ps| := blocks[|ps|].data], c0, v0, first, ps + [p], blocks, k)
  {
    var coeff', v', ps' := coeff[first + |ps| := Indicator(p, k)], v[first + |ps| := blocks[|ps|].data], ps + [p];
    forall t | 0 <= t < |ps'|
      ensures coeff'[first + t] == Indicator(ps'[t], k) && v'[first + t] == blocks[t].data
    {
      if t < |ps| {
        assert ps'[t] == ps[t];
      }
    }
  }

  class LubyDecoder {
    const codec: LubyCodec
    const messageLength: nat
    var coeff: seq<seq<int>>
    var v: seq<seq<byte>>
    var size: nat

    /** K rows of K 0/1 entries and K blocks; the rows not yet written are all zero. */
    ghost predicate Valid()
      reads this
    {
      Square(coeff, codec.sourceBlocks) && |v| == codec.sourceBlocks && size <= codec.sourceBlocks
      && forall r :: size <= r < codec.sourceBlocks ==> coeff[r] == Indicator([], codec.sourceBlocks)
    }

    /**
     * NewDecoder_Luby: K zero rows (calloc) and no rows written; the block
     * array is uninitialised (malloc), here K empty blocks.
     */
    constructor (codec: LubyCodec, messageLength: nat)
      ensures Valid() && this.codec == codec && this.messageLength == messageLength && size == 0
      ensures forall r :: 0 <= r < codec.sourceBlocks ==> coeff[r] == Indicator([], codec.sourceBlocks)
    {
      this.codec := codec;
      this.messageLength := messageLength;
      coeff := seq(codec.sourceBlocks, _ => Indicator([], codec.sourceBlocks));
      v := seq(codec.sourceBlocks, _ => []);
      size := 0;
    }

    /**
     * AddBlocks_Luby: for each block, pick indices with the codec (which
     * advances its seed; the block's ID is not used), set row `size` to 1 at
     * those columns, store the block's bytes as that row's value, and count
     * the row. There are only K rows, so the blocks must fit. Returns
     * whether K rows are filled, the test Decode uses.
     */
    method AddBlocks(blocks: seq<LTBlock>) returns (done: bool)
      requires Valid() && size + |blocks| <= codec.sourceBlocks && |codec.degreeCDF| <= codec.sourceBlocks
      modifies this, codec
      ensures Valid() && size == old(size) + |blocks| && |v| == |old(v)|
      ensures var ps := Picks(codec.draws, codec.degreeCDF, codec.sourceBlocks, old(codec.seed), |blocks|);
        codec.seed == ps.1
        && forall t :: 0 <= t < |blocks| ==>
          coeff[old(size) + t] == Indicator(ps.0[t], codec.sourceBlocks) && v[old(size) + t] == blocks[t].data
      ensures forall r :: 0 <= r < old(size) ==> coeff[r] == old(coeff[r]) && v[r] == old(v[r])
      ensures done <==> size >= codec.sourceBlocks
    {
      ghost var start, first, c0, v0 := codec.seed, size, coeff, v;
      ghost var ps: seq<seq<int>> := [];
      var k := codec.sourceBlocks;
      for i := 0 to |blocks|
        invariant Valid() && size == first + i && |ps| == i
        invariant (ps, codec.seed) == Picks(codec.draws, codec.degreeCDF, k, start, i)
        invariant Added(coeff, v, c0, v0, first, ps, blocks, k) == true
      {
        PicksAppend(codec.draws, codec.degreeCDF, k, start, i);
        ghost var p := Pick(codec.draws, codec.degreeCDF, k, codec.seed).0;
        ghost var c1, v1 := coeff, v;
        AddBlock(blocks[i]);
        AddedStep(c1, v1, c0, v0, first, ps, blocks, k, p);
        ps := ps + [p];
      }
      done := size >= k;
    }

    /**
     * One pass of AddBlocks_Luby's loop: the next pick sets row `size` to 1
     * at the picked columns, the block's bytes become that row's value, and
     * the row is counted.
     */
    method AddBlock(block: LTBlock)
      requires Valid() && size < codec.sourceBlocks && |codec.degreeCDF| <= codec.sourceBlocks
      modifies this, codec
      ensures Valid() && size == old(size) + 1
      ensures var p := Pick(codec.draws, codec.degreeCDF, codec.sourceBlocks, old(codec.seed));
        codec.seed == p.1
        && coeff == old(coeff)[old(size) := Indicator(p.0, codec.sourceBlocks)]
        && v == old(v)[old(size) := block.data]
    {
      var k := codec.sourceBlocks;
      PickValid(codec.draws, codec.degreeCDF, k, codec.seed);
      var indices := codec.PickIndices(block.blockCode);
      var row := coeff[size];
      for j := 0 to |indices|
        invariant row == Indicator(indices[..j], k)
      {
        assert indices[..j + 1] == indices[..j] + [indices[j]];
        row := row[indices[j] := 1];
      }
      assert indices[..|indices|] == indices;
      coeff := coeff[size := row];
      v := v[size := block.data];
      size := size + 1;
    }

    /**
     * Decode_Luby: NULL until K rows are filled; otherwise forward
     * elimination with row swaps, back substitution, and the K solved
     * blocks copied one after another into a zeroed buffer of the message
     * length. Blocks are taken to be of one width w, which the copy needs to
     * fit: K · w bytes at most.
     */
    method Decode(ghost src: seq<seq<byte>>, ghost w: nat) returns (out: Option<seq<byte>>)
      requires Valid()
      requires size >= codec.sourceBlocks ==> Uniform(v, w) && Blocks.Total(codec.sourceBlocks, w) <= messageLength
      modifies this
      ensures old(size) < codec.sourceBlocks ==> out == None && unchanged(this)
      ensures old(size) >= codec.sourceBlocks ==>
        Valid() && Upper(coeff, codec.sourceBlocks) && out.Some?
        && out.value == Flatten(v) + Zeros(messageLength - Blocks.Total(codec.sourceBlocks, w))
      ensures old(size) >= codec.sourceBlocks && Satisfied(old(coeff), old(v), src, w) && UnitDiagonal(coeff) ==>
        out == Some(Flatten(src) + Zeros(messageLength - Blocks.Total(codec.sourceBlocks, w)))
    {
      if size < codec.sourceBlocks {
        return None;
      }
      ghost var cons := Satisfied(coeff, v, src, w);
      Forward(src, w, cons);
      BackSubstitute(src, w, cons && UnitDiagonal(coeff));
      var message := CopyOut(v, w, messageLength);
      out := Some(message);
    }

    /** The elimination loop of Decode_Luby: column by column, pivot, then clear the column below it. */
    method Forward(ghost src: seq<seq<byte>>, ghost w: nat, ghost cons: bool)
      requires Valid() && size == codec.sourceBlocks && Uniform(v, w)
      requires cons ==> Satisfied(coeff, v, src, w)
      modifies this
      ensures Valid() && size == codec.sourceBlocks && Uniform(v, w) && Upper(coeff, codec.sourceBlocks)
      ensures cons ==> Satisfied(coeff, v, src, w)
    {
      for i := 0 to codec.sourceBlocks
        invariant Valid() && size == codec.sourceBlocks && Uniform(v, w) && Upper(coeff, i)
        invariant cons ==> Satisfied(coeff, v, src, w)
      {
        FindPivot(i, src, w, cons);
        ClearBelow(i, src, w, cons);
      }
    }

    /** When column i has no pivot, swap in the first row below that has one. */
    method FindPivot(i: nat, ghost src: seq<seq<byte>>, ghost w: nat, ghost cons: bool)
      requires Valid() && size == codec.sourceBlocks && i < codec.sourceBlocks && Uniform(v, w) && Upper(coeff, i)
      requires cons ==> Satisfied(coeff, v, src, w)
      modifies this
      ensures Valid() && size == codec.sourceBlocks && Uniform(v, w) && Upper(coeff, i)
      ensures cons ==> Satisfied(coeff, v, src, w)
      ensures coeff[i][i] != 0 || forall j :: i < j < codec.sourceBlocks ==> coeff[j][i] == 0
    {
      var k := codec.sourceBlocks;
      if coeff[i][i] == 0 {
        var j := i + 1;
        while j < k
          invariant i + 1 <= j <= k
          invariant forall t :: i < t < j ==> coeff[t][i] == 0
        {
          if coeff[j][i] != 0 {
            coeff := coeff[i := coeff[j]][j := coeff[i]];
            v := v[i := v[j]][j := v[i]];
            return;
          }
          j := j + 1;
        }
      }
    }

    /** Add row i into every row below it that has column i set, and block i into its block. */
    method ClearBelow(i: nat, ghost src: seq<seq<byte>>, ghost w: nat, ghost cons: bool)
      requires Valid() && size == codec.sourceBlocks && i < codec.sourceBlocks && Uniform(v, w) && Upper(coeff, i)
      requires cons ==> Satisfied(coeff, v, src, w)
      requires coeff[i][i] != 0 || forall j :: i < j < codec.sourceBlocks ==> coeff[j][i] == 0
      modifies this
      ensures Valid() && size == codec.sourceBlocks && Uniform(v, w) && Upper(coeff, i + 1)
      ensures cons ==> Satisfied(coeff, v, src, w)
    {
      var k := codec.sourceBlocks;
      ghost var start := coeff;
      for j := i + 1 to k
        invariant Valid() && size == k && Uniform(v, w) && Upper(coeff, i)
        invariant coeff[i] == start[i] && forall t :: j <= t < k ==> coeff[t] == start[t]
        invariant forall t :: i < t < j ==> coeff[t][i] == 0
        invariant cons ==> Satisfied(coeff, v, src, w)
      {
        if coeff[j][i] != 0 {
          AddRowInto(j, i, src, w, cons);
        }
      }
    }

    /** Row i added into row j, block i into block j: the equations still hold. */
    method AddRowInto(j: nat, i: nat, ghost src: seq<seq<byte>>, ghost w: nat, ghost cons: bool)
      requires Valid() && size == codec.sourceBlocks && i < codec.sourceBlocks && j < codec.sourceBlocks && i != j
      requires Uniform(v, w) && (cons ==> Satisfied(coeff, v, src, w))
      modifies this
      ensures Valid() && size == old(size) && Uniform(v, w) && (cons ==> Satisfied(coeff, v, src, w))
      ensures coeff == old(coeff)[j := RowXor(old(coeff)[j], old(coeff)[i])]
      ensures v == old(v)[j := Xor(old(v)[j], old(v)[i])]
    {
      var row := XorRows(coeff[j], coeff[i]);
      if cons {
        RowValueXor(src, coeff[j], coeff[i], codec.sourceBlocks, w);
      }
      coeff := coeff[j := row];
      AddBlockInto(j, i);
    }

    /**
     * The back-substitution loop of Decode_Luby: for i from the last column
     * down, add block i into every block above whose row has column i set.
     * The rows themselves are left as they are.
     */
    method BackSubstitute(ghost src: seq<seq<byte>>, ghost w: nat, ghost solved: bool)
      requires Valid() && size == codec.sourceBlocks && Uniform(v, w) && Upper(coeff, codec.sourceBlocks)
      requires solved ==> Satisfied(coeff, v, src, w) && UnitDiagonal(coeff)
      modifies this
      ensures Valid() && coeff == old(coeff) && size == old(size) && Uniform(v, w)
      ensures solved ==> v == src
    {
      var k := codec.sourceBlocks;
      var i := k as int - 1;
      while i >= 0
        invariant -1 <= i < k && Valid() && coeff == old(coeff) && size == old(size) && Uniform(v, w)
        invariant solved ==> |src| == k && Uniform(src, w) && UnitDiagonal(coeff) && Pending(src, w, i + 1)
      {
        ClearAbove(i, src, w, solved);
        i := i - 1;
      }
      if solved {
        assert forall r :: 0 <= r < k ==> v[r] == src[r];
      }
    }

    /**
     * Back substitution has reached column n: every block before n still
     * stands for its row cut at n, every block from n on is its source block.
     */
    ghost predicate Pending(src: seq<seq<byte>>, w: nat, n: nat)
      reads this
    {
      Valid() && |src| == codec.sourceBlocks && Uniform(src, w) && n <= codec.sourceBlocks && |v| == |src|
      && (forall r :: 0 <= r < n ==> v[r] == RowValue(src, coeff[r], n, w))
      && (forall r :: n <= r < |src| ==> v[r] == src[r])
    }

    /** One column of back substitution. */
    method ClearAbove(i: nat, ghost src: seq<seq<byte>>, ghost w: nat, ghost solved: bool)
      requires Valid() && size == codec.sourceBlocks && i < codec.sourceBlocks && Uniform(v, w)
      requires Upper(coeff, codec.sourceBlocks)
      requires solved ==> UnitDiagonal(coeff) && Pending(src, w, i + 1)
      modifies this
      ensures Valid() && coeff == old(coeff) && size == old(size) && Uniform(v, w)
      ensures solved ==> Pending(src, w, i)
    {
      ghost var v0 := v;
      if solved {
        RowValueLed(src, coeff[i], i, w);
      }
      var j := i as int - 1;
      while j >= 0
        invariant -1 <= j < i && Valid() && coeff == old(coeff) && size == old(size) && Uniform(v, w) && |v| == |v0|
        invariant forall r :: 0 <= r <= j || i <= r < |v| ==> v[r] == v0[r]
        invariant solved ==> forall r :: j < r < i ==> v[r] == RowValue(src, coeff[r], i, w)
      {
        ClearOne(j, i, src, w, solved);
        j := j - 1;
      }
    }

    /** One step of that column: block i added into block j when row j has column i set. */
    method ClearOne(j: nat, i: nat, ghost src: seq<seq<byte>>, ghost w: nat, ghost solved: bool)
      requires Valid() && j < i < codec.sourceBlocks && Uniform(v, w)
      requires solved ==> i < |src| && Uniform(src, w) && v[j] == RowValue(src, coeff[j], i + 1, w) && v[i] == src[i]
      modifies this
      ensures Valid() && coeff == old(coeff) && size == old(size) && Uniform(v, w) && |v| == |old(v)|
      ensures forall r :: 0 <= r < |v| && r != j ==> v[r] == old(v)[r]
      ensures v[j] == if coeff[j][i] != 0 then Xor(old(v)[j], old(v)[i]) else old(v)[j]
      ensures solved ==> v[j] == RowValue(src, coeff[j], i, w)
    {
      if solved {
        BackStep(src, coeff[j], i, w);
      }
      if coeff[j][i] != 0 {
        AddBlockInto(j, i);
      }
    }

    /** xorBlocks(v[j], v[i], v[j].length): block i added into block j. */
    method AddBlockInto(j: nat, i: nat)
      requires j < |v| && i < |v| && |v[j]| == |v[i]|
      modifies this
      ensures v == old(v)[j := Xor(old(v)[j], old(v)[i])]
      ensures coeff == old(coeff) && size == old(size)
    {
      assert v[i][..|v[j]|] == v[i];
      XorPrefixFull(v[j], v[i]);
      v := v[j := Blocks.XorPrefix(v[j], v[i][..|v[j]|])];
    }
  }

  /** The copy loop of Decode_Luby: block i at offset i · w of a zeroed buffer of the message length. */
  method CopyOut(v: seq<seq<byte>>, ghost w: nat, messageLength: nat) returns (message: seq<byte>)
    requires Uniform(v, w) && Blocks.Total(|v|, w) <= messageLength
    ensures message == Flatten(v) + Zeros(messageLength - Blocks.Total(|v|, w))
  {
    message := Zeros(messageLength);
    for i := 0 to |v|
      invariant Blocks.Total(i, w) <= messageLength
      invariant message == Flatten(v[..i]) + Zeros(messageLength - Blocks.Total(i, w))
    {
      var offset := i * |v[i]|;
      CopyInto(v, i, w, messageLength);
      message := message[..offset] + v[i] + message[offset + |v[i]|..];
    }
    assert v[..|v|] == v;
  }

  lemma {:induction false} TotalMonotone(i: nat, n: nat, w: nat)
    requires i <= n
    ensures Blocks.Total(i, w) <= Blocks.Total(n, w)
    decreases n - i
  {
    if i < n {
      TotalMonotone(i + 1, n, w);
    }
  }

  /** One round of the copy loop: block i lands right after blocks 0..i-1, on zeros. */
  lemma CopyInto(v: seq<seq<byte>>, i: nat, w: nat, len: nat)
    requires i < |v| && Uniform(v, w) && Blocks.Total(|v|, w) <= len
    ensures i * |v[i]| == |Flatten(v[..i])| && Blocks.Total(i + 1, w) <= len
    ensures var m := Flatten(v[..i]) + Zeros(len - Blocks.Total(i, w));
      m[..i * |v[i]|] + v[i] + m[i * |v[i]| + |v[i]|..] == Flatten(v[..i + 1]) + Zeros(len - Blocks.Total(i + 1, w))
  {
    FlattenLength(v[..i], w);
    Blocks.TotalProduct(i, w);
    TotalMonotone(i + 1, |v|, w);
    assert v[..i + 1][..i] == v[..i];
    assert Flatten(v[..i + 1]) == Flatten(v[..i]) + v[i];
    CopyStep(Flatten(v[..i]), v[i], len - Blocks.Total(i, w));
  }

  /** Writing b just after f into f followed by zeros: f, then b, then the zeros b did not cover. */
  lemma CopyStep(f: seq<byte>, b: seq<byte>, n: nat)
    requires |b| <= n
    ensures (f + Zeros(n))[..|f|] + b + (f + Zeros(n))[|f| + |b|..] == f + b + Zeros(n - |b|)
  {
    assert (f + Zeros(n))[..|f|] == f;
    assert (f + Zeros(n))[|f| + |b|..] == Zeros(n - |b|);
  }
}
