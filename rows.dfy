/**
 * Rows of the sparse GF(2) equation matrix (block.c, src/block.c): a row is a
 * strictly increasing list of source-block indices, and stands for the XOR of
 * the source blocks it names. Adding two rows over GF(2) is the symmetric
 * difference of their index sets, which xorRow computes by merging.
 */
module Rows {
  import opened Bytes

  predicate Increasing(s: seq<int>)
  {
    forall a, b :: 0 <= a < b < |s| ==> s[a] < s[b]
  }

  /** Every index names one of n source blocks. */
  predicate Within(s: seq<int>, n: int)
  {
    forall k :: 0 <= k < |s| ==> 0 <= s[k] < n
  }

  /** Reference definition of the merge: the symmetric difference of two increasing rows, in order. */
  function SymDiff(a: seq<int>, b: seq<int>): seq<int>
    decreases |a| + |b|
  {
    if a == [] then b
    else if b == [] then a
    else if a[0] == b[0] then SymDiff(a[1..], b[1..])
    else if a[0] < b[0] then [a[0]] + SymDiff(a[1..], b)
    else [b[0]] + SymDiff(a, b[1..])
  }

  /** One step of the merge on two non-empty lists. */
  lemma SymDiffCons(a: seq<int>, b: seq<int>)
    requires a != [] && b != []
    ensures SymDiff(a, b) == if a[0] == b[0] then SymDiff(a[1..], b[1..])
      else if a[0] < b[0] then [a[0]] + SymDiff(a[1..], b)
      else [b[0]] + SymDiff(a, b[1..])
  {
  }

  /** The merge of two increasing rows is increasing and holds exactly the indices in one row but not the other. */
  lemma {:induction false} SymDiffSorted(a: seq<int>, b: seq<int>)
    requires Increasing(a) && Increasing(b)
    ensures Increasing(SymDiff(a, b))
    ensures forall x :: x in SymDiff(a, b) <==> (x in a) != (x in b)
    decreases |a| + |b|
  {
    if a != [] && b != [] {
      assert a == [a[0]] + a[1..];
      assert b == [b[0]] + b[1..];
      if a[0] == b[0] {
        SymDiffSorted(a[1..], b[1..]);
      } else if a[0] < b[0] {
        SymDiffSorted(a[1..], b);
        AboveHead(a[0], SymDiff(a[1..], b), a[1..], b);
      } else {
        SymDiffSorted(a, b[1..]);
        AboveHead(b[0], SymDiff(a, b[1..]), b[1..], a);
      }
    }
  }

  /** x followed by an increasing r whose entries come from a row after x or a row starting above x: still increasing. */
  lemma AboveHead(x: int, r: seq<int>, a: seq<int>, b: seq<int>)
    requires Increasing([x] + a) && Increasing(b) && (b != [] ==> b[0] > x)
    requires Increasing(r) && forall y :: y in r ==> y in a || y in b
    ensures Increasing([x] + r)
  {
    forall k | 0 <= k < |r|
      ensures r[k] > x
    {
      assert r[k] in r;
      if r[k] in a {
        var j :| 0 <= j < |a| && a[j] == r[k];
        assert ([x] + a)[0] == x && ([x] + a)[j + 1] == a[j];
      } else {
        assert r[k] in b;
        var j :| 0 <= j < |b| && b[j] == r[k];
        assert b[0] <= b[j];
      }
    }
    forall p, q | 0 <= p < q < |[x] + r|
      ensures ([x] + r)[p] < ([x] + r)[q]
    {
      if p > 0 {
        assert ([x] + r)[p] == r[p - 1];
      }
      assert ([x] + r)[q] == r[q - 1];
    }
  }

  /** The merge never produces more entries than both rows together. */
  lemma {:induction false} SymDiffLength(a: seq<int>, b: seq<int>)
    ensures |SymDiff(a, b)| <= |a| + |b|
    decreases |a| + |b|
  {
    if a != [] && b != [] {
      if a[0] == b[0] {
        SymDiffLength(a[1..], b[1..]);
      } else if a[0] < b[0] {
        SymDiffLength(a[1..], b);
      } else {
        SymDiffLength(a, b[1..]);
      }
    }
  }

  /** The indices two rows have in common. */
  function Shared(a: seq<int>, b: seq<int>): set<int>
  {
    set x | x in a && x in b
  }

  /** An increasing row is its head, which is below all of the rest, then the rest. */
  lemma HeadBelow(a: seq<int>)
    requires Increasing(a) && a != []
    ensures forall x :: x in a <==> x == a[0] || x in a[1..]
    ensures forall x :: x in a[1..] ==> x > a[0]
  {
    assert a == [a[0]] + a[1..];
    forall x | x in a[1..]
      ensures x > a[0]
    {
      var k :| 0 <= k < |a[1..]| && a[1..][k] == x;
      assert a[k + 1] == x;
    }
  }

  /** Rows led by the same index share it and what their tails share. */
  lemma SharedSameHead(a: seq<int>, b: seq<int>)
    requires Increasing(a) && Increasing(b) && a != [] && b != [] && a[0] == b[0]
    ensures |Shared(a, b)| == |Shared(a[1..], b[1..])| + 1
  {
    HeadBelow(a);
    HeadBelow(b);
    assert Shared(a, b) == Shared(a[1..], b[1..]) + {a[0]};
    assert a[0] !in Shared(a[1..], b[1..]);
  }

  /** A head below every index of the other row is shared with nothing. */
  lemma SharedLowHead(a: seq<int>, b: seq<int>)
    requires Increasing(a) && Increasing(b) && a != [] && b != [] && a[0] < b[0]
    ensures Shared(a, b) == Shared(a[1..], b)
  {
    HeadBelow(a);
    HeadBelow(b);
  }

  /**
   * The exact length of the merge of two increasing rows: each common index
   * cancels out of both, every other index is kept once.
   */
  lemma {:induction false} SymDiffExactLength(a: seq<int>, b: seq<int>)
    requires Increasing(a) && Increasing(b)
    ensures |SymDiff(a, b)| + 2 * |Shared(a, b)| == |a| + |b|
    decreases |a| + |b|
  {
    if a == [] || b == [] {
      assert Shared(a, b) == {};
    } else if a[0] == b[0] {
      SymDiffExactLength(a[1..], b[1..]);
      SharedSameHead(a, b);
    } else if a[0] < b[0] {
      SymDiffExactLength(a[1..], b);
      SharedLowHead(a, b);
    } else {
      SymDiffExactLength(a, b[1..]);
      SharedLowHead(b, a);
      assert Shared(a, b) == Shared(b, a) && Shared(a, b[1..]) == Shared(b[1..], a);
    }
  }

  /**
   * xorRow's output buffer holds |indices| + 100 entries: the merge of a
   * stored row `coeffs` into `indices` fits it exactly when the stored row
   * has at most 100 entries more than twice those the two rows share.
   */
  lemma MergeFits(coeffs: seq<int>, indices: seq<int>)
    requires Increasing(coeffs) && Increasing(indices)
    ensures |SymDiff(coeffs, indices)| <= |indices| + 100 <==> |coeffs| <= 100 + 2 * |Shared(coeffs, indices)|
  {
    SymDiffExactLength(coeffs, indices);
  }

  /** The merge of two rows over n sources stays over n sources. */
  lemma SymDiffWithin(a: seq<int>, b: seq<int>, n: int)
    requires Increasing(a) && Increasing(b) && Within(a, n) && Within(b, n)
    ensures Within(SymDiff(a, b), n)
  {
    SymDiffSorted(a, b);
    forall k | 0 <= k < |SymDiff(a, b)|
      ensures 0 <= SymDiff(a, b)[k] < n
    {
      var x := SymDiff(a, b)[k];
      assert x in a || x in b;
    }
  }

  /** Two rows led by the same index s: their sum drops s, so what is left starts above s. */
  lemma SymDiffHead(a: seq<int>, b: seq<int>, s: int)
    requires Increasing(a) && Increasing(b) && a != [] && b != [] && a[0] == s && b[0] == s
    ensures SymDiff(a, b) == [] || SymDiff(a, b)[0] > s
  {
    SymDiffSorted(a, b);
    var r := SymDiff(a, b);
    if r != [] {
      var x := r[0];
      assert x in a || x in b;
      assert x != s;
      if x in a {
        var k :| 0 <= k < |a| && a[k] == x;
        assert k > 0;
      } else {
        var k :| 0 <= k < |b| && b[k] == x;
        assert k > 0;
      }
    }
  }

  // ---------------------------------------------------------------------
  // What a row stands for

  /** Every source block is w bytes long. */
  predicate Uniform(src: seq<seq<byte>>, w: nat)
  {
    forall i :: 0 <= i < |src| ==> |src[i]| == w
  }

  /** The XOR of the source blocks a row names (w zero bytes for the empty row). */
  function XorAll(src: seq<seq<byte>>, row: seq<int>, w: nat): (c: seq<byte>)
    requires Uniform(src, w) && Within(row, |src|)
    ensures |c| == w
  {
    if row == [] then Zeros(w) else Xor(src[row[0]], XorAll(src, row[1..], w))
  }

  /** A row of one index stands for that source block. */
  lemma XorAllSingle(src: seq<seq<byte>>, i: int, w: nat)
    requires Uniform(src, w) && 0 <= i < |src|
    ensures XorAll(src, [i], w) == src[i]
  {
    assert [i][1..] == [];
    XorZeros(src[i]);
  }

  /** Appending an index XORs its source block in. */
  lemma {:induction false} XorAllAppend(src: seq<seq<byte>>, row: seq<int>, i: int, w: nat)
    requires Uniform(src, w) && Within(row, |src|) && 0 <= i < |src|
    ensures XorAll(src, row + [i], w) == Xor(XorAll(src, row, w), src[i])
  {
    if row == [] {
      assert [] + [i] == [i];
      XorAllSingle(src, i, w);
      XorZeros(src[i]);
    } else {
      assert (row + [i])[1..] == row[1..] + [i];
      XorAllAppend(src, row[1..], i, w);
      XorAssoc(src[row[0]], XorAll(src, row[1..], w), src[i]);
    }
  }

  /** (x ⊕ a) ⊕ (x ⊕ b) = a ⊕ b. */
  lemma XorDropCommon(x: seq<byte>, a: seq<byte>, b: seq<byte>)
    requires |x| == |a| == |b|
    ensures Xor(Xor(x, a), Xor(x, b)) == Xor(a, b)
  {
    assert forall k :: 0 <= k < |x| ==> Xor(Xor(x, a), Xor(x, b))[k] == Xor(a, b)[k];
  }

  /** a ⊕ (x ⊕ b) = x ⊕ (a ⊕ b). */
  lemma XorSwapIn(x: seq<byte>, a: seq<byte>, b: seq<byte>)
    requires |x| == |a| == |b|
    ensures Xor(a, Xor(x, b)) == Xor(x, Xor(a, b))
  {
    assert forall k :: 0 <= k < |x| ==> Xor(a, Xor(x, b))[k] == Xor(x, Xor(a, b))[k];
  }

  /** The merged row stands for the XOR of what the two rows stand for: xorRow keeps rows and values in step. */
  lemma {:induction false} SymDiffXor(src: seq<seq<byte>>, a: seq<int>, b: seq<int>, w: nat)
    requires Uniform(src, w) && Increasing(a) && Increasing(b) && Within(a, |src|) && Within(b, |src|)
    ensures Within(SymDiff(a, b), |src|)
    ensures XorAll(src, SymDiff(a, b), w) == Xor(XorAll(src, a, w), XorAll(src, b, w))
    decreases |a| + |b|
  {
    SymDiffWithin(a, b, |src|);
    if a == [] {
      XorZeros(XorAll(src, b, w));
    } else if b == [] {
      XorZeros(XorAll(src, a, w));
    } else if a[0] == b[0] {
      SymDiffXor(src, a[1..], b[1..], w);
      XorDropCommon(src[a[0]], XorAll(src, a[1..], w), XorAll(src, b[1..], w));
    } else if a[0] < b[0] {
      SymDiffXor(src, a[1..], b, w);
      XorAssoc(src[a[0]], XorAll(src, a[1..], w), XorAll(src, b, w));
    } else {
      SymDiffXor(src, a, b[1..], w);
      XorSwapIn(src[b[0]], XorAll(src, a, w), XorAll(src, b[1..], w));
    }
  }

  // ---------------------------------------------------------------------
  // Back-substitution bookkeeping

  /** The entries of a row below n. */
  function Upto(row: seq<int>, n: int): (r: seq<int>)
    ensures forall k :: 0 <= k < |r| ==> r[k] in row && r[k] < n
  {
    if row == [] then [] else (if row[0] < n then [row[0]] else []) + Upto(row[1..], n)
  }

  lemma {:induction false} UptoAll(row: seq<int>, n: int)
    requires forall k :: 0 <= k < |row| ==> row[k] < n
    ensures Upto(row, n) == row
  {
    if row != [] {
      UptoAll(row[1..], n);
    }
  }

  lemma {:induction false} UptoNone(row: seq<int>, n: int)
    requires forall k :: 0 <= k < |row| ==> row[k] >= n
    ensures Upto(row, n) == []
  {
    if row != [] {
      UptoNone(row[1..], n);
    }
  }

  /** Raising the bound past i adds i at the end exactly when the row holds i. */
  lemma {:induction false} UptoStep(row: seq<int>, i: int)
    requires Increasing(row)
    ensures Upto(row, i + 1) == if i in row then Upto(row, i) + [i] else Upto(row, i)
  {
    if row != [] {
      assert row == [row[0]] + row[1..];
      if row[0] < i {
        UptoStep(row[1..], i);
      } else if row[0] == i {
        UptoNone(row[1..], i + 1);
        UptoNone(row, i);
      } else {
        UptoNone(row, i + 1);
        UptoNone(row, i);
      }
    }
  }

  lemma {:induction false} UptoWithin(row: seq<int>, n: int, m: int)
    requires Within(row, m)
    ensures Within(Upto(row, n), m)
  {
  }
}
