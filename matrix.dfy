/**
 * The sparse GF(2) equation matrix of the decoders (block.c, src/block.c).
 * Slot s of `coeff` is empty (a NULL row) or holds an increasing row of
 * source-block indices led by s, and `v[s]` is the block that row adds up
 * to. Equations are inserted by Gaussian elimination on their leading index,
 * back-substituted from the highest slot down, and the solved blocks are
 * concatenated into the message.
 */
module Matrix {
  import opened Wrappers
  import opened Bytes
  import opened Blocks = Block
  import opened Rows
  import Util

  /** A row over n sources: increasing indices below n. */
  predicate Row(comps: seq<int>, n: int)
  {
    Increasing(comps) && Within(comps, n)
  }

  /** The shape addEquation keeps: every stored row is led by its slot, and every block is valid. */
  predicate Table(coeff: seq<Option<seq<int>>>, v: seq<Block>)
  {
    |coeff| == |v|
    && (forall s :: 0 <= s < |coeff| && coeff[s].Some? ==>
          coeff[s].value != [] && coeff[s].value[0] == s && Row(coeff[s].value, |coeff|))
    && forall s :: 0 <= s < |v| ==> Valid(v[s])
  }

  /** The sources are w bytes each and every stored equation holds of them. */
  ghost predicate Consistent(coeff: seq<Option<seq<int>>>, v: seq<Block>, src: seq<seq<byte>>, w: nat)
  {
    Table(coeff, v) && |src| == |coeff| && Uniform(src, w)
    && forall s :: 0 <= s < |coeff| && coeff[s].Some? ==>
         BlockLength(v[s]) == w && Content(v[s]) == XorAll(src, coeff[s].value, w)
  }

  /** The termination measure of addEquation, second part: 1 while a swap is due. */
  function SwapDue(coeff: seq<Option<seq<int>>>, comps: seq<int>): nat
    requires comps != [] ==> 0 <= comps[0] < |coeff|
  {
    if comps != [] && coeff[comps[0]].Some? && |comps| < |coeff[comps[0]].value| then 1 else 0
  }

  /** The termination measure of addEquation, first part: how far the leading index is from the end. */
  function Lead(n: int, comps: seq<int>): int
  {
    if comps == [] then 0 else n - comps[0]
  }

  /**
   * Reference definition of addEquation. While the row's leading slot is
   * taken, either the stored row is added into it (when the new row is at
   * least as long) or the two rows change places and the displaced one goes
   * on; a row that reduces to nothing is dropped.
   */
  function Insert(coeff: seq<Option<seq<int>>>, v: seq<Block>, comps: seq<int>, b: Block): (r: (seq<Option<seq<int>>>, seq<Block>))
    requires Table(coeff, v) && Row(comps, |coeff|) && Valid(b)
    ensures Table(r.0, r.1) && |r.0| == |coeff|
    decreases Lead(|coeff|, comps), SwapDue(coeff, comps)
  {
    if comps == [] then (coeff, v)
    else
      var s := comps[0];
      match coeff[s]
      case None => (coeff[s := Some(comps)], v[s := b])
      case Some(row) =>
        if |comps| >= |row| then
          SymDiffHead(row, comps, s);
          SymDiffWithin(row, comps, |coeff|);
          SymDiffSorted(row, comps);
          Insert(coeff, v, SymDiff(row, comps), Xored(b, v[s]))
        else
          Insert(coeff[s := Some(comps)], v[s := b], row, v[s])
  }

  /** A slot that holds a row keeps holding one: the matrix only fills up. */
  lemma {:induction false} InsertKeepsRows(coeff: seq<Option<seq<int>>>, v: seq<Block>, comps: seq<int>, b: Block)
    requires Table(coeff, v) && Row(comps, |coeff|) && Valid(b)
    ensures forall t :: 0 <= t < |coeff| && coeff[t].Some? ==> Insert(coeff, v, comps, b).0[t].Some?
    decreases Lead(|coeff|, comps), SwapDue(coeff, comps)
  {
    if comps != [] {
      var s := comps[0];
      if coeff[s].Some? {
        var row := coeff[s].value;
        SymDiffHead(row, comps, s);
        SymDiffWithin(row, comps, |coeff|);
        SymDiffSorted(row, comps);
        if |comps| >= |row| {
          InsertKeepsRows(coeff, v, SymDiff(row, comps), Xored(b, v[s]));
        } else {
          InsertKeepsRows(coeff[s := Some(comps)], v[s := b], row, v[s]);
        }
      }
    }
  }

  /**
   * Every swap and every row addition moves rows and blocks together, so
   * inserting an equation that holds of the sources keeps every stored
   * equation true of them.
   */
  lemma {:induction false} InsertConsistent(coeff: seq<Option<seq<int>>>, v: seq<Block>, comps: seq<int>, b: Block, src: seq<seq<byte>>, w: nat)
    requires Consistent(coeff, v, src, w) && Row(comps, |coeff|) && Valid(b)
    requires BlockLength(b) == w && Content(b) == XorAll(src, comps, w)
    ensures Consistent(Insert(coeff, v, comps, b).0, Insert(coeff, v, comps, b).1, src, w)
    decreases Lead(|coeff|, comps), SwapDue(coeff, comps)
  {
    if comps != [] {
      var s := comps[0];
      if coeff[s].Some? {
        var row := coeff[s].value;
        SymDiffHead(row, comps, s);
        SymDiffSorted(row, comps);
        if |comps| >= |row| {
          SymDiffXor(src, row, comps, w);
          XoredContent(b, v[s]);
          XorComm(Content(b), Content(v[s]));
          InsertConsistent(coeff, v, SymDiff(row, comps), Xored(b, v[s]), src, w);
        } else {
          InsertConsistent(coeff[s := Some(comps)], v[s := b], row, v[s], src, w);
        }
      }
    }
  }

  /** sizeof(int*) / sizeof(int) on a 64-bit target: the row length block.c's addEquation tests against. */
  const SizeofRatio: nat := 2

  /**
   * addEquation as block.c writes it, with `fuel` bounding the loop: the
   * stored row's length is taken to be sizeof(int*)/sizeof(int), which is 2
   * on a 64-bit target, and the swap branch does not update the component
   * count. None: the loop had not finished when the fuel ran out.
   */
  function InsertAsWritten(coeff: seq<Option<seq<int>>>, v: seq<Block>, comps: seq<int>, n: int, b: Block, fuel: nat): (r: Option<(seq<Option<seq<int>>>, seq<Block>)>)
    requires Table(coeff, v) && Row(comps, |coeff|) && Valid(b) && n <= |comps|
    ensures r.Some? ==> |r.value.0| == |coeff|
    decreases fuel
  {
    if n <= 0 || coeff[comps[0]].None? then
      Some(if n > 0 then (coeff[comps[0] := Some(comps)], v[comps[0] := b]) else (coeff, v))
    else if fuel == 0 then None
    else
      var s := comps[0];
      var row := coeff[s].value;
      if n >= SizeofRatio then
        SymDiffWithin(row, comps[..n], |coeff|);
        SymDiffSorted(row, comps[..n]);
        var merged := SymDiff(row, comps[..n]);
        InsertAsWritten(coeff, v, merged, |merged|, Xored(b, v[s]), fuel - 1)
      else
        InsertAsWritten(coeff[s := Some(comps)], v[s := b], row, n, v[s], fuel - 1)
  }

  /**
   * A one-component row whose slot is already taken: as written, the two rows
   * change places forever, so addEquation never returns, however much fuel it
   * is given.
   */
  lemma {:induction false} InsertAsWrittenLoops(coeff: seq<Option<seq<int>>>, v: seq<Block>, comps: seq<int>, b: Block, fuel: nat)
    requires Table(coeff, v) && Row(comps, |coeff|) && Valid(b)
    requires comps != [] && coeff[comps[0]].Some?
    ensures InsertAsWritten(coeff, v, comps, 1, b, fuel) == None
    decreases fuel
  {
    if fuel > 0 {
      var s := comps[0];
      var row := coeff[s].value;
      InsertAsWrittenLoops(coeff[s := Some(comps)], v[s := b], row, v[s], fuel - 1);
    }
  }

  /** Insertion only touches slots from the new row's lead on: every slot below it keeps its row and its block. */
  lemma {:induction false} InsertBelowLead(coeff: seq<Option<seq<int>>>, v: seq<Block>, comps: seq<int>, b: Block)
    requires Table(coeff, v) && Row(comps, |coeff|) && Valid(b)
    ensures forall t :: 0 <= t < |coeff| && (comps == [] || t < comps[0]) ==>
      Insert(coeff, v, comps, b).0[t] == coeff[t] && Insert(coeff, v, comps, b).1[t] == v[t]
    decreases Lead(|coeff|, comps), SwapDue(coeff, comps)
  {
    if comps != [] {
      var s := comps[0];
      if coeff[s].Some? {
        var row := coeff[s].value;
        SymDiffHead(row, comps, s);
        SymDiffWithin(row, comps, |coeff|);
        SymDiffSorted(row, comps);
        if |comps| >= |row| {
          InsertBelowLead(coeff, v, SymDiff(row, comps), Xored(b, v[s]));
        } else {
          InsertBelowLead(coeff[s := Some(comps)], v[s := b], row, v[s]);
        }
      }
    }
  }

  /**
   * The corrected addEquation on a one-component row [s] whose slot is taken:
   * when the slot already holds [s] the equation is dropped and nothing
   * changes; otherwise the slot ends holding [s] with its block b, the count
   * travelling with the row.
   */
  lemma InsertSingleton(coeff: seq<Option<seq<int>>>, v: seq<Block>, s: int, b: Block)
    requires Table(coeff, v) && 0 <= s < |coeff| && coeff[s].Some? && Valid(b)
    ensures coeff[s].value == [s] ==> Insert(coeff, v, [s], b) == (coeff, v)
    ensures coeff[s].value != [s] ==> Insert(coeff, v, [s], b).0[s] == Some([s]) && Insert(coeff, v, [s], b).1[s] == b
  {
    var row := coeff[s].value;
    if row == [s] {
      assert SymDiff(row, [s]) == SymDiff([], []) == [];
    } else {
      assert |row| > 1;
      var coeff', v' := coeff[s := Some([s])], v[s := b];
      SymDiffHead([s], row, s);
      SymDiffWithin([s], row, |coeff|);
      SymDiffSorted([s], row);
      InsertBelowLead(coeff', v', SymDiff([s], row), Xored(v[s], b));
    }
  }

  // ---------------------------------------------------------------------
  // Back-substitution

  /** The rows as matrixReduce reads them, with every slot filled. */
  predicate Full(coeff: seq<Option<seq<int>>>)
  {
    forall i :: 0 <= i < |coeff| ==> coeff[i].Some?
  }

  /**
   * What block.c's matrixReduce does to the blocks, on rows `coeff` that are
   * all present: rows i = top, top - 1, …, 0 in turn are added into every
   * lower row j whose second entry (cj[1], the only k below
   * sizeof(int*)/sizeof(int)) is i's leading index.
   */
  function ReduceAsWritten(coeff: seq<seq<int>>, v: seq<Block>, top: int): (r: seq<Block>)
    requires |coeff| == |v| && top < |coeff|
    requires forall i :: 0 <= i < |coeff| ==> coeff[i] != [] && Valid(v[i])
    ensures |r| == |v| && forall i :: 0 <= i < |r| ==> Valid(r[i])
    decreases top + 1
  {
    if top < 0 then v else ReduceAsWritten(coeff, ClearAsWritten(coeff, v, top, 0), top - 1)
  }

  /** One pass of the inner loop of matrixReduce as written, for rows j, …, i - 1. */
  function ClearAsWritten(coeff: seq<seq<int>>, v: seq<Block>, i: int, j: int): (r: seq<Block>)
    requires |coeff| == |v| && 0 <= i < |coeff| && 0 <= j
    requires forall k :: 0 <= k < |coeff| ==> coeff[k] != [] && Valid(v[k])
    ensures |r| == |v| && forall k :: 0 <= k < |r| ==> Valid(r[k])
    decreases i - j
  {
    if j >= i then v
    else
      var cj := coeff[j];
      var v' := if |cj| > 1 && cj[1] == coeff[i][0] then v[j := Xored(v[j], v[i])] else v;
      ClearAsWritten(coeff, v', i, j + 1)
  }

  /** Three one-byte sources 1, 2 and 4. */
  function Sources(): seq<seq<byte>> { [[1], [2], [4]] }

  /**
   * Rows [0, 1, 2], [1] and [2] with blocks 1⊕2⊕4, 2 and 4: every equation
   * holds and every slot is led by its index, yet as written the reduced
   * first block is 1⊕4 = 5 instead of source block 0, because row 0's
   * entry 2 sits at k = 2 and is never looked at.
   */
  lemma ReduceAsWrittenExample()
    ensures Consistent(ExampleTable(), ExampleBlocks(), Sources(), 1)
    ensures forall i :: 0 <= i < 3 ==> ExampleTable()[i] == Some(ExampleRows()[i])
    ensures Content(ReduceAsWritten(ExampleRows(), ExampleBlocks(), 2)[0]) != Sources()[0]
  {
    ExampleConsistent();
    ExampleTableRows();
    ExampleReduce();
    FiveNotOne();
  }

  /** The table holds each example row in its own slot. */
  lemma ExampleTableRows()
    ensures forall i :: 0 <= i < 3 ==> ExampleTable()[i] == Some(ExampleRows()[i])
  {
    forall i | 0 <= i < 3
      ensures ExampleTable()[i] == Some(ExampleRows()[i])
    {
      if i == 0 {
      } else if i == 1 {
      } else {
      }
    }
  }

  /** The one-byte block 5 does not hold source block 0. */
  lemma FiveNotOne()
    ensures Content(Block([5], 1, 0)) != Sources()[0]
  {
    var c := Content(Block([5], 1, 0));
    assert c[..1] == [5];
    assert c[0] == 5 && Sources()[0][0] == 1;
  }

  function ExampleRows(): seq<seq<int>> { [[0, 1, 2], [1], [2]] }
  function ExampleBlocks(): seq<Block> { [Block([7], 1, 0), Block([2], 1, 0), Block([4], 1, 0)] }

  lemma ExampleXored()
    ensures Xored(Block([7], 1, 0), Block([2], 1, 0)) == Block([5], 1, 0)
  {
  }

  function ExampleTable(): seq<Option<seq<int>>> { [Some([0, 1, 2]), Some([1]), Some([2])] }

  lemma ExampleConsistent()
    ensures Consistent(ExampleTable(), ExampleBlocks(), Sources(), 1)
  {
    var src, coeff, v := Sources(), ExampleTable(), ExampleBlocks();
    assert Row([0, 1, 2], 3);
    assert Row([1], 3) && Row([2], 3);
    assert Table(coeff, v);
    assert Uniform(src, 1);
    assert XorAll(src, [2], 1) == [4] by {
      XorAllSingle(src, 2, 1);
    }
    assert XorAll(src, [1], 1) == [2] by {
      XorAllSingle(src, 1, 1);
    }
    assert XorAll(src, [1, 2], 1) == [6] by {
      assert [1, 2][1..] == [2];
    }
    assert XorAll(src, [0, 1, 2], 1) == [7] by {
      assert [0, 1, 2][1..] == [1, 2];
    }
    forall s | 0 <= s < 3
      ensures BlockLength(v[s]) == 1 && Content(v[s]) == XorAll(src, coeff[s].value, 1)
    {
      if s == 0 {
        assert Content(v[0]) == [7];
      } else if s == 1 {
        assert Content(v[1]) == [2];
      } else {
        assert Content(v[2]) == [4];
      }
    }
  }

  lemma ExampleReduce()
    ensures ReduceAsWritten(ExampleRows(), ExampleBlocks(), 2)[0] == Block([5], 1, 0)
  {
    var rows, v := ExampleRows(), ExampleBlocks();
    assert ClearAsWritten(rows, v, 2, 0) == v by {
      assert ClearAsWritten(rows, v, 2, 1) == ClearAsWritten(rows, v, 2, 2);
    }
    ExampleXored();
    var v1 := v[0 := Block([5], 1, 0)];
    assert ClearAsWritten(rows, v, 1, 0) == v1;
    assert ClearAsWritten(rows, v1, 0, 0) == v1;
  }

  /** Indices matrixReduce has not yet eliminated from row r while working on column i: those up to i. */
  function Pending(orig: seq<Option<seq<int>>>, r: int, i: int): seq<int>
    requires 0 <= r < |orig| && orig[r].Some?
  {
    Upto(orig[r].value, i + 1)
  }

  /** A row led by i names no index below i. */
  lemma LedRow(row: seq<int>, i: int)
    requires row != [] && row[0] == i && Increasing(row)
    ensures Upto(row, i) == [] && Upto(row, i + 1) == [i]
  {
    forall k | 0 <= k < |row|
      ensures row[k] >= i
    {
      if k > 0 {
        assert row[0] < row[k];
      }
    }
    UptoNone(row, i);
    UptoStep(row, i);
    assert [] + [i] == [i];
  }

  /**
   * Slot r's block stands for the XOR of the sources its original row names
   * up to index i: what is left of the equation once every index above i
   * has been eliminated.
   */
  ghost predicate Stands(orig: seq<Option<seq<int>>>, src: seq<seq<byte>>, w: nat, r: int, i: int, b: Block)
  {
    0 <= r < |orig| && orig[r].Some? && Row(orig[r].value, |src|) && Uniform(src, w)
    && Valid(b) && BlockLength(b) == w
    && Within(Pending(orig, r, i), |src|) && Content(b) == XorAll(src, Pending(orig, r, i), w)
  }

  /** Before any elimination, every block stands for its whole row. */
  lemma StandsAtStart(coeff: seq<Option<seq<int>>>, v: seq<Block>, src: seq<seq<byte>>, w: nat)
    requires Consistent(coeff, v, src, w) && Full(coeff)
    ensures forall r :: 0 <= r < |coeff| ==> Stands(coeff, src, w, r, |coeff| - 1, v[r])
  {
    forall r | 0 <= r < |coeff|
      ensures Stands(coeff, src, w, r, |coeff| - 1, v[r])
    {
      UptoAll(coeff[r].value, |coeff|);
    }
  }

  /** Adding the solved block i to row j's block, when j names i, eliminates i from what j still stands for. */
  lemma Eliminate(orig: seq<Option<seq<int>>>, src: seq<seq<byte>>, w: nat, i: int, j: int, vj: Block, vi: Block, mentions: bool)
    requires Stands(orig, src, w, j, i, vj) && 0 <= i < |src|
    requires Valid(vi) && BlockLength(vi) == w && Content(vi) == src[i]
    requires mentions <==> i in orig[j].value
    ensures Stands(orig, src, w, j, i - 1, if mentions then Xored(vj, vi) else vj)
  {
    var row := orig[j].value;
    UptoStep(row, i);
    UptoWithin(row, i, |src|);
    if mentions {
      XoredContent(vj, vi);
      XorAllAppend(src, Upto(row, i), i, w);
      XorCancel(XorAll(src, Upto(row, i), w), src[i]);
    }
  }

  /** The row [i] that Reduce leaves in slot i is a well-formed row led by i. */
  lemma SolvedRow(i: int, n: int)
    requires 0 <= i < n
    ensures [i] != [] && [i][0] == i && Row([i], n)
  {
  }

  /** The rows while Reduce works on column i: those up to i as they were, those above i cut to [r]. */
  ghost function Partly(orig: seq<Option<seq<int>>>, i: int): (c: seq<Option<seq<int>>>)
    ensures |c| == |orig|
    ensures forall r :: 0 <= r < |c| ==> c[r] == if r <= i then orig[r] else Some([r])
  {
    seq(|orig|, r requires 0 <= r < |orig| => if r <= i then orig[r] else Some([r]))
  }

  /**
   * What holds while Reduce works on column i: rows up to i as they were,
   * rows above i cut to [r]; and, when the equations held of the sources at
   * the start, blocks up to i stand for what their rows still name up to
   * i, and blocks above i are source blocks.
   */
  ghost predicate Reducing(coeff: seq<Option<seq<int>>>, v: seq<Block>, orig: seq<Option<seq<int>>>, src: seq<seq<byte>>, w: nat, cons: bool, i: int)
  {
    Table(coeff, v) && |coeff| == |orig| && Full(orig) && -1 <= i < |coeff|
    && (cons ==> |src| == |coeff| && Uniform(src, w))
    && coeff == Partly(orig, i)
    && (cons ==> forall r {:trigger Stands(orig, src, w, r, i, v[r])} :: 0 <= r <= i ==> Stands(orig, src, w, r, i, v[r]))
    && (cons ==> forall r :: i < r < |coeff| ==> BlockLength(v[r]) == w && Content(v[r]) == src[r])
  }

  /** Before Reduce cuts any row, every row is as it was. */
  lemma PartlyAll(orig: seq<Option<seq<int>>>)
    ensures Partly(orig, |orig| - 1) == orig
  {
  }

  /** Cutting row i to [i] moves Reduce on to column i - 1. */
  lemma PartlyStep(orig: seq<Option<seq<int>>>, i: int)
    requires 0 <= i < |orig|
    ensures Partly(orig, i)[i := Some([i])] == Partly(orig, i - 1)
  {
    var c, d := Partly(orig, i)[i := Some([i])], Partly(orig, i - 1);
    assert forall r :: 0 <= r < |c| ==> c[r] == d[r];
  }

  /** A solved row [i] in slot i keeps the table's shape. */
  lemma TableSolve(coeff: seq<Option<seq<int>>>, v: seq<Block>, i: int)
    requires Table(coeff, v) && 0 <= i < |coeff|
    ensures Table(coeff[i := Some([i])], v)
  {
    SolvedRow(i, |coeff|);
  }

  /** Once i is the largest index left, a row led by i stands for source block i. */
  lemma Solved(orig: seq<Option<seq<int>>>, src: seq<seq<byte>>, w: nat, i: int, b: Block)
    requires Stands(orig, src, w, i, i, b) && orig[i].value != [] && orig[i].value[0] == i && i < |src|
    ensures Content(b) == src[i]
  {
    LedRow(orig[i].value, i);
    XorAllSingle(src, i, w);
  }

  /** Whether row cj names x anywhere after its leading entry: the k loop of matrixReduce, over the whole row. */
  method Mentions(cj: seq<int>, x: int) returns (m: bool)
    requires cj != []
    ensures m <==> x in cj[1..]
  {
    var k := 1;
    while k < |cj|
      invariant 1 <= k <= |cj|
      invariant forall t :: 1 <= t < k ==> cj[t] != x
    {
      if cj[k] == x {
        assert cj[1..][k - 1] == x;
        return true;
      }
      k := k + 1;
    }
    return false;
  }

  /** Slots lo .. hi - 1 exist and each buffer holds at least `len` bytes. */
  predicate Covers(v: seq<Block>, lo: int, hi: int, len: nat)
  {
    0 <= lo <= hi <= |v| && forall i :: lo <= i < hi ==> |v[i].data| >= len
  }

  /** The blocks of slots lo..hi - 1, each cut to its first `len` buffer bytes, in slot order. */
  function Laid(v: seq<Block>, lo: int, hi: int, len: nat): (out: seq<byte>)
    requires Covers(v, lo, hi, len)
    decreases hi - lo
  {
    if lo == hi then [] else Laid(v, lo, hi - 1, len) + v[hi - 1].data[..len]
  }

  /**
   * The merge loop of xorRow: walk both increasing lists with one cursor each,
   * copy the smaller entry, skip an entry present in both, then copy what is
   * left of either list.
   */
  method Merge(coeffs: seq<int>, indices: seq<int>) returns (newIndices: seq<int>)
    ensures newIndices == SymDiff(coeffs, indices)
  {
    newIndices := [];
    var i, j := 0, 0;
    while i < |coeffs| && j < |indices|
      invariant 0 <= i <= |coeffs| && 0 <= j <= |indices|
      invariant newIndices + SymDiff(coeffs[i..], indices[j..]) == SymDiff(coeffs, indices)
      decreases |coeffs| - i + |indices| - j
    {
      var index := indices[j];
      ghost var rest := SymDiff(coeffs[i..], indices[j..]);
      SymDiffCons(coeffs[i..], indices[j..]);
      assert coeffs[i..][1..] == coeffs[i + 1..];
      assert indices[j..][1..] == indices[j + 1..];
      if coeffs[i] == index {
        i, j := i + 1, j + 1;
      } else if coeffs[i] < index {
        ghost var tail := SymDiff(coeffs[i + 1..], indices[j..]);
        assert rest == [coeffs[i]] + tail;
        AppendOne(newIndices, coeffs[i], tail);
        newIndices := newIndices + [coeffs[i]];
        i := i + 1;
      } else {
        ghost var tail := SymDiff(coeffs[i..], indices[j + 1..]);
        assert rest == [index] + tail;
        AppendOne(newIndices, index, tail);
        newIndices := newIndices + [index];
        j := j + 1;
      }
    }
    if i == |coeffs| {
      assert coeffs[i..] == [];
    } else {
      assert indices[j..] == [];
    }
    newIndices := newIndices + coeffs[i..] + indices[j..];
  }

  /** Moving one entry from the front of the rest to the end of the output keeps the whole. */
  lemma AppendOne(out: seq<int>, x: int, tail: seq<int>)
    ensures (out + [x]) + tail == out + ([x] + tail)
  {
  }

  /** `data` begins with `piece`. */
  predicate Starts(piece: seq<byte>, data: seq<byte>)
  {
    piece <= data
  }

  /** Laying out blocks lo .. hi - 1 is block lo's bytes followed by the layout of the rest. */
  lemma {:induction false} LaidFront(v: seq<Block>, lo: nat, hi: nat, len: nat)
    requires lo < hi && Covers(v, lo, hi, len)
    ensures Laid(v, lo, hi, len) == v[lo].data[..len] + Laid(v, lo + 1, hi, len)
    decreases hi - lo
  {
    if lo + 1 < hi {
      LaidFront(v, lo, hi - 1, len);
    }
  }

  /** Laying out `count` blocks from slot lo up to slot hi, whose buffers begin with the blocks `cut` that Chop cuts from `input`, gives that many bytes of the input back. */
  lemma {:induction false} LaidChop(v: seq<Block>, lo: nat, hi: nat, count: nat, len: nat, input: seq<byte>, cut: seq<Block>)
    requires lo + count == hi <= |v| && Total(count, len) <= |input| && cut == Chop(input, count, len)
    requires forall k :: lo <= k < hi ==> Starts(cut[k - lo].data, v[k].data)
    ensures Covers(v, lo, hi, len)
    ensures Laid(v, lo, hi, len) == input[..Total(count, len)]
    decreases count
  {
    if count > 0 {
      ChopHead(input, count, len, cut);
      ShiftStarts(v, lo, hi, count, cut);
      LaidChop(v, lo + 1, hi, count - 1, len, input[len..], cut[1..]);
      StartsPrefix(cut[0].data, v[lo].data, len);
      JoinLaid(v, lo, hi, len, input, Total(count - 1, len));
    }
  }

  /** The slots after lo begin with the pieces after the first. */
  lemma ShiftStarts(v: seq<Block>, lo: nat, hi: nat, count: nat, cut: seq<Block>)
    requires 0 < count == |cut| && lo + count == hi <= |v|
    requires forall k :: lo <= k < hi ==> Starts(cut[k - lo].data, v[k].data)
    ensures forall k :: lo + 1 <= k < hi ==> Starts(cut[1..][k - (lo + 1)].data, v[k].data)
  {
    forall k | lo + 1 <= k < hi
      ensures Starts(cut[1..][k - (lo + 1)].data, v[k].data)
    {
      assert cut[1..][k - (lo + 1)] == cut[k - lo];
    }
  }

  /** Slot lo's first len bytes followed by the layout of the slots after it. */
  lemma JoinLaid(v: seq<Block>, lo: nat, hi: nat, len: nat, input: seq<byte>, t: nat)
    requires lo < hi && Covers(v, lo + 1, hi, len) && len + t <= |input|
    requires len <= |v[lo].data| && v[lo].data[..len] == input[..len]
    requires Laid(v, lo + 1, hi, len) == input[len..][..t]
    ensures Covers(v, lo, hi, len) && Laid(v, lo, hi, len) == input[..len + t]
  {
    LaidFront(v, lo, hi, len);
    PrefixSplit(input, len, t);
  }

  /** The first chopped block of an input long enough for all of them is its first len bytes, and the rest are chopped from what follows. */
  lemma ChopHead(input: seq<byte>, count: nat, len: nat, cut: seq<Block>)
    requires count > 0 && Total(count, len) <= |input| && cut == Chop(input, count, len)
    ensures Total(count, len) == len + Total(count - 1, len) && len <= |input|
    ensures cut[0].data == input[..len] && cut[1..] == Chop(input[len..], count - 1, len)
  {
    ChopStep(input, count, len);
  }

  /** A buffer that begins with a piece of len bytes has those bytes as its first len. */
  lemma StartsPrefix(piece: seq<byte>, data: seq<byte>, len: nat)
    requires Starts(piece, data) && |piece| == len
    ensures len <= |data| && data[..len] == piece
  {
  }

  /** The second run: numShort blocks of lenShort bytes from slot numLong lay out all of `rest`. */
  lemma LaidShortRun(v: seq<Block>, rest: seq<byte>, shorts: seq<Block>, numLong: nat, numShort: nat, lenShort: nat, p: nat)
    requires Total(numShort, lenShort) == |rest| && shorts == Chop(rest, numShort, lenShort)
    requires numLong + numShort == p <= |v|
    requires forall k :: numLong <= k < p ==> Starts(shorts[k - numLong].data, v[k].data)
    ensures Covers(v, numLong, p, lenShort)
    ensures Laid(v, numLong, p, lenShort) == rest
  {
    LaidChop(v, numLong, p, numShort, lenShort, rest, shorts);
    assert rest[..Total(numShort, lenShort)] == rest;
  }

  /** Slots whose buffers begin with two runs of chopped blocks, numLong of lenLong bytes and then numShort of lenShort bytes, lay out the whole input. */
  lemma LaidRuns(v: seq<Block>, input: seq<byte>, pieces: seq<Block>, p: nat, numLong: nat, lenLong: nat, numShort: nat, lenShort: nat)
    requires Total(numLong, lenLong) + Total(numShort, lenShort) == |input|
    requires |pieces| == p == numLong + numShort && p <= |v|
    requires pieces[..numLong] == Chop(input, numLong, lenLong)
    requires pieces[numLong..] == Chop(input[Total(numLong, lenLong)..], numShort, lenShort)
    requires forall k :: 0 <= k < p ==> Starts(pieces[k].data, v[k].data)
    ensures Covers(v, 0, numLong, lenLong) && Covers(v, numLong, p, lenShort)
    ensures Laid(v, 0, numLong, lenLong) + Laid(v, numLong, p, lenShort) == input
  {
    var long := Total(numLong, lenLong);
    var rest := input[long..];
    var longs := Chop(input, numLong, lenLong);
    var shorts := Chop(rest, numShort, lenShort);
    forall k | 0 <= k < numLong
      ensures Starts(longs[k].data, v[k].data)
    {
      assert longs[k] == pieces[..numLong][k];
    }
    forall k | numLong <= k < p
      ensures Starts(shorts[k - numLong].data, v[k].data)
    {
      assert shorts[k - numLong] == pieces[numLong..][k - numLong];
    }
    LaidChop(v, 0, numLong, numLong, lenLong, input, longs);
    LaidShortRun(v, rest, shorts, numLong, numShort, lenShort, p);
    JoinParts(input, long);
  }

  /** A prefix of `input` and the rest after it make up `input`. */
  lemma JoinParts(input: seq<byte>, long: nat)
    requires long <= |input|
    ensures input[..long] + input[long..] == input
  {
  }

  /**
   * Partition, then reconstruct: when slot k's buffer begins with piece k
   * of the partitioned message, laying out numLong long and numShort short
   * slots gives exactly the message back.
   */
  lemma ReconstructRoundTrip(v: seq<Block>, input: seq<byte>, p: nat)
    requires 1 <= p <= |v|
    requires forall k :: 0 <= k < p ==> Starts(Pieces(input, p)[k].data, v[k].data)
    ensures var parts := Util.Partition(|input|, p);
      Total(parts.numLong, parts.lenLong) + Total(parts.numShort, parts.lenShort) == |input|
      && Covers(v, 0, parts.numLong, parts.lenLong) && Covers(v, parts.numLong, p, parts.lenShort)
      && Laid(v, 0, parts.numLong, parts.lenLong) + Laid(v, parts.numLong, p, parts.lenShort) == input
  {
    var parts := Util.Partition(|input|, p);
    PiecesSplit(input, p);
    LaidRuns(v, input, Pieces(input, p), p, parts.numLong, parts.lenLong, parts.numShort, parts.lenShort);
  }

  /** The partitioned message's own pieces reconstruct it. */
  lemma PiecesRoundTrip(input: seq<byte>, p: nat)
    requires p >= 1
    ensures var parts := Util.Partition(|input|, p);
      var v := Pieces(input, p);
      Covers(v, 0, parts.numLong, parts.lenLong) && Covers(v, parts.numLong, p, parts.lenShort)
      && Laid(v, 0, parts.numLong, parts.lenLong) + Laid(v, parts.numLong, p, parts.lenShort) == input
  {
    ReconstructRoundTrip(Pieces(input, p), input, p);
  }

  /** A block that stands for bytes beginning with `piece`, and has at least |piece| meaningful bytes, holds `piece` at the front of its buffer. */
  lemma HoldsPiece(b: Block, piece: seq<byte>)
    requires Valid(b) && |piece| <= b.length && Starts(piece, Content(b))
    ensures Starts(piece, b.data)
  {
    assert piece == Content(b)[..|piece|] == b.data[..b.length][..|piece|];
  }

  /** No block is shorter, in meaningful bytes, than it was before. */
  predicate Kept(before: seq<Block>, after: seq<Block>)
  {
    |after| == |before| && forall r :: 0 <= r < |after| ==> after[r].length >= before[r].length
  }

  class SparseMatrix {
    var coeff: seq<Option<seq<int>>>
    var v: seq<Block>
    var numRows: nat

    ghost predicate Valid()
      reads this
    {
      Table(coeff, v) && numRows == |coeff|
    }

    /** A decoder's empty matrix: numRows slots, no rows yet. */
    constructor (numRows: nat)
      ensures Valid() && this.numRows == numRows
      ensures forall s :: 0 <= s < numRows ==> coeff[s].None?
    {
      coeff := seq(numRows, _ => None);
      v := seq(numRows, _ => NewBlock(0));
      this.numRows := numRows;
    }

    /**
     * xorRow(s, indices, b): add stored row s into a new row, merging the two
     * increasing index lists (entries in both cancel) and XOR-ing block s
     * into b.
     */
    method XorRow(s: int, indices: seq<int>, b: Block) returns (newIndices: seq<int>, nb: Block)
      requires Valid() && 0 <= s < numRows && coeff[s].Some? && Blocks.Valid(b)
      ensures newIndices == SymDiff(coeff[s].value, indices)
      ensures nb == Xored(b, v[s])
    {
      nb := BlockXor(b, v[s]);
      newIndices := Merge(coeff[s].value, indices);
    }

    /**
     * addEquation(components, b), with the row-length test on the stored
     * row and the component count kept with the row after a swap.
     */
    method AddEquation(components: seq<int>, b: Block)
      requires Valid() && Row(components, numRows) && Blocks.Valid(b)
      modifies this
      ensures Valid() && numRows == old(numRows)
      ensures (coeff, v) == Insert(old(coeff), old(v), components, b)
    {
      var comps, blk := components, b;
      while comps != [] && coeff[comps[0]].Some?
        invariant Valid() && numRows == old(numRows) && Row(comps, numRows) && Blocks.Valid(blk)
        invariant Insert(coeff, v, comps, blk) == Insert(old(coeff), old(v), components, b)
        decreases Lead(numRows, comps), SwapDue(coeff, comps)
      {
        var s := comps[0];
        var row := coeff[s].value;
        SymDiffHead(row, comps, s);
        SymDiffWithin(row, comps, numRows);
        SymDiffSorted(row, comps);
        if |comps| >= |row| {
          comps, blk := XorRow(s, comps, blk);
        } else {
          coeff, comps := coeff[s := Some(comps)], row;
          v, blk := v[s := blk], v[s];
        }
      }
      if comps != [] {
        coeff := coeff[comps[0] := Some(comps)];
        v := v[comps[0] := blk];
      }
    }

    /** determined / matrixDetermined: every slot holds a row led by its own index. */
    method Determined() returns (r: bool)
      requires Valid()
      ensures r <==> forall i :: 0 <= i < numRows ==> coeff[i].Some? && coeff[i].value[0] == i
    {
      var i := 0;
      while i < numRows
        invariant 0 <= i <= numRows
        invariant forall k :: 0 <= k < i ==> coeff[k].Some? && coeff[k].value[0] == k
      {
        if coeff[i].None? || coeff[i].value[0] != i {
          return false;
        }
        i := i + 1;
      }
      return true;
    }

    /**
     * Reduce / matrixReduce: for i from the last slot down, add block i into
     * every lower block whose row names i, then cut row i to [i]. Run on a
     * full matrix whose equations hold of the sources, it leaves source block
     * i in slot i.
     */
    method Reduce(ghost src: seq<seq<byte>>, ghost w: nat)
      requires Valid() && Full(coeff)
      modifies this
      ensures Valid() && numRows == old(numRows)
      ensures forall i :: 0 <= i < numRows ==> coeff[i] == Some([i])
      ensures Consistent(old(coeff), old(v), src, w) ==>
        forall i :: 0 <= i < numRows ==> BlockLength(v[i]) == w && Content(v[i]) == src[i]
      ensures Kept(old(v), v)
    {
      ghost var orig := coeff;
      ghost var start := v;
      ghost var cons := Consistent(coeff, v, src, w);
      ReducingStart(src, w);
      var i := numRows - 1;
      while i >= 0
        invariant Valid()
        invariant Reducing(coeff, v, orig, src, w, cons, i) == true
        invariant Kept(start, v)
      {
        SolveColumn(i, orig, src, w, cons);
        i := i - 1;
      }
    }

    /** Before the first pass, Reduce is working on the last column. */
    lemma ReducingStart(src: seq<seq<byte>>, w: nat)
      requires Valid() && Full(coeff)
      ensures Reducing(coeff, v, coeff, src, w, Consistent(coeff, v, src, w), numRows - 1)
    {
      if Consistent(coeff, v, src, w) {
        StandsAtStart(coeff, v, src, w);
      }
      PartlyAll(coeff);
    }

    /** One pass of Reduce: clear column i below row i, then cut row i to [i]. */
    method SolveColumn(i: int, ghost orig: seq<Option<seq<int>>>, ghost src: seq<seq<byte>>, ghost w: nat, ghost cons: bool)
      requires 0 <= i && Valid() && Reducing(coeff, v, orig, src, w, cons, i)
      modifies this
      ensures Valid() && Reducing(coeff, v, orig, src, w, cons, i - 1) && numRows == old(numRows)
      ensures Kept(old(v), v)
    {
      ClearColumn(i, orig, src, w, cons);
      TableSolve(coeff, v, i);
      PartlyStep(orig, i);
      coeff := coeff[i := Some([i])];
    }

    /** The inner loops of Reduce for column i: add block i into every lower block whose row names i. */
    method ClearColumn(i: int, ghost orig: seq<Option<seq<int>>>, ghost src: seq<seq<byte>>, ghost w: nat, ghost cons: bool)
      requires Valid() && 0 <= i < numRows == |orig| && Full(orig)
      requires forall r :: 0 <= r <= i ==> coeff[r] == orig[r]
      requires cons ==> |src| == numRows
      requires cons ==> forall r :: 0 <= r <= i ==> Stands(orig, src, w, r, i, v[r])
      modifies this
      ensures Valid() && coeff == old(coeff) && numRows == old(numRows)
      ensures forall r :: i <= r < numRows ==> v[r] == old(v[r])
      ensures cons ==> BlockLength(v[i]) == w && Content(v[i]) == src[i]
      ensures cons ==> forall r :: 0 <= r < i ==> Stands(orig, src, w, r, i - 1, v[r])
      ensures Kept(old(v), v)
    {
      if cons {
        Solved(orig, src, w, i, v[i]);
      }
      var j := 0;
      while j < i
        invariant 0 <= j <= i && Valid() && coeff == old(coeff) && numRows == old(numRows)
        invariant forall r :: j <= r < numRows ==> v[r] == old(v[r])
        invariant cons ==> forall r :: 0 <= r < j ==> Stands(orig, src, w, r, i - 1, v[r])
        invariant Kept(old(v), v)
      {
        ClearRow(i, j, orig, src, w, cons);
        j := j + 1;
      }
    }

    /** One step of the j loop: add block i into block j when row j names i. */
    method ClearRow(i: int, j: int, ghost orig: seq<Option<seq<int>>>, ghost src: seq<seq<byte>>, ghost w: nat, ghost cons: bool)
      requires Valid() && 0 <= j < i < numRows == |orig| && Full(orig)
      requires coeff[i] == orig[i] && coeff[j] == orig[j]
      requires cons ==> |src| == numRows && Stands(orig, src, w, j, i, v[j]) && BlockLength(v[i]) == w && Content(v[i]) == src[i]
      modifies this
      ensures Valid() && coeff == old(coeff) && numRows == old(numRows)
      ensures |v| == |old(v)| && forall r :: 0 <= r < |v| && r != j ==> v[r] == old(v[r])
      ensures cons ==> Stands(orig, src, w, j, i - 1, v[j])
      ensures v[j].length >= old(v[j].length)
    {
      var ci := coeff[i].value;
      var cj := coeff[j].value;
      var mentions := Mentions(cj, ci[0]);
      assert cj == [cj[0]] + cj[1..];
      assert mentions <==> i in cj;
      if cons {
        Eliminate(orig, src, w, i, j, v[j], v[i], mentions);
      }
      if mentions {
        var nb := BlockXor(v[j], v[i]);
        v := v[j := nb];
      }
    }

    /**
     * Reconstruct / matrixReconstruct: the first lenLong bytes of the blocks
     * of slots 0 .. numLong - 1, then the first lenShort bytes of the next
     * numShort slots, copied one after another into the output buffer.
     */
    method Reconstruct(totalLength: nat, lenLong: nat, lenShort: nat, numLong: nat, numShort: nat) returns (out: seq<byte>)
      requires Valid() && numLong + numShort <= numRows
      requires Covers(v, 0, numLong, lenLong) && Covers(v, numLong, numLong + numShort, lenShort)
      requires Total(numLong, lenLong) + Total(numShort, lenShort) <= totalLength
      ensures out == Laid(v, 0, numLong, lenLong) + Laid(v, numLong, numLong + numShort, lenShort)
    {
      var long := CopyRun(0, numLong, lenLong);
      var short := CopyRun(numLong, numLong + numShort, lenShort);
      out := long + short;
    }

    /** One loop of Reconstruct: the first `len` bytes of blocks lo .. hi - 1, at a running offset. */
    method CopyRun(lo: nat, hi: nat, len: nat) returns (out: seq<byte>)
      requires Covers(v, lo, hi, len)
      ensures out == Laid(v, lo, hi, len)
    {
      out := [];
      var offset := 0;
      var i := lo;
      while i < hi
        invariant lo <= i <= hi && out == Laid(v, lo, i, len) && offset == |out|
      {
        out := out + v[i].data[..len];
        offset := offset + len;
        i := i + 1;
      }
    }
  }
}
