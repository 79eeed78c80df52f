/**
 * The binary index policy (binary.c, src/binary.c): each encoded block
 * covers every source block whose coin came up heads, the coins being the
 * parities of the C library's rand() after reseeding it with the block ID.
 * The decoder keeps the codec, the message length and a sparse matrix with
 * one slot per source block; its AddBlocks stores no equation, and its
 * Decode lays the matrix's blocks out with the partition sizes of the
 * message length (src/binary.c reduces the matrix first, binary.c does not).
 */
module Binary {
  import Libc
  import opened Wrappers
  import opened Bytes
  import opened Rows
  import Blocks = Block
  import Matrix
  import Util
  import Luby

  /** binaryCodec: the number of source blocks. */
  datatype BinaryCodec = BinaryCodec(numSourceBlocks: int)

  /** BinaryCodec_SourceBlocks: the count is all a codec holds, so it rebuilds the codec. */
  function SourceBlocks(c: BinaryCodec): (r: int)
    ensures BinaryCodec(r) == c
  {
    c.numSourceBlocks
  }

  /** NewBinaryCodec: a codec whose SourceBlocks is the count it was made with. */
  function NewBinaryCodec(numSourceBlocks: int): (c: BinaryCodec)
    ensures SourceBlocks(c) == numSourceBlocks
  {
    BinaryCodec(numSourceBlocks)
  }

  /** random_int: draw k after srand(seed), taken modulo 2 — a coin that is 1 exactly when the draw is odd. */
  function RandomInt(rand: Libc.Rand, seed: nat, k: nat): (r: int)
    ensures 0 <= r <= 1
    ensures r == 1 <==> rand(seed, k) % 2 == 1
  {
    rand(seed, k) % 2
  }

  /**
   * The indices PickIndices keeps among blocks 0 .. n - 1 after srand(seed):
   * block b, in order, whenever draw b is odd.
   */
  function Selected(rand: Libc.Rand, seed: nat, n: int): seq<int>
    decreases n
  {
    if n <= 0 then []
    else Selected(rand, seed, n - 1) + (if RandomInt(rand, seed, n - 1) == 1 then [n - 1] else [])
  }

  /** The kept indices are strictly increasing, name source blocks, and so are at most n in number. */
  lemma {:induction false} SelectedIsRow(rand: Libc.Rand, seed: nat, n: int)
    ensures Increasing(Selected(rand, seed, n)) && Within(Selected(rand, seed, n), n)
    ensures |Selected(rand, seed, n)| <= if n < 0 then 0 else n
    decreases n
  {
    if n > 0 {
      SelectedIsRow(rand, seed, n - 1);
      var s := Selected(rand, seed, n - 1);
      assert Within(s, n - 1);
    }
  }

  /** Block b is kept exactly when it is one of the n blocks and its draw is odd. */
  lemma {:induction false} SelectedMembers(rand: Libc.Rand, seed: nat, n: int, b: int)
    ensures b in Selected(rand, seed, n) <==> 0 <= b < n && rand(seed, b) % 2 == 1
    decreases n
  {
    if n > 0 {
      SelectedMembers(rand, seed, n - 1, b);
      SelectedIsRow(rand, seed, n - 1);
    }
  }

  /** Block IDs that agree modulo 2^32 seed rand() alike, so they select the same blocks. */
  lemma SameLowBits(rand: Libc.Rand, n: int, id1: int, id2: int)
    requires (id1 - id2) % 0x1_0000_0000 == 0
    ensures Libc.Unsigned32(id1) == Libc.Unsigned32(id2)
    ensures Selected(rand, Libc.Unsigned32(id1), n) == Selected(rand, Libc.Unsigned32(id2), n)
  {
    var q := (id1 - id2) / 0x1_0000_0000;
    assert id1 == id2 + 0x1_0000_0000 * q;
  }

  /**
   * PickIndices: srand((unsigned int)codeBlockIndex), then for each source
   * block b in turn one coin; heads appends b to the index buffer.
   */
  method PickIndices(codec: BinaryCodec, rand: Libc.Rand, codeBlockIndex: int) returns (indices: seq<int>)
    ensures indices == Selected(rand, Libc.Unsigned32(codeBlockIndex), codec.numSourceBlocks)
  {
    var seed := Libc.Unsigned32(codeBlockIndex);
    var size := if codec.numSourceBlocks < 0 then 0 else codec.numSourceBlocks;
    var buffer := new int[size];
    var count := 0;
    for b := 0 to size
      invariant count <= b && buffer[..count] == Selected(rand, seed, b)
    {
      SelectedIsRow(rand, seed, b);
      if RandomInt(rand, seed, b) == 1 {
        buffer[count] := b;
        count := count + 1;
      }
    }
    indices := buffer[..count];
  }

  /** The byte count of slot k's piece: lenLong for the first numLong slots, lenShort after them. */
  function Width(parts: Util.Parts, k: int): nat
  {
    if k < parts.numLong then parts.lenLong else parts.lenShort
  }

  class BinaryDecoder {
    const codec: BinaryCodec
    const messageLength: nat
    const matrix: Matrix.SparseMatrix

    ghost predicate Valid()
      reads this, matrix
    {
      matrix.Valid() && matrix.numRows == codec.numSourceBlocks
    }

    /** NewDecoder: a copy of the codec, the message length, and a matrix of numSourceBlocks empty slots. */
    constructor (codec: BinaryCodec, messageLength: nat)
      requires codec.numSourceBlocks >= 0
      ensures Valid() && fresh(matrix)
      ensures this.codec == codec && this.messageLength == messageLength
      ensures forall s :: 0 <= s < matrix.numRows ==> matrix.coeff[s].None?
    {
      this.codec := codec;
      this.messageLength := messageLength;
      matrix := new Matrix.SparseMatrix(codec.numSourceBlocks);
    }

    /**
     * AddBlocks: picks the indices of every block and discards them; no
     * equation is stored (it names no state it may modify) and the answer is
     * always true.
     */
    method AddBlocks(rand: Libc.Rand, blocks: seq<Luby.LTBlock>) returns (determined: bool)
      ensures determined
    {
      for i := 0 to |blocks|
      {
        var indices := PickIndices(codec, rand, blocks[i].blockCode);
      }
      return true;
    }

    /**
     * Decode as src/binary.c has it: no determined test, Reduce, then the
     * blocks laid out with the partition sizes of the message length. When
     * the matrix's equations held of source blocks that each begin with
     * their piece of a message, the output is that message.
     */
    method Decode(ghost src: seq<seq<byte>>, ghost w: nat, ghost message: seq<byte>) returns (out: seq<byte>)
      requires Valid() && codec.numSourceBlocks >= 1 && Matrix.Full(matrix.coeff)
      requires var parts := Util.Partition(messageLength, codec.numSourceBlocks);
        forall k :: 0 <= k < codec.numSourceBlocks ==> matrix.v[k].length >= Width(parts, k)
      modifies matrix
      ensures Valid() && forall i :: 0 <= i < matrix.numRows ==> matrix.coeff[i] == Some([i])
      ensures var parts := Util.Partition(messageLength, codec.numSourceBlocks);
        Matrix.Covers(matrix.v, 0, parts.numLong, parts.lenLong)
        && Matrix.Covers(matrix.v, parts.numLong, codec.numSourceBlocks, parts.lenShort)
        && out == Matrix.Laid(matrix.v, 0, parts.numLong, parts.lenLong) + Matrix.Laid(matrix.v, parts.numLong, codec.numSourceBlocks, parts.lenShort)
      ensures Matrix.Consistent(old(matrix.coeff), old(matrix.v), src, w) && |message| == messageLength
        && (forall k :: 0 <= k < codec.numSourceBlocks ==> Matrix.Starts(Blocks.Pieces(message, codec.numSourceBlocks)[k].data, src[k]))
        ==> out == message
    {
      var n := codec.numSourceBlocks;
      ghost var cons := Matrix.Consistent(matrix.coeff, matrix.v, src, w);
      ghost var start := matrix.v;
      matrix.Reduce(src, w);
      var parts := Util.Partition(messageLength, n);
      StillLongEnough(start, matrix.v, parts, n);
      Blocks.TotalsAddUp(parts.numLong, parts.lenLong, parts.numShort, parts.lenShort, messageLength);
      out := matrix.Reconstruct(messageLength, parts.lenLong, parts.lenShort, parts.numLong, parts.numShort);
      if cons && |message| == messageLength && forall k :: 0 <= k < n ==> Matrix.Starts(Blocks.Pieces(message, n)[k].data, src[k]) {
        SolvedHoldPieces(start, matrix.v, src, message);
        Matrix.ReconstructRoundTrip(matrix.v, message, n);
      }
    }

    /**
     * Decode as binary.c has it: the same layout, without reducing the
     * matrix first; the output is the message exactly when each slot's
     * buffer already begins with its piece.
     */
    method DecodeWithoutReduce(ghost message: seq<byte>) returns (out: seq<byte>)
      requires Valid() && codec.numSourceBlocks >= 1
      requires var parts := Util.Partition(messageLength, codec.numSourceBlocks);
        forall k :: 0 <= k < codec.numSourceBlocks ==> |matrix.v[k].data| >= Width(parts, k)
      ensures var parts := Util.Partition(messageLength, codec.numSourceBlocks);
        out == Matrix.Laid(matrix.v, 0, parts.numLong, parts.lenLong) + Matrix.Laid(matrix.v, parts.numLong, codec.numSourceBlocks, parts.lenShort)
      ensures |message| == messageLength
        && (forall k :: 0 <= k < codec.numSourceBlocks ==> Matrix.Starts(Blocks.Pieces(message, codec.numSourceBlocks)[k].data, matrix.v[k].data))
        ==> out == message
    {
      var n := codec.numSourceBlocks;
      var parts := Util.Partition(messageLength, n);
      Blocks.TotalsAddUp(parts.numLong, parts.lenLong, parts.numShort, parts.lenShort, messageLength);
      out := matrix.Reconstruct(messageLength, parts.lenLong, parts.lenShort, parts.numLong, parts.numShort);
      if |message| == messageLength && forall k :: 0 <= k < n ==> Matrix.Starts(Blocks.Pieces(message, n)[k].data, matrix.v[k].data) {
        Matrix.ReconstructRoundTrip(matrix.v, message, n);
      }
    }
  }

  /** Blocks that kept at least the meaningful bytes of blocks as wide as their pieces cover both runs of the layout. */
  lemma StillLongEnough(start: seq<Blocks.Block>, v: seq<Blocks.Block>, parts: Util.Parts, n: nat)
    requires Matrix.Kept(start, v) && parts.numLong + parts.numShort == n <= |v|
    requires forall k :: 0 <= k < |v| ==> Blocks.Valid(v[k])
    requires forall k :: 0 <= k < n ==> start[k].length >= Width(parts, k)
    ensures Matrix.Covers(v, 0, parts.numLong, parts.lenLong) && Matrix.Covers(v, parts.numLong, n, parts.lenShort)
  {
  }

  /**
   * Solved slots hold their pieces: when slot k stands for source block k,
   * which begins with piece k of the message, and has kept at least that
   * piece's width of meaningful bytes, its buffer begins with the piece.
   */
  lemma SolvedHoldPieces(start: seq<Blocks.Block>, v: seq<Blocks.Block>, src: seq<seq<byte>>, message: seq<byte>)
    requires 1 <= |src| && Matrix.Kept(start, v) && |src| <= |v|
    requires forall k :: 0 <= k < |src| ==> Blocks.Valid(v[k]) && Blocks.Content(v[k]) == src[k]
    requires forall k :: 0 <= k < |src| ==> start[k].length >= Width(Util.Partition(|message|, |src|), k)
    requires forall k :: 0 <= k < |src| ==> Matrix.Starts(Blocks.Pieces(message, |src|)[k].data, src[k])
    ensures forall k :: 0 <= k < |src| ==> Matrix.Starts(Blocks.Pieces(message, |src|)[k].data, v[k].data)
  {
    forall k | 0 <= k < |src|
      ensures Matrix.Starts(Blocks.Pieces(message, |src|)[k].data, v[k].data)
    {
      Blocks.PieceWidth(message, |src|, k);
      Matrix.HoldsPiece(v[k], Blocks.Pieces(message, |src|)[k].data);
    }
  }
}
