/**
 * Blocks of bytes (block.c, src/block.c): a buffer whose first `length` bytes
 * are meaningful, followed by `padding` bytes that stand for zeros. The block
 * is a C struct that callers pass by address and copy by value; here it is a
 * value, and each operation that changes it in place returns the new value.
 */
module Block {
  import opened Bytes
  import Util

  datatype Block = Block(data: seq<byte>, length: nat, padding: nat)

  /** The meaningful bytes lie inside the buffer, and any buffer bytes past them are zero. */
  predicate Valid(b: Block)
  {
    b.length <= |b.data| && forall i :: b.length <= i < |b.data| ==> b.data[i] == 0
  }

  /** The bytes a block stands for: its meaningful bytes, then its padding as zeros. */
  function Content(b: Block): (c: seq<byte>)
    requires Valid(b)
    ensures |c| == b.length + b.padding
    ensures c[..b.length] == b.data[..b.length]
    ensures forall i :: b.length <= i < |c| ==> c[i] == 0
  {
    b.data[..b.length] + Zeros(b.padding)
  }

  /** newBlock: a zero-filled buffer of `len` bytes, no meaningful bytes, all padding. */
  function NewBlock(len: nat): (b: Block)
    ensures Valid(b) && b.length == 0 && b.padding == len
    ensures Content(b) == Zeros(len)
  {
    Block(Zeros(len), 0, len)
  }

  /** blockLength: meaningful bytes plus padding. */
  function BlockLength(b: Block): (n: nat)
    ensures Valid(b) ==> n == |Content(b)|
  {
    b.length + b.padding
  }

  /** blockEmpty. */
  function BlockEmpty(b: Block): (e: bool)
    requires Valid(b)
    ensures e <==> Content(b) == []
  {
    BlockLength(b) == 0
  }

  lemma NewBlockLength(len: nat)
    ensures BlockLength(NewBlock(len)) == len
    ensures BlockEmpty(NewBlock(len)) <==> len == 0
  {
  }

  /** `d` with its first |s| bytes XOR-ed with `s` and the rest unchanged. */
  function XorPrefix(d: seq<byte>, s: seq<byte>): (r: seq<byte>)
    requires |s| <= |d|
    ensures |r| == |d|
    ensures forall i :: 0 <= i < |s| ==> r[i] == d[i] ^ s[i]
    ensures forall i :: |s| <= i < |d| ==> r[i] == d[i]
  {
    Xor(d[..|s|], s) + d[|s|..]
  }

  /** A buffer resized to `n` bytes by `realloc`: a prefix is kept; grown bytes are zero here. */
  function Resize(d: seq<byte>, n: nat): (r: seq<byte>)
    ensures |r| == n
    ensures forall i :: 0 <= i < n ==> r[i] == if i < |d| then d[i] else 0
  {
    if n <= |d| then d[..n] else d + Zeros(n - |d|)
  }

  /** The padding blockXor leaves when it grows b to a's length. */
  function GrownPadding(b: Block, a: Block): (p: nat)
    requires b.length < a.length
    ensures p <= b.padding
    ensures p == 0 || p == b.padding - (a.length - b.length)
  {
    if b.padding > a.length - b.length then b.padding - (a.length - b.length) else 0
  }

  /**
   * blockXor(b, a): XOR a's meaningful bytes into b, first growing b's buffer to
   * a's length when b is shorter and taking the growth out of b's padding.
   * The growth also makes a's length b's length (see the finding on
   * BlockXorAsWritten), so that the grown bytes become meaningful.
   */
  method BlockXor(b: Block, a: Block) returns (r: Block)
    requires Valid(b) && Valid(a)
    ensures Valid(r)
    ensures r.length == if b.length < a.length then a.length else b.length
    ensures r.padding == if b.length < a.length then GrownPadding(b, a) else b.padding
    ensures r.data == XorPrefix(if b.length < a.length then Resize(b.data, a.length) else b.data, a.data[..a.length])
  {
    var data := b.data;
    var length := b.length;
    var padding := b.padding;
    if b.length < a.length {
      data := Resize(data, a.length);
      if b.padding > a.length - b.length {
        padding := b.padding - (a.length - b.length);
      } else {
        padding := 0;
      }
      length := a.length;
    }
    ghost var start := data;
    var i := 0;
    while i < a.length
      invariant 0 <= i <= a.length <= |data| == |start|
      invariant forall k :: 0 <= k < i ==> data[k] == start[k] ^ a.data[k]
      invariant forall k :: i <= k < |data| ==> data[k] == start[k]
    {
      data := data[i := data[i] ^ a.data[i]];
      i := i + 1;
    }
    r := Block(data, length, padding);
  }

  /** The value BlockXor returns, as a function for the lemmas below. */
  function Xored(b: Block, a: Block): (r: Block)
    requires Valid(b) && Valid(a)
    ensures Valid(r)
  {
    if b.length < a.length then
      Block(XorPrefix(Resize(b.data, a.length), a.data[..a.length]), a.length, GrownPadding(b, a))
    else
      Block(XorPrefix(b.data, a.data[..a.length]), b.length, b.padding)
  }

  /** Byte i of what a valid block stands for. */
  lemma ContentAt(b: Block, i: nat)
    requires Valid(b) && i < BlockLength(b)
    ensures Content(b)[i] == if i < |b.data| then b.data[i] else 0
  {
  }

  /** Byte i of Xored(b, a), when b is at least as long as a. */
  lemma XoredAtKeep(b: Block, a: Block, i: nat)
    requires Valid(b) && Valid(a) && BlockLength(b) == BlockLength(a) && i < BlockLength(b)
    requires b.length >= a.length
    ensures Valid(Xored(b, a)) && BlockLength(Xored(b, a)) == BlockLength(b)
    ensures Content(Xored(b, a))[i] == Content(b)[i] ^ Content(a)[i]
  {
    var r := Xored(b, a);
    ContentAt(r, i);
    ContentAt(b, i);
    ContentAt(a, i);
  }

  /** Growing b to a's length keeps the total length when both totals agree. */
  lemma GrowLength(b: Block, a: Block)
    requires Valid(b) && Valid(a) && BlockLength(b) == BlockLength(a) && b.length < a.length
    ensures BlockLength(Xored(b, a)) == BlockLength(b) && |Xored(b, a).data| == a.length
  {
  }

  /** The grown buffer holds b's bytes (zeros past them) XOR a's bytes. */
  lemma GrowData(b: Block, a: Block, i: nat)
    requires Valid(b) && Valid(a) && b.length < a.length && i < a.length
    ensures Xored(b, a).data[i] == (if i < |b.data| then b.data[i] else 0) ^ a.data[i]
  {
    var grown := Resize(b.data, a.length);
    assert Xored(b, a).data == XorPrefix(grown, a.data[..a.length]);
  }

  /** Byte i of Xored(b, a), when b is grown to a's length. */
  lemma XoredAtGrow(b: Block, a: Block, i: nat)
    requires Valid(b) && Valid(a) && BlockLength(b) == BlockLength(a) && i < BlockLength(b)
    requires b.length < a.length
    ensures Valid(Xored(b, a)) && BlockLength(Xored(b, a)) == BlockLength(b)
    ensures Content(Xored(b, a))[i] == Content(b)[i] ^ Content(a)[i]
  {
    GrowLength(b, a);
    ContentAt(Xored(b, a), i);
    ContentAt(b, i);
    ContentAt(a, i);
    if i < a.length {
      GrowData(b, a, i);
    }
  }

  /** XOR-ing two blocks of the same total length XORs the bytes they stand for. */
  lemma XoredContent(b: Block, a: Block)
    requires Valid(b) && Valid(a) && BlockLength(b) == BlockLength(a)
    ensures BlockLength(Xored(b, a)) == BlockLength(b)
    ensures Content(Xored(b, a)) == Xor(Content(b), Content(a))
  {
    var cr, cb, ca := Content(Xored(b, a)), Content(b), Content(a);
    forall i | 0 <= i < |cb|
      ensures cr[i] == cb[i] ^ ca[i]
    {
      if b.length < a.length {
        XoredAtGrow(b, a, i);
      } else {
        XoredAtKeep(b, a, i);
      }
    }
  }

  /** XOR-ing the same block in twice restores what the first block stood for. */
  lemma XoredTwice(b: Block, a: Block)
    requires Valid(b) && Valid(a) && BlockLength(b) == BlockLength(a)
    ensures Content(Xored(Xored(b, a), a)) == Content(b)
  {
    XoredContent(b, a);
    XoredContent(Xored(b, a), a);
    XorCancel(Content(b), Content(a));
  }

  /**
   * blockXor as the source writes it: the buffer is reallocated to a's length
   * but b.length is never updated, so the XOR-ed bytes are not counted as
   * meaningful, and a later XOR with a shorter block shrinks the buffer.
   */
  function BlockXorAsWritten(b: Block, a: Block): (r: Block)
    requires a.length <= |a.data| && b.length <= |b.data|
    ensures r.length == b.length
    ensures |r.data| == if b.length < a.length then a.length else |b.data|
  {
    if b.length < a.length then
      Block(XorPrefix(Resize(b.data, a.length), a.data[..a.length]), b.length, GrownPadding(b, a))
    else
      Block(XorPrefix(b.data, a.data[..a.length]), b.length, b.padding)
  }

  /**
   * XOR-ing a full block into a fresh all-padding block of the same total
   * length: as written the result has total length 0 and stands for no bytes,
   * while the corrected XOR stands for exactly the full block's bytes.
   */
  lemma BlockXorAsWrittenLosesBytes(b: Block, a: Block)
    requires Valid(b) && Valid(a)
    requires b.length == 0 && a.padding == 0 && BlockLength(b) == BlockLength(a) > 0
    ensures BlockLength(BlockXorAsWritten(b, a)) == 0
    ensures Content(Xored(b, a)) == Content(a) != []
  {
    assert GrownPadding(b, a) == 0;
    XoredContent(b, a);
    assert Content(b) == Zeros(|Content(a)|);
    XorZeros(Content(a));
  }

  /** The blocks of one size class cut from `input`: `count` blocks of `len` bytes, the last ones padded. */
  function Chop(input: seq<byte>, count: nat, len: nat): (bs: seq<Block>)
    ensures |bs| == count
    decreases count
  {
    if count == 0 then []
    else if |input| >= len then [Block(input[..len], len, 0)] + Chop(input[len..], count - 1, len)
    else [Block(input, |input|, len - |input|)] + Chop([], count - 1, len)
  }

  /** Every chopped block is valid and has total length `len`. */
  lemma {:induction false} ChopSizes(input: seq<byte>, count: nat, len: nat)
    ensures forall k :: 0 <= k < count ==> Valid(Chop(input, count, len)[k]) && BlockLength(Chop(input, count, len)[k]) == len
    decreases count
  {
    if count > 0 {
      var bs := Chop(input, count, len);
      var tail := if |input| >= len then input[len..] else [];
      ChopSizes(tail, count - 1, len);
      assert bs[1..] == Chop(tail, count - 1, len);
      forall k | 0 < k < count
        ensures Valid(bs[k]) && BlockLength(bs[k]) == len
      {
        assert bs[k] == bs[1..][k - 1];
      }
    }
  }

  /** What is left of `input` after cutting `count` blocks of `len` bytes. */
  function Rest(input: seq<byte>, count: nat, len: nat): seq<byte>
    decreases count
  {
    if count == 0 then input
    else if |input| >= len then Rest(input[len..], count - 1, len)
    else Rest([], count - 1, len)
  }

  /** What is left is a suffix of the input. */
  lemma {:induction false} RestSuffix(input: seq<byte>, count: nat, len: nat)
    ensures var r := Rest(input, count, len); |r| <= |input| && r == input[|input| - |r|..]
    decreases count
  {
    if count > 0 {
      if |input| >= len {
        var tail := input[len..];
        RestSuffix(tail, count - 1, len);
        var r := Rest(tail, count - 1, len);
        assert tail[|tail| - |r|..] == input[|input| - |r|..];
      } else {
        RestSuffix([], count - 1, len);
      }
    }
  }

  /** The meaningful bytes of a sequence of blocks, concatenated. */
  function Meaningful(bs: seq<Block>): seq<byte>
  {
    if bs == [] then [] else bs[0].data[..Min(bs[0].length, |bs[0].data|)] + Meaningful(bs[1..])
  }

  function Min(a: int, b: int): int { if a < b then a else b }

  /** Cutting the first block: a full one while len bytes remain, else what is left, padded. */
  lemma ChopStep(input: seq<byte>, count: nat, len: nat)
    requires count > 0
    ensures |input| >= len ==>
      Chop(input, count, len) == [Block(input[..len], len, 0)] + Chop(input[len..], count - 1, len)
      && Rest(input, count, len) == Rest(input[len..], count - 1, len)
    ensures |input| < len ==>
      Chop(input, count, len) == [Block(input, |input|, len - |input|)] + Chop([], count - 1, len)
      && Rest(input, count, len) == Rest([], count - 1, len)
  {
  }

  lemma AppendAssoc(front: seq<Block>, b: Block, back: seq<Block>)
    ensures (front + [b]) + back == front + ([b] + back)
  {
  }

  /** One loop of PartitionBytes: cut `count` blocks of `len` bytes from the front of `input`. */
  method CutBlocks(input: seq<byte>, count: nat, len: nat) returns (blocks: seq<Block>, rest: seq<byte>)
    ensures blocks == Chop(input, count, len)
    ensures rest == Rest(input, count, len)
  {
    rest := input;
    blocks := [];
    var i := 0;
    while i < count
      invariant 0 <= i <= count
      invariant blocks + Chop(rest, count - i, len) == Chop(input, count, len)
      invariant Rest(rest, count - i, len) == Rest(input, count, len)
    {
      var block, rest';
      if |rest| >= len {
        block, rest' := Block(rest[..len], len, 0), rest[len..];
      } else {
        block, rest' := Block(rest, |rest|, len - |rest|), [];
      }
      ChopStep(rest, count - i, len);
      ghost var tail := Chop(rest', count - (i + 1), len);
      assert Chop(rest, count - i, len) == [block] + tail;
      AppendAssoc(blocks, block, tail);
      blocks, rest := blocks + [block], rest';
      i := i + 1;
    }
  }

  /**
   * PartitionBytes: cut `input` into numLong blocks of lenLong bytes and then
   * numShort blocks of lenShort bytes, with the sizes of Partition(|input|, p).
   * Once the input runs out, a block keeps what is left and the rest of its
   * length becomes padding.
   */
  method PartitionBytes(input: seq<byte>, p: nat) returns (longBlocks: seq<Block>, shortBlocks: seq<Block>)
    requires p >= 1
    ensures var parts := Util.Partition(|input|, p);
      |longBlocks| == parts.numLong && |shortBlocks| == parts.numShort
      && (forall k :: 0 <= k < |longBlocks| ==> Valid(longBlocks[k]) && BlockLength(longBlocks[k]) == parts.lenLong)
      && (forall k :: 0 <= k < |shortBlocks| ==> Valid(shortBlocks[k]) && BlockLength(shortBlocks[k]) == parts.lenShort)
    ensures var parts := Util.Partition(|input|, p);
      longBlocks == Chop(input, parts.numLong, parts.lenLong)
      && shortBlocks == Chop(Rest(input, parts.numLong, parts.lenLong), parts.numShort, parts.lenShort)
  {
    var parts := Util.Partition(|input|, p);
    var rest;
    longBlocks, rest := CutBlocks(input, parts.numLong, parts.lenLong);
    shortBlocks, rest := CutBlocks(rest, parts.numShort, parts.lenShort);
    ChopSizes(input, parts.numLong, parts.lenLong);
    ChopSizes(Rest(input, parts.numLong, parts.lenLong), parts.numShort, parts.lenShort);
  }

  lemma PrefixSplit(s: seq<byte>, a: nat, b: nat)
    requires a + b <= |s|
    ensures s[..a + b] == s[..a] + s[a..][..b]
    ensures s[a..][b..] == s[a + b..]
  {
  }

  /** count · len, by repeated addition, as ChopExact walks it. */
  function Total(count: nat, len: nat): nat
  {
    if count == 0 then 0 else len + Total(count - 1, len)
  }

  /** The repeated addition is the product. */
  lemma {:induction false} TotalProduct(count: nat, len: nat)
    ensures Total(count, len) == count * len
  {
    if count > 0 {
      TotalProduct(count - 1, len);
    }
  }

  /** When count·len bytes are available, every chopped block is full and they concatenate to that prefix. */
  lemma {:induction false} ChopExact(input: seq<byte>, count: nat, len: nat)
    requires Total(count, len) <= |input|
    ensures Meaningful(Chop(input, count, len)) == input[..Total(count, len)]
    ensures forall k :: 0 <= k < count ==> Chop(input, count, len)[k].padding == 0
    ensures Rest(input, count, len) == input[Total(count, len)..]
  {
    if count > 0 {
      var m' := Total(count - 1, len);
      var tail := input[len..];
      ChopExact(tail, count - 1, len);
      ChopCons(input, count, len);
      PrefixSplit(input, len, m');
      var bs := Chop(input, count, len);
      forall k | 0 < k < count
        ensures bs[k].padding == 0
      {
        assert bs[k] == Chop(tail, count - 1, len)[k - 1];
      }
    }
  }

  /** Cutting a full first block off `input`. */
  lemma ChopCons(input: seq<byte>, count: nat, len: nat)
    requires count > 0 && len <= |input|
    ensures Chop(input, count, len) == [Block(input[..len], len, 0)] + Chop(input[len..], count - 1, len)
    ensures Meaningful(Chop(input, count, len)) == input[..len] + Meaningful(Chop(input[len..], count - 1, len))
    ensures Rest(input, count, len) == Rest(input[len..], count - 1, len)
  {
    var bs := Chop(input, count, len);
    assert bs[1..] == Chop(input[len..], count - 1, len);
  }

  /** The two size classes' byte totals add up to the message length. */
  lemma TotalsAddUp(numLong: nat, lenLong: nat, numShort: nat, lenShort: nat, n: nat)
    requires lenLong * numLong + lenShort * numShort == n
    ensures Total(numLong, lenLong) + Total(numShort, lenShort) == n
  {
    TotalProduct(numLong, lenLong);
    TotalProduct(numShort, lenShort);
    assert numLong * lenLong == lenLong * numLong && numShort * lenShort == lenShort * numShort;
  }

  /** Partitioning a message and concatenating its blocks' meaningful bytes gives the message back, with no padding. */
  lemma PartitionRoundTrip(input: seq<byte>, p: nat)
    requires p >= 1
    ensures var parts := Util.Partition(|input|, p);
      var longBlocks := Chop(input, parts.numLong, parts.lenLong);
      var shortBlocks := Chop(Rest(input, parts.numLong, parts.lenLong), parts.numShort, parts.lenShort);
      Meaningful(longBlocks) + Meaningful(shortBlocks) == input
      && (forall k :: 0 <= k < |longBlocks| ==> longBlocks[k].padding == 0)
      && (forall k :: 0 <= k < |shortBlocks| ==> shortBlocks[k].padding == 0)
  {
    var parts := Util.Partition(|input|, p);
    var long, short := Total(parts.numLong, parts.lenLong), Total(parts.numShort, parts.lenShort);
    TotalsAddUp(parts.numLong, parts.lenLong, parts.numShort, parts.lenShort, |input|);
    ChopExact(input, parts.numLong, parts.lenLong);
    var rest := input[long..];
    ChopExact(rest, parts.numShort, parts.lenShort);
    assert rest[..short] == rest;
    assert input[..long] + rest == input;
  }

  /** The blocks PartitionBytes cuts from `input`, the long ones first. */
  function Pieces(input: seq<byte>, p: nat): (bs: seq<Block>)
    requires p >= 1
    ensures |bs| == p
  {
    var parts := Util.Partition(|input|, p);
    Chop(input, parts.numLong, parts.lenLong) + Chop(Rest(input, parts.numLong, parts.lenLong), parts.numShort, parts.lenShort)
  }

  /** When count·len bytes are available, chopped block k holds bytes k·len .. (k + 1)·len of the input. */
  lemma {:induction false} ChopAt(input: seq<byte>, count: nat, len: nat, k: nat)
    requires Total(count, len) <= |input| && k < count
    ensures Total(k, len) + len <= |input|
    ensures Chop(input, count, len)[k] == Block(input[Total(k, len)..Total(k, len) + len], len, 0)
    decreases count
  {
    ChopStep(input, count, len);
    if k > 0 {
      var tail := input[len..];
      var t := Total(k - 1, len);
      assert Total(k, len) == len + t;
      ChopAt(tail, count - 1, len, k - 1);
      assert Chop(input, count, len)[k] == Chop(tail, count - 1, len)[k - 1];
      assert tail[t..t + len] == input[len + t..len + t + len];
    }
  }

  /** The pieces are the long blocks cut from the message, then the short blocks cut from what follows them. */
  lemma PiecesSplit(input: seq<byte>, p: nat)
    requires p >= 1
    ensures var parts := Util.Partition(|input|, p);
      var long := Total(parts.numLong, parts.lenLong);
      long + Total(parts.numShort, parts.lenShort) == |input|
      && Pieces(input, p)[..parts.numLong] == Chop(input, parts.numLong, parts.lenLong)
      && Pieces(input, p)[parts.numLong..] == Chop(input[long..], parts.numShort, parts.lenShort)
  {
    var parts := Util.Partition(|input|, p);
    TotalsAddUp(parts.numLong, parts.lenLong, parts.numShort, parts.lenShort, |input|);
    ChopExact(input, parts.numLong, parts.lenLong);
  }

  /** Piece k of a partitioned message is a full block of its size class: lenLong bytes for the first numLong pieces, lenShort after them. */
  lemma PieceWidth(input: seq<byte>, p: nat, k: nat)
    requires p >= 1 && k < p
    ensures var parts := Util.Partition(|input|, p);
      var piece := Pieces(input, p)[k];
      piece.padding == 0 && piece.length == |piece.data|
      && |piece.data| == if k < parts.numLong then parts.lenLong else parts.lenShort
  {
    var parts := Util.Partition(|input|, p);
    var long := Total(parts.numLong, parts.lenLong);
    var pieces := Pieces(input, p);
    PiecesSplit(input, p);
    if k < parts.numLong {
      ChopAt(input, parts.numLong, parts.lenLong, k);
      assert pieces[k] == pieces[..parts.numLong][k];
    } else {
      ChopAt(input[long..], parts.numShort, parts.lenShort, k - parts.numLong);
      assert pieces[k] == pieces[parts.numLong..][k - parts.numLong];
    }
  }
}
