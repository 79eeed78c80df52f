# cfountain in Dafny

A model of the core of cfountain, a C implementation of fountain (rateless
XOR erasure) codes, with proofs about it. A message is cut into source
blocks. Each encoded block is the XOR of a few source blocks, chosen by an
index policy from a pseudo-random stream. A decoder collects enough encoded
blocks to solve for the sources over GF(2) and lays them out again as the
message.

The modules follow the source files:

- `bytes.dfy` (`Bytes`): byte strings and byte-wise XOR, the algebra every
  decoder step relies on.
- `libc.dfy` (`Libc`): the C library's `rand()` after `srand(seed)`, as a
  function from seed and draw number to the draw, and the `(unsigned int)`
  cast of a 64-bit block ID.
- `block.dfy` (`Block`): the `block` record (data, length, padding),
  `newBlock`, `blockLength`, `blockEmpty`, `blockXor` and `PartitionBytes`
  of block.c.
- `rows.dfy` (`Rows`): rows of the sparse equation matrix: increasing index
  lists. The merge of `xorRow` is their symmetric difference, and a row
  stands for the XOR of the source blocks it names.
- `matrix.dfy` (`Matrix`): the sparse matrix of block.c and src/block.c
  (`addEquation`, `xorRow`, `matrixDetermined`/`determined`,
  `matrixReduce`/`Reduce`, `matrixReconstruct`/`Reconstruct`), as a class
  whose methods update its rows and blocks.
- `luby.dfy` (`Luby`): the dense Luby-Transform codec of src/luby.c. It
  covers degree picking, sampling without replacement, LT block encoding,
  the decoder's row appending, and Gaussian elimination with back
  substitution.
- `util.dfy`, `combinatorics.dfy`, `swar.dfy` (`Util`, `Combinatorics`,
  `Swar`): the integer utilities of util.c, which src/util.c repeats line
  for line. They are `partition`, the binary-search `pickDegree`,
  `sampleUniform`, `factorial`, `choose`/`centerBinomial`, `bitSet`, the
  SWAR `bitsSet`, Gray codes and `buildGraySequence`, and the table-driven
  `isPrime` and `smallestPrimeGreaterOrEqual`.
- `modular.dfy` (`Modular`): the walk `b := (b + a) mod p` that the RU10
  and Raptor index selectors step, and why it reaches every residue.
- `ru10.dfy` (`Ru10`): `smallest_prime_greater_or_equal`, `bit_set` and
  `pick_indices`, the index walk followed by an exchange sort.
- `raptor.dfy` (`Raptor`): `raptor_rand`, `deg`, `intermediate_symbols`,
  `triple_generator` and `find_lt_indices`. These are the generators of
  sections 5.4.2.3 and 5.4.4.1 to 5.4.4.4 of RFC 5053.
- `binary.dfy` (`Binary`): the binary index policy of binary.c and
  src/binary.c. Block b is chosen when the b-th `rand()` draw after
  reseeding with the block ID is odd. Also its codec and decoder.
- `mersenne.dfy` (`Mersenne`): MT19937 and MT19937-64 of mersenne.c:
  seeding, twisting and tempering over the state arrays, as classes.

Pseudo-random draws are parameters. `rand`/`srand` is `Libc.Rand` (seed,
draw number → draw). `rand_r` on the Luby codec's seed is a stream
`Luby.Draws`, whose position is the seed the codec carries. The V0/V1
tables of `raptor_rand` and the systematic index table are parameters too.
So are the `sqrt`/`log` starting estimates of `intermediate_symbols`
(`isqrt`, `ilog4`).

## Model

| member | source | states |
|---|---|---|
| Bytes.XorCancel | block.c:37-39 | XOR-ing the same bytes in twice gives the original string back |
| Libc.Unsigned32 | binary.c:26 | the `(unsigned int)` cast: a value below 2^32 congruent to the ID modulo 2^32 |
| Block.NewBlock | block.c:8-14 | a valid block with no meaningful bytes, all `len` bytes padding, standing for `len` zero bytes |
| Block.BlockLength | block.c:17-19 | for a valid block, the number of bytes it stands for (meaningful bytes plus padding) |
| Block.BlockEmpty | block.c:22-24 | true exactly when the block stands for no bytes |
| Block.NewBlockLength | block.c:8-24 | `blockLength(newBlock(len)) == len`, and `blockEmpty` of it holds exactly when len is 0 |
| Block.Resize | block.c:29 | a buffer resized to n bytes keeps its prefix, the rest zero |
| Block.BlockXor | block.c:27-40 | the result is valid; its length is the larger of the two; padding is reduced only when b grows and never raised; its buffer is b's (grown to a's length) with a's meaningful bytes XOR-ed into the front and later bytes unchanged |
| Block.XoredContent | block.c:27-40 | for two blocks of the same total length, the bytes the result stands for are the XOR of the bytes the two blocks stand for, and the total length is kept |
| Block.XoredTwice | block.c:27-40 | XOR-ing the same block in twice restores what the first block stood for |
| Block.BlockXorAsWritten | block.c:27-35 | as written: the length is never updated, while the buffer grows to a's length |
| Block.BlockXorAsWrittenLosesBytes | block.c:27-40 | as written, XOR-ing a full block into a fresh all-padding block of the same total length yields a block of total length 0; the corrected XOR stands for a's bytes |
| Block.CutBlocks | block.c:51-65 | one cutting loop of PartitionBytes produces exactly the blocks `Chop` describes and leaves exactly `Rest` of the input |
| Block.ChopSizes | block.c:51-81 | every cut block is valid and has total length `len`, padded when the input runs out |
| Block.PartitionBytes | block.c:43-82 | numLong long and numShort short blocks with the sizes of `partition`, each valid with its class's total length, cut in order from the input |
| Block.ChopExact | block.c:51-65 | when count·len bytes remain, every cut block is full (no padding), their bytes are that prefix, and the rest follows it |
| Block.TotalsAddUp | block.c:46 | the long and short blocks of `partition` add up to exactly the message length |
| Block.PartitionRoundTrip | block.c:43-82 | concatenating the meaningful bytes of the long then short blocks gives back the input, and no block has padding |
| Block.ChopAt | block.c:51-65 | with count·len bytes available, block k holds input bytes k·len to (k+1)·len |
| Block.PiecesSplit | block.c:43-82 | the blocks are the long ones cut from the message, then the short ones cut from what follows, and the two runs cover the message |
| Block.PieceWidth | block.c:51-81 | piece k is a full block of lenLong bytes when k < numLong, else of lenShort bytes |
| Rows.SymDiffSorted | src/block.c:118-144 | the merge of two increasing rows is increasing and holds exactly the indices in one row but not the other |
| Rows.SymDiffLength | src/block.c:118-144 | the merge has at most as many entries as both rows together |
| Rows.SymDiffExactLength | src/block.c:118-144 | for increasing rows, the merge length plus twice the number of shared indices equals the sum of the row lengths |
| Rows.MergeFits | src/block.c:107 | the merge fits xorRow's buffer of indices_len + 100 entries exactly when the stored row has at most 100 more entries than twice the shared ones |
| Rows.SymDiffWithin | src/block.c:118-144 | merging two rows over n sources gives a row over n sources |
| Rows.SymDiffHead | src/block.c:80-101 | two rows led by the same s merge into a row that is empty or starts above s, the measure that makes addEquation terminate |
| Rows.SymDiffXor | src/block.c:103-147 | the merged row stands for the XOR of what the two rows stand for, so XOR-ing v[s] into b keeps row and value in step |
| Rows.UptoStep | block.c:119-135 | raising the bound past i adds i to the cut row exactly when the row names i |
| Matrix.Insert | src/block.c:80-101 | reference addEquation: the table keeps its shape (every stored row increasing, within range and led by its slot) |
| Matrix.InsertKeepsRows | block.c:85-106 | a slot that holds a row keeps holding one: inserting only fills the matrix |
| Matrix.InsertConsistent | block.c:85-106 | inserting an equation that holds of the sources keeps every stored equation true: rows and blocks move together |
| Matrix.InsertAsWritten | block.c:85-106 | addEquation as written, with the row length taken as sizeof(int*)/sizeof(int) and the count not swapped; None when the fuel runs out |
| Matrix.InsertAsWrittenLoops | block.c:86-99 | as written, a one-component row whose slot is taken swaps with the stored row forever, whatever the fuel |
| Matrix.InsertBelowLead | src/block.c:80-101 | insertion never touches a slot below the new row's leading index: those slots keep their rows and their blocks |
| Matrix.InsertSingleton | src/block.c:80-101 | a one-component row [s] whose slot is taken: when the slot already holds [s] nothing changes; otherwise the slot ends holding [s] with the new block, the component count travelling with the row |
| Matrix.ReduceAsWritten | block.c:119-135 | matrixReduce as written, examining only cj[1]; the blocks stay valid |
| Matrix.ReduceAsWrittenExample | block.c:119-135 | rows [0,1,2], [1], [2] with consistent blocks: as written, block 0 after reduction is not source block 0 |
| Matrix.Solved | block.c:119-135 | once i is the largest index left, a row led by i stands for source block i |
| Matrix.Mentions | block.c:124-129 | true exactly when the row names x after its leading entry |
| Matrix.Merge | src/block.c:118-144 | the two-cursor merge loop returns the symmetric difference of the two rows |
| Matrix.LaidChop | block.c:142-145 | laying out count blocks whose buffers begin with the blocks cut from the input gives that many input bytes back |
| Matrix.LaidRuns | block.c:138-153 | long blocks then short blocks cut from the input lay out the whole input |
| Matrix.ReconstructRoundTrip | block.c:138-153 | partition then reconstruct: when slot k's buffer begins with piece k of the message, the layout covers the slots and is exactly the message |
| Matrix.PiecesRoundTrip | block.c:138-153 | the partitioned message's own blocks reconstruct it |
| Matrix.HoldsPiece | block.c:143 | a block standing for bytes that begin with a piece, with at least that many meaningful bytes, holds the piece at the front of its buffer |
| Matrix.SparseMatrix.constructor | binary.c:56-64 | numRows empty slots |
| Matrix.SparseMatrix.XorRow | src/block.c:103-147 | the new row is the symmetric difference of the stored row and the indices, and the new block is b XOR v[s] |
| Matrix.SparseMatrix.AddEquation | src/block.c:80-101 | the matrix after the call is exactly the reference insertion, and the table shape holds |
| Matrix.SparseMatrix.Determined | src/block.c:149-156 | true exactly when every slot holds a row led by its own index |
| Matrix.SparseMatrix.Reduce | src/block.c:158-173 | the corrected reduction, examining every entry of each row (src/block.c:163 has the same cj[1]-only test as block.c:124; see "## Findings"): every row becomes [i]; no block loses meaningful bytes; and on a consistent full matrix every block stands for its source block |
| Matrix.SparseMatrix.Reconstruct | src/block.c:175-190 | the first lenLong bytes of the numLong long slots, then the first lenShort bytes of the next numShort slots |
| Luby.DegreeFirst | src/luby.c:38-46 | every entry before the degree's own is at most r, and either the degree's entry exceeds r or no entry does; the degree lies in 1..\|cdf\| for a non-empty table |
| Luby.PickDegree | src/luby.c:38-46 | the linear scan returns that degree |
| Luby.NextElements | src/luby.c:57-58 | taking the value at k leaves exactly the other values available |
| Luby.PassSplits | src/luby.c:52-59 | the loop invariant: picked and still-available values together are 0..max-1, each exactly once |
| Luby.SampleRange | src/luby.c:49-63 | the sample holds distinct values below max |
| Luby.SampleUniform | src/luby.c:49-63 | d distinct values below max: the values the swap-with-last loop picks |
| Luby.XorPrefixTwice | src/luby.c:66-70 | xorBlocks applied twice with the same source restores dest |
| Luby.XorBlocks | src/luby.c:66-70 | dest's first `length` bytes are XOR-ed with src, the rest unchanged |
| Luby.EncodedRow | src/luby.c:73-84 | on equally long source blocks an LT block is the XOR of the blocks its row names, as the solver sees it |
| Luby.GenerateBlock | src/luby.c:73-84 | a block as long as source block 0, equal to the XOR of the named source blocks (zeros for no indices) |
| Luby.PicksAppend | src/luby.c:93-97 | one more call extends the picks by the pick at the draw the earlier calls reached |
| Luby.PickValid | src/luby.c:93-97 | every pick names 1 to \|cdf\| distinct source blocks |
| Luby.LubyCodec.constructor | src/luby.c:210-225 | the block count and a copy of the degree table are stored; the C `seed` argument becomes the choice of the `draws` stream, and the position in that stream starts at 0 |
| Luby.LubyCodec.PickIndices | src/luby.c:93-97 | the indices and the new seed are the pick made at the codec's seed; the block ID plays no part |
| Luby.LubyCodec.EncodeLTBlocks | src/luby.c:228-251 | one block per ID, in order, tagged with that ID, each the XOR of the blocks the next pick names |
| Luby.EncodesAppend | src/luby.c:234-242 | encoding the next pick and tagging it with the next ID extends the run |
| Luby.EncodedEquations | src/luby.c:228-251 | every encoded block is the XOR of the distinct source blocks its pick names: the equation the decoder solves |
| Luby.XorRows | src/luby.c:183-185 | the row XOR: entry c is 0 exactly when the two rows agree there |
| Luby.RowValueXor | src/luby.c:181-187 | the value of the sum of two rows is the XOR of their values |
| Luby.IndicatorValue | src/luby.c:142-146 | the row AddBlocks writes for a pick stands for the block the encoder builds from the same pick |
| Luby.EncodedSatisfied | src/luby.c:135-152 | K blocks encoded with picks from a seed, added to a decoder drawing from the same seed, form a system the source blocks satisfy |
| Luby.LubyDecoder.constructor | src/luby.c:100-114 | K zero rows, none written yet |
| Luby.LubyDecoder.AddBlocks | src/luby.c:135-152 | one row per block at the next free slots, 1 exactly at the picked columns, the block's bytes as value; older rows untouched; the seed advanced; returns size >= K |
| Luby.LubyDecoder.AddBlock | src/luby.c:138-147 | one pass of the loop: the next pick's indicator row and the block's bytes at slot size |
| Luby.LubyDecoder.Decode | src/luby.c:155-207 | None until K rows are filled; otherwise upper triangular rows and the solved blocks laid out, then zeros; on a satisfied system with unit diagonal, exactly the source blocks |
| Luby.LubyDecoder.Forward | src/luby.c:166-189 | after elimination the rows are upper triangular and a satisfied system stays satisfied |
| Luby.LubyDecoder.FindPivot | src/luby.c:167-180 | column i has a pivot at row i, or no row below has column i set |
| Luby.LubyDecoder.AddRowInto | src/luby.c:182-187 | row i added into row j and block i into block j; the equations still hold |
| Luby.LubyDecoder.BackSubstitute | src/luby.c:192-198 | with unit diagonal, every block becomes its source block |
| Luby.LubyDecoder.ClearOne | src/luby.c:193-195 | block i is XOR-ed into block j exactly when row j has column i set; no other block changes, and an equation solved up to column i+1 becomes one solved up to column i |
| Luby.CopyOut | src/luby.c:200-203 | the blocks one after another, then zeros up to the message length |
| Util.Partition | util.c:113-125 | jl + js == j with 0 <= jl < j and js >= 1; jl == i mod j and is == i / j; il·jl + is·js == i; il == is + 1 when jl > 0 and il == 0 when jl == 0 |
| Util.PickDegree | util.c:71-82 | 1 for tables shorter than 2; otherwise an index in 1..size-1, and on a non-decreasing table the least such index whose entry is at least r, or size-1 |
| Util.CollectDistinct | util.c:99-106 | what the rejection loop collects is num distinct values below max, extending the picks so far |
| Util.CollectEnough | util.c:99-106 | the rejection loop finishes on the given draws whenever they give enough values not yet picked to reach num; running out of draws is the only way it fails |
| Util.SampleUniform | util.c:85-110 | all of 0..max-1 when num >= max; otherwise the draw-order rejection sample; min(num, max) distinct values below max |
| Util.Factorial | util.c:128-134 | x! for x >= 1, 1 otherwise |
| Util.CancelRatio | util.c:154-162 | every cancellation step keeps the ratio of the numerators' product to the denominators' product |
| Util.CancelledRatio | util.c:142-162 | after the pass, the numerators' product is C(n, k) times the denominators' product |
| Util.CancelPass | util.c:154-162 | the in-place pass over the two arrays computes the reference cancellation |
| Util.ChooseAsWritten | util.c:142-172 | as written: the product of the numerators left, which is C(n, k) times the leftover denominators |
| Util.ChooseAsWrittenTwelveFour | util.c:142-172 | choose(12, 4) as written is 1980: the denominator 4 is left over, and C(12, 4) is 495 |
| Util.Choose | util.c:142-172 | the corrected choose is C(n, k) |
| Util.CenterBinomialAsWritten | util.c:137-139 | as written, through the uncorrected choose: the product of the numerators the cancellation pass leaves, which is C(x, x / 2) times the denominators left over |
| Util.CenterBinomial | util.c:137-139 | the corrected centerBinomial, through the corrected choose: exactly C(x, x / 2) |
| Util.BitSet | util.c:175-177 | true exactly when bit b of x is set |
| Util.BitsSet | util.c:180-185 | the number of set bits of the 64-bit word |
| Util.BitsInBound | util.c:180-185 | every bit count lies between 0 and the number of bits |
| Util.GrayCode | util.c:188-190 | the code keeps the top bit of x, and only 0 has code 0 |
| Util.GrayAdjacent | util.c:188-190 | consecutive Gray codes, including the wrap at 2^64, differ in exactly one bit |
| Util.GrayInjective | util.c:188-190 | different words have different Gray codes |
| Util.GrayMatchesBits | util.c:198-207 | every code collected has exactly b bits set |
| Util.GrayMatchesPrefix | util.c:198-207 | looking at more words only appends codes, in increasing-x order |
| Util.GrayMatchesStep | util.c:198-206 | one more word appends its Gray code exactly when it has b bits set |
| Util.BuildGraySequence | util.c:193-208 | when some word matches: length codes, the matching Gray codes in x order repeated as x wraps, each cut to 32 bits; it ends exactly when some word matches |
| Util.FirstPass | util.c:198-207 | stopping after `length` matches or after all 2^64 words gives the same repeated sequence |
| Util.IsPrime | util.c:211-222 | the result is the table trial-division test |
| Util.PrimeAccepted | util.c:211-222 | every prime passes the test |
| Util.AcceptedPrime | util.c:211-222 | from 2 to below 193², passing the test means being prime |
| Util.AcceptedBeyondTable | util.c:211-222 | 193·193 passes the test without being prime |
| Util.AcceptedBelowTwo | util.c:211-222 | below 2 the test passes, though no such integer is prime |
| Util.TablePrime | util.c:9-13 | every table entry is prime |
| Util.TableComplete | util.c:9-13 | every prime below 193 is a table entry |
| Util.SearchPrime | util.c:235-237 | a search result below 193² is prime, and no integer from x up to it is |
| Util.SmallestPrimeGreaterOrEqual | util.c:225-239 | a value >= x that passes the test; up to 191 the least table entry >= x; above it, no smaller value >= x passes |
| Util.FirstTableEntry | util.c:227-233 | the least table entry >= x, which is the least prime >= x |
| Util.NextAccepted | util.c:235-238 | the least value >= x that passes the test |
| Combinatorics.BinomFactorial | util.c:142-172 | n! = C(n, k)·k!·(n-k)!, the closed form choose computes |
| Combinatorics.ChooseFactors | util.c:149-152 | the numerators k+1..n and denominators 1..n-k have ratio C(n, k) |
| Swar.SwarBytes | util.c:181-183 | after the three SWAR steps, each byte holds the population count of the same byte of x |
| Swar.TopCount | util.c:184 | the top byte of the final product is the population count of x |
| Swar.MaskBit | src/ru10.c:57-59 | masking with 1 << bit tests the same bit as shifting right by bit |
| Modular.Bezout | src/ru10.c:107-118 | the extended Euclidean algorithm: a·x + b·y is a common divisor of a and b |
| Modular.Inverse | src/ru10.c:107-118 | every a strictly between 0 and a prime p has an inverse modulo p |
| Modular.WalkStep | src/ru10.c:113 | the walk starts at b and each step adds a modulo p |
| Modular.ReachZero | src/ru10.c:107-118 | from any residue the walk reaches 0 within p - 1 steps |
| Ru10.TrialPrimeIsPrime | src/ru10.c:23-29 | from 2 on the trial-division test decides primality; below 2 every integer passes |
| Ru10.NextPrimeIsPrime | src/ru10.c:19-34 | from 2 on the search returns the least prime at or above its argument |
| Ru10.SmallestPrimeGreaterOrEqual | src/ru10.c:19-34 | the least integer from n on that passes the test |
| Ru10.PassesTrialDivision | src/ru10.c:23-29 | true exactly when no j >= 2 with j·j <= i divides i |
| Ru10.BitSet | src/ru10.c:57-59 | 1 when bit `bit` of num is set, else 0 |
| Ru10.SkipStops | src/ru10.c:107-109 | with p prime, 0 < a < p and l >= 1, the skip loop stops below l within p steps |
| Ru10.WalkedBelow | src/ru10.c:106-118 | max(d, 1) indices, clipped to l, each in 0..l-1 |
| Ru10.SkipBelow | src/ru10.c:107-109 | the skip loop ends with b below l |
| Ru10.WriteWalk | src/ru10.c:106-118 | the indices written are the walk, and nothing after them changes |
| Ru10.ExchangeSort | src/ru10.c:120-129 | the first n entries end sorted and a permutation of what they were; the rest unchanged |
| Ru10.PermutedBelow | src/ru10.c:120-129 | reordering keeps every value in 0..l-1 |
| Ru10.Step | src/ru10.c:98 | the step a lies in 1..p-1 |
| Ru10.Picked | src/ru10.c:90-118 | the chosen indices: max(d, 1) clipped to l, each below l |
| Ru10.PickIndices | src/ru10.c:90-132 | count is the clipped degree; the indices are the walk's, as a multiset, sorted ascending, all below l; nothing after them changes |
| Ru10.DrawWalk | src/ru10.c:92-104 | L' prime, a in 1..L'-1, b in 0..L'-1, d clipped to l, and the walk from them is the pick |
| Raptor.RandAsWritten | src/raptor.c:25-31 | as written, with byte tables: a value below m and below 256 |
| Raptor.Rand | src/raptor.c:25-31 | the table word modulo m, below m |
| Raptor.RandPositions | src/raptor.c:28-29 | the result depends only on V0[(x+i) mod 256] and V1[(x/256+i) mod 256]; 32-bit wrap never moves a position |
| Raptor.RandReaches | src/raptor.c:25-31 | with 32-bit tables every value below m is an output for some tables |
| Raptor.DegreeOf | src/raptor.c:35-36 | the step function of section 5.4.4.2 of RFC 5053, with values 1, 2, 3, 4, 10, 11 or 40 |
| Raptor.DegreeMonotone | src/raptor.c:34-43 | a larger v never gives a smaller degree |
| Raptor.Deg | src/raptor.c:34-43 | the loop returns the distribution's degree |
| Raptor.ByteDegreeIsOne | src/raptor.c:26-27 | with byte tables, the degree from the first draw is always 1 |
| Raptor.DegreeReachable | src/raptor.c:70-71 | with 32-bit tables every degree of the distribution can occur |
| Raptor.XFrom | src/raptor.c:49 | the least x' >= x with x'(x'-1) >= 2k |
| Raptor.HFrom | src/raptor.c:56 | the least h' >= h with C(h', h'/2) >= n |
| Raptor.SymbolsOf | src/raptor.c:46-58 | L == K + S + H |
| Raptor.SymbolsFacts | src/raptor.c:46-58 | for K >= 1, S is a prime >= 3, C(H, H/2) covers S + K, and L' is a prime >= L |
| Raptor.IntermediateSymbols | src/raptor.c:46-58 | the two searches with the prime search between them give SymbolsOf |
| Raptor.HSearch | src/raptor.c:55-56 | the search from ilog4(S + K) gives the least H |
| Raptor.TripleSeed | src/raptor.c:65-69 | the seed y of section 5.4.4.4 of RFC 5053, below 65521 |
| Raptor.TripleOf | src/raptor.c:61-74 | d in 1..40, a in 1..L'-1, b in 0..L'-1 |
| Raptor.TripleGenerator | src/raptor.c:61-74 | the method computes L and L' afresh and returns TripleOf |
| Raptor.LtIndices | src/raptor.c:77-104 | max(d, 1) clipped to L indices, each below L (skip test of section 5.4.4.3 of RFC 5053) |
| Raptor.LtIndicesAsWritten | src/raptor.c:85-99 | as written, the same count of indices, only known to be below L' |
| Raptor.LtWalk | src/raptor.c:78-85 | L, L' prime >= L, the triple and d clipped to L, whose walk is LtIndices |
| Raptor.FindLtIndices | src/raptor.c:77-104 | with the RFC skip test: the walk's indices as a multiset, sorted ascending |
| Raptor.FindLtIndicesAsWritten | src/raptor.c:77-104 | as written: the as-written walk's indices as a multiset, sorted ascending |
| Raptor.LtIndicesAsWrittenEscape | src/raptor.c:88-98 | for K = 1, symbol 0 and constant tables, L is 8 and the as-written index is 8, not an intermediate symbol; the RFC walk gives 6 |
| Binary.NewBinaryCodec | src/binary.c:12-20 | SourceBlocks of the new codec is the count it was made with |
| Binary.SourceBlocks | src/binary.c:18-20 | the count is all a codec holds: rebuilding a codec from it gives the same codec |
| Binary.RandomInt | binary.c:13-15 | 0 or 1, and 1 exactly when the draw is odd |
| Binary.SelectedIsRow | binary.c:28-36 | the chosen indices are strictly increasing, within 0..n-1, and at most n of them |
| Binary.SelectedMembers | binary.c:30-34 | block b is chosen exactly when 0 <= b < n and draw b after reseeding is odd |
| Binary.SameLowBits | binary.c:26 | IDs equal modulo 2^32 seed alike and choose the same blocks |
| Binary.PickIndices | src/binary.c:22-35 | the loop returns exactly the chosen blocks for the reseeded stream |
| Binary.BinaryDecoder.constructor | src/binary.c:50-58 | the codec, the message length, and a matrix of numSourceBlocks empty slots |
| Binary.BinaryDecoder.AddBlocks | src/binary.c:60-71 | stores nothing and returns true |
| Binary.BinaryDecoder.Decode | src/binary.c:73-84 | reduce, then lay out with partition's sizes; on a consistent system whose source blocks begin with the message's pieces, exactly the message |
| Binary.BinaryDecoder.DecodeWithoutReduce | binary.c:82-102 | the layout with partition's sizes; exactly the message when each slot's buffer begins with its piece |
| Binary.SolvedHoldPieces | src/binary.c:79-84 | after reduction every slot's buffer begins with its piece of the message |
| Mersenne.FoldSeedHalves | mersenne.c:26-28 | the 32-bit seed is the XOR of the 64-bit seed's two halves |
| Mersenne.InitRecurrence | mersenne.c:58-66 | word 0 is the seed and word i is 1812433253·(w ^ (w >> 30)) + i mod 2^32 of word i-1 |
| Mersenne.TwistRecurrence | mersenne.c:68-74 | the in-place twist as the MT19937 recurrence, each word read as it stands at that step |
| Mersenne.OutputsRun | mersenne.c:36-56 | from a seeded state at index 0 the next n <= 624 draws are the tempered words of the twisted table |
| Mersenne.CombineBits | mersenne.c:30-34 | int63's result is below 2^63, its top bits are the first draw without its lowest bit, its low 31 bits the second draw's |
| Mersenne.MersenneTwister.constructor | mersenne.c:20-24 | a generator seeded with the folded seed |
| Mersenne.MersenneTwister.SeedMT | mersenne.c:26-28 | initializeMT with the folded seed |
| Mersenne.MersenneTwister.InitializeMT | mersenne.c:58-66 | index 0, seeded, the table of InitRecurrence |
| Mersenne.MersenneTwister.GenerateUntempered | mersenne.c:68-74 | the table becomes its twist |
| Mersenne.MersenneTwister.Uint32 | mersenne.c:36-56 | seed with 4357 if needed, twist at index 0, return the tempered word and advance the index modulo 624 |
| Mersenne.MersenneTwister.Int63 | mersenne.c:30-34 | two draws combined; the state advanced twice |
| Mersenne.InitRecurrence64 | mersenne.c:129-137 | word i is 6364136223846793005·(w ^ (w >> 62)) + i mod 2^64 of word i-1 |
| Mersenne.TwistRecurrence64 | mersenne.c:173-179 | the in-place 64-bit twist as the MT19937-64 recurrence, offset 156 |
| Mersenne.ClearTopBit | mersenne.c:103-105 | int63_64's mask gives a value below 2^63 keeping every other bit |
| Mersenne.OutputsRun64 | mersenne.c:107-127 | from a seeded state at index 0 the next n <= 312 draws are the tempered words of the twisted table |
| Mersenne.CycleMod | mersenne.c:147-158 | the seedSliceMT64 cursor after k steps is k mod m |
| Mersenne.SeedSlice | mersenne.c:139-171 | the seeded table has 312 words and word 0 is 2^63 |
| Mersenne.MersenneTwister64.constructor | mersenne.c:93-97 | a generator seeded with the seed's two's-complement word |
| Mersenne.MersenneTwister64.SeedMT64 | mersenne.c:99-101 | the generator ends in the state InitializeMT64 gives the seed's 64-bit two's-complement word: index 0, seeded, the InitRecurrence64 table |
| Mersenne.MersenneTwister64.InitializeMT64 | mersenne.c:129-137 | index 0, seeded, the table of InitRecurrence64 |
| Mersenne.MersenneTwister64.SeedSliceMT64 | mersenne.c:139-171 | the table is SeedSlice of the seed words, index 0, seeded |
| Mersenne.MersenneTwister64.GenerateUntempered64 | mersenne.c:173-179 | the table becomes its 64-bit twist |
| Mersenne.MersenneTwister64.Uint64 | mersenne.c:107-127 | seed with 5489 if needed, twist at index 0, return the tempered word and advance the index modulo 312 |
| Mersenne.MersenneTwister64.Int63 | mersenne.c:103-105 | one draw with its top bit cleared |

## Left out

- Floating point: the soliton degree distributions of util.c and src/util.c, and the `sqrt`/`log` start values of `intermediate_symbols`. The start values are parameters (`isqrt`, `ilog4`), and only the integer loops are modelled.
- Luby.Fraction, Luby.PickDegree, Util.PickDegree: `double` is `real`; rounding of `rand_r(seed) / RAND_MAX` is not modelled.
- `rand`, `srand` and `rand_r` are foreign and are parameters; their bits are not modelled.
- Memory management is not modelled: `malloc`/`free` ownership, the `Free*` functions, and the wiring of `NewLubyCodec`'s function fields.
- fountain.c, src/online.c, the stub bodies of src/ru10.c and the Raptor codec entry points after `find_lt_indices` are not part of this model.
- The src/block.c `PartitionBytes` does not compile; partitioning follows block.c.
- Util.SampleUniform: returns the picks in draw order. The source then calls `qsort` with `strcmp` as comparator (util.c:109), which compares the ints' bytes as C strings. So the source promises no order, and only the set of picks, their number and their range carry over. The draws are a finite parameter: where the source keeps calling `rand()` until num values are picked, the model returns None when the given draws run out first. None therefore only means the draws were too short (Util.CollectEnough).
- Util.Factorial, Util.Choose, Util.ChooseAsWritten, Util.CenterBinomial, Util.CenterBinomialAsWritten: `int` overflow is not modelled; factorial already overflows at 13.
- Util.CenterBinomial: the source's centerBinomial calls the uncorrected choose, so it inherits the util.c:154-167 defect. That behaviour is Util.CenterBinomialAsWritten; Util.CenterBinomial is the corrected C(x, x / 2).
- Matrix.SparseMatrix.Reduce: src/block.c:163 tests k < sizeof(cj)/sizeof(int), as block.c:124 does, so the source examines only cj[1]. That behaviour is Matrix.ReduceAsWritten; Matrix.SparseMatrix.Reduce examines every entry after the lead.
- Util.BuildGraySequence: requires length >= 1, because for length <= 0 the source writes s[0] into a zero-length buffer. When no word has b bits set the source loops forever; the model returns `ends == false` instead.
- Block.Resize: the bytes `realloc` adds are uninitialised in C; here they are zero.
- Block.Chop, Block.PartitionBytes: past the input, a padded block's `malloc`-ed buffer is uninitialised in C; here it holds no bytes beyond the ones copied.
- Matrix.SparseMatrix.XorRow: the `-1` sentinel that `xorRow` reads to find the stored row's length (src/block.c:114) is never written by the source. The model takes the row's true length instead. The `indices_len + 100` output buffer is not modelled; Rows.MergeFits states exactly when the merge fits it.
- Matrix.SparseMatrix.AddEquation: uses the true length of the stored row, where the source uses sizeof(int*)/sizeof(int); see Findings.
- Matrix.SparseMatrix.Reconstruct: returns the filled prefix, numLong·lenLong + numShort·lenShort bytes, not the whole `totalLength`-byte buffer. With partition's sizes the two agree (Block.TotalsAddUp).
- Luby.LubyDecoder.Decode: requires blocks of one width w with K·w <= messageLength, because the `memcpy` at src/luby.c:202 writes K blocks at i·length whatever messageLength is.
- Luby.LubyDecoder.AddBlocks: stores a copy of each block's bytes. In the source, v aliases the caller's block data, so Decode's in-place `xorBlocks` also overwrites the caller's blocks. AddBlocks also requires size + |blocks| <= K and |cdf| <= K, since only K rows exist and a degree above K makes sampleUniform reduce modulo zero.
- Luby.LubyCodec.EncodeLTBlocks: takes the source blocks, not the message, so the `uint8_t**` to `block*` cast at src/luby.c:238 is not modelled.
- Raptor.TripleOf, Raptor.LtIndices, Raptor.TripleGenerator, Raptor.FindLtIndices: use 32-bit V0/V1 tables, where the source declares `uint8_t` ones (see Findings). They also take the symbol ID x as an unbounded number, where the source takes a `uint16_t`.
- Raptor.SymbolsOf, Raptor.IntermediateSymbols: `center_binomial` and `smallest_prime_greater_or_equal` are not defined for src/raptor.c. The model uses the exact binomial and the src/ru10.c prime search (Ru10.NextPrime).
- Ru10.PickIndices: requires l >= 2. For l = 1 the least prime at or above l is 1, and `rand() % (lprime - 1)` divides by zero. It also requires the output array to hold the indices, since maxIndices is never checked.
- Mersenne.MersenneTwister64.SeedSliceMT64: requires at least one seed word, because the source reads seed[0] even for an empty seed, and fewer than 2^31 words, the range of its `int` length.
- Binary.BinaryDecoder.constructor: requires numSourceBlocks >= 0 and leaves every slot empty. The source leaves the rows uninitialised.
- Binary.BinaryDecoder.Decode: requires every row to be present and every block to be at least as long as its piece, since otherwise the C code reads uninitialised rows or past buffers. AddBlocks stores no equation, so after it that precondition is not met; the decoder is only useful once rows are supplied.

## Findings

| source | as written | input that shows it | evidently intended | confidence | as-written member | corrected member |
|---|---|---|---|---|---|---|
| block.c:27-35 | `blockXor` grows b's buffer to a's length but never updates `b->length`, so the XOR-ed bytes are not counted | a full 1-byte block XOR-ed into a fresh 1-byte all-padding block: as written the result has length 0 and, with padding taken away, total length 0 | b's length becomes a's length when b grows | not executed | Block.BlockXorAsWritten, Block.BlockXorAsWrittenLosesBytes | Block.BlockXor |
| block.c:88-98 | the row-length test uses sizeof(int*)/sizeof(int), which is 2; a one-component row always takes the swap branch, and the swap does not swap the component count; the model adds rows with the corrected block XOR (Block.Xored), to keep this defect apart from the block.c:27-35 one | a row [s] whose slot s already holds a row: the two rows change places forever | compare with the stored row's length, and carry the count with the row | not executed | Matrix.InsertAsWritten, Matrix.InsertAsWrittenLoops | Matrix.Insert, Matrix.InsertSingleton |
| block.c:124 | the k loop runs while k < sizeof(cj)/sizeof(int), so only cj[1] is examined; the model adds rows with the corrected block XOR (Block.Xored), to keep this defect apart from the block.c:27-35 one | rows [0,1,2], [1], [2] with blocks 1⊕2⊕4, 2, 4: block 0 ends as 5 instead of 1 | examine every entry of row j after its lead | not executed | Matrix.ReduceAsWritten, Matrix.ReduceAsWrittenExample | Matrix.SparseMatrix.Reduce |
| src/block.c:163 | the same test in Reduce: the k loop runs while k < sizeof(cj)/sizeof(int), so only cj[1] is examined; the model adds rows with the corrected block XOR (Block.Xored), to keep this defect apart from the block.c:27-35 one | rows [0,1,2], [1], [2] with blocks 1⊕2⊕4, 2, 4: block 0 ends as 5 instead of 1 | examine every entry of row j after its lead | not executed | Matrix.ReduceAsWritten, Matrix.ReduceAsWrittenExample | Matrix.SparseMatrix.Reduce |
| util.c:154-167 | `choose` multiplies the numerators left after cancellation and ignores any denominator that divided no numerator; centerBinomial (util.c:137-139) calls it and inherits the defect | choose(12, 4) gives 1980, where C(12, 4) = 495; by hand, centerBinomial(16) gives 51480 = 4·C(16, 8) | divide the leftover denominators out | not executed | Util.ChooseAsWritten, Util.ChooseAsWrittenTwelveFour, Util.CenterBinomialAsWritten | Util.Choose, Util.CenterBinomial |
| src/raptor.c:88-97 | the skip loops test b >= lprime, which never holds after `% lprime`, where section 5.4.4.3 of RFC 5053 tests b >= L | K = 1, symbol ID 0, V0 all 8, V1 all 0: L = 8, L' = 11, and the index written is 8, not an intermediate symbol | skip while b >= L | not executed | Raptor.LtIndicesAsWritten, Raptor.LtIndicesAsWrittenEscape | Raptor.LtIndices, Raptor.FindLtIndices |
| src/raptor.c:26-27 | the V0/V1 tables are `uint8_t`, where section 5.4.4.1 of RFC 5053 has 32-bit words, so every draw is below 256 | any seed: the first draw is below 256 < 10241, so the degree is always 1 | 32-bit tables | not executed | Raptor.RandAsWritten, Raptor.ByteDegreeIsOne | Raptor.Rand, Raptor.DegreeReachable; Raptor.TripleOf, Raptor.TripleGenerator and Raptor.FindLtIndices are built only on the 32-bit Rand |
