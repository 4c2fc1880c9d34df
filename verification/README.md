# A verified model of the BitMagic compressed bit vector

This project models `bm3.7.0/src`, the compressed bit vector that the belief states of DMCS are stored in, and proves that its
algorithms do to runs, words and blocks what the simple operation does to a set of positions.

A vector is a two-level tree of blocks of 65536 bits. A block is absent, the shared all-ones block, a plain block of 2048 words,
or a GAP block: a header word packing start bit, capacity level and length, followed by the last positions of the runs. The model
is built in layers, one module per concern:

- `Sequences`, `BitString`, `Gap`: sums; bit strings with their counts and orders; GAP buffers, the canonical form and what it denotes.
- `GapRuns`, `GapEdit`, `GapMerge`, `GapBlock`, `GapConvert`, `GapArray`, `GapFromArray`, `GapCount`, `DGap`, `RoundTrip`: the GAP algorithms.
- `BitBlock`, `BitCount`: plain blocks, word masks, counting.
- `Blocks`, `SparseAnd`, `Combine`, `RangeBuffer`, `Visitors`, `BlockCompare`: operations on single blocks of any kind.
- `Tree`, `TreeVisit`, `TreeString`, `Vector`: the tree of blocks and the class `BVector`, whose abstract value is a set.
- `VectorRun`, `VectorLimits`, `VectorCompare`, `BitSearch`, `Enumeration`, `Intervals`, `Distance`: whole runs, exact limits,
  order, search, enumeration, counts.
- `LevelTuning`, `MiniSets`, `BitPlanes`: the choice of a level table, the small set, the bit-plane codec.

The main results are `VectorRun.Run` (every run of operations agrees with a plain set and keeps the tree invariant),
`Vector.BVector.CombineOperation`, `GapEdit.SetValue`, `GapMerge.GapOperation`, `Enumeration.Enumerate`, `VectorCompare.Compare`,
`BitSearch.CheckOrNextExtract`, `Distance.DistanceOperation`, `Intervals.CountIntervals`, `BitPlanes.RoundTrip`,
`GapFromArray.SetArrayOrOneByOne`, `DGap.DGapRoundTrip`, `MiniSets.Run` and `LevelTuning.ImproveGapLevels`.

Choices of the model:

- The portable 32-bit paths are modelled. A word is the string of its 32 bits, so `&`, `|`, `^`, shifts and masks are written out on
  bits; `-diff` is a bit pattern proved to be the two's complement.
- 16-bit and 32-bit wrap-around is written out where the code can meet it: the D-GAP codec, the count of a listed buffer,
  the enumerator's run counter, positions in the searches, the interval count and the distance results.
- A level table has four capacities, at least 5, growing by at least 2, and at most 4096 (`Blocks.LevelTable`); both built-in tables
  do. The result of `improve_gap_levels` need not be one and is not used as one.
- Blocks in the tree are values. Algorithms that work in place run on arrays and are proved against functions of the old content.

Where the code differs from its description the code is followed:

- `gap_convert_to_arr` charges the first run one entry too little, so it accepts a list that fills the array exactly when the buffer
  starts with ones and has a later run of ones (`GapArray.HasRoom`). Into an array of 16-bit words it returns a 16-bit count, so the
  list of all 65536 positions is reported as empty.
- `bit_iblock_reduce` means to clear its output but clears the size of a pointer; the round trip does not depend on it.
- D-GAP coding always writes at least two elements; for buffers of one or two runs the extra one is ignored when decoding.
- `combine_operation`, except for AND, with an argument that is not longer but was shrunk, and whose effective size exceeds the own top
  array, indexes beyond that array; `VectorLimits` has the exact condition and such a pair. `distance_operation` has the same demand.
- `clear(true)` on a vector without top entries leaves an effective size of 1; the next walk over the tree would follow a null pointer.
  Freeing keeps the invariant exactly when there is a top entry.
- `check_or_next` indexes the top array without a bound; `inside` says when that is harmless.
- `count_intervals` counts over the capacity of the top array, not over the size, and is 0 when the top array is empty.

## Model

| member | source | states |
|---|---|---|
| `Gap.CanonicalUnique` | bm3.7.0/src/bmfunc.h:877-923 | two canonical run lists with the same 65536 bits are equal: a set of positions has one GAP form, which is what lets gapcmp compare words |
| `Gap.BitOfRun` | bm3.7.0/src/bmfunc.h:472-490 | in canonical runs the run holding a position is unique and its parity with the start bit gives the bit |
| `GapEdit.FindRun` | bm3.7.0/src/bmfunc.h:472-490 | the binary search returns the run that holds the position, and the bit there |
| `GapEdit.Test` | bm3.7.0/src/bmfunc.h:500-532 | the linear scan of short buffers and the search of long ones both return the bit |
| `GapEdit.SetValue` | bm3.7.0/src/bmfunc.h:1179-1259 | exactly bit pos becomes val, the buffer stays canonical at the same level, the new length is the number of runs of the new bits, the header's and at most two more, `changed` tells whether the bit was different, and an unchanged buffer is untouched |
| `GapEdit.FlipSplit` | bm3.7.0/src/bmfunc.h:1246-1252 | cutting a run in three around pos keeps the runs canonical and flips that bit only |
| `GapEdit.FlipMerge` | bm3.7.0/src/bmfunc.h:1221-1237 | removing a one-bit run between two others keeps the runs canonical and flips that bit only |
| `GapEdit.FirstInsertedWords` | bm3.7.0/src/bmfunc.h:1201-1209 | a first run of one bit in front, with the start bit inverted, flips bit 0 only |
| `GapEdit.FirstDeletedWords` | bm3.7.0/src/bmfunc.h:1210-1219 | removing the first run of one bit, with the start bit inverted, flips bit 0 only |
| `GapEdit.LeftBorderWords` | bm3.7.0/src/bmfunc.h:1221-1237 | moving the end of the previous run up to pos flips that bit only, also when the last run disappears by it |
| `GapEdit.RightBorderWords` | bm3.7.0/src/bmfunc.h:1238-1245 | moving the end of a run down from pos flips that bit only, also when a new last run appears by it |
| `GapEdit.SplitNeeds` | bm3.7.0/src/bmfunc.h:1246-1252 | cutting a run makes exactly two more runs, which is the room the edit needs |
| `GapRuns.NewRunsBound` | bm3.7.0/src/bmfunc.h:1179-1259 | changing one bit makes at most two more runs |
| `GapEdit.FlipFirst` | bm3.7.0/src/bmfunc.h:1201-1220 | the in-place edit for position 0 leaves ends that, closed by 65535, have that bit flipped only |
| `GapEdit.FlipLeftBorder` | bm3.7.0/src/bmfunc.h:1221-1237 | the same for a position right after the previous run |
| `GapEdit.FlipRightBorder` | bm3.7.0/src/bmfunc.h:1238-1245 | the same for the last position of a run |
| `GapEdit.SplitRun` | bm3.7.0/src/bmfunc.h:1246-1252 | the same for a position inside a run |
| `GapMerge.MergeRound` | bm3.7.0/src/bmfunc.h:966-1001 | one round of the two-pointer merge: what is written, that the written runs agree with the operation so far, and where both operands stand |
| `GapMerge.BuffOp` | bm3.7.0/src/bmfunc.h:943-1009 | the merge terminates with a canonical buffer of the masked operands' pointwise operation, shorter than both lengths together |
| `GapMerge.InvertedBuffer` | bm3.7.0/src/bmfunc.h:2331-2334 | flipping the start bit of the header complements all bits and nothing else |
| `GapMerge.GapOperation` | bm3.7.0/src/bmfunc.h:3197-3381 | AND, XOR, OR (by De Morgan masks and inversion) and SUB (by masking the second operand) denote the operation bit by bit |
| `BitBlock.RangeOp` | bm3.7.0/src/bmfunc.h:1502-1677 | setting, clearing or flipping a range through word masks changes exactly the bits of the range |
| `GapBlock.ApplyRuns` | bm3.7.0/src/bmfunc.h:1688-1806 | applying the runs of one value to a block changes exactly the positions holding that value |
| `GapBlock.OperationToBlock` | bm3.7.0/src/bmfunc.h:1688-1806 | AND (clearing the zero runs), OR, SUB, XOR of a block with a GAP buffer, in place, are the operation bit by bit |
| `GapBlock.ConvertToBlock` | bm3.7.0/src/bmfunc.h:2155-2190 | the block holds the buffer's bits, for a shorter block too as long as the ones fit |
| `GapConvert.ConvertToGap` | bm3.7.0/src/bmfunc.h:2533-2615 | returns the exact number of runs when below dest_len and 0 otherwise; on success the buffer is canonical, of level 0 and denotes the block |
| `GapRuns.LengthIsRunCount` | bm3.7.0/src/bmfunc.h:2813-2860 | the length of a canonical buffer is the number of runs of its bits |
| `RoundTrip.ExpandCompress` | bm3.7.0/src/bmfunc.h:2533-2615 | GAP to bits to GAP gives back start bit and every run end whenever the length is below dest_len, and 0 exactly otherwise |
| `RoundTrip.CompressExpand` | bm3.7.0/src/bmfunc.h:2155-2159 | bits to GAP to bits is the identity exactly when the run count, which bit_count_change32 also finds, is below dest_len |
| `BitCount.CountOrAnd` | bm3.7.0/src/bmfunc.h:2762-2775 | ones of a|b plus ones of a&b are the ones of a plus those of b |
| `BitCount.CalcCount` | bm3.7.0/src/bmfunc.h:2737-2780 | the accumulator scheme counts every one exactly once |
| `BitCount.PopGray` | bm3.7.0/src/bmfunc.h:2830-2833 | the population of w ^ (w >> 1) is the number of changes in w plus its top bit |
| `BitCount.CountChange` | bm3.7.0/src/bmfunc.h:2813-2860 | one pass gives the number of ones and the number of runs |
| `BitCount.CalcCountRange` | bm3.7.0/src/bmfunc.h:2961-3016 | the masked count is the number of ones between two positions, both included |
| `GapArray.BitCount` | bm3.7.0/src/bmfunc.h:689-714 | the sum of the one-run lengths is the number of ones |
| `GapArray.ToArray` | bm3.7.0/src/bmfunc.h:2678-2724 | lists the ones, or with invert the zeros, in increasing order exactly when HasRoom holds, returning their number in 16 bits, and returns 0 otherwise; the first run is charged one entry too little, so a full array is accepted in one case |
| `GapFromArray.SetArray` | bm3.7.0/src/bmfunc.h:1357-1404 | the buffer of a strictly increasing array is canonical, keeps its level and has ones exactly at the values |
| `GapFromArray.RunsOfMarks` | bm3.7.0/src/bmfunc.h:1417-1434 | the runs of the set are what bit_array_compute_gaps counts, plus a last run of zeros if any |
| `GapFromArray.SetOneByOne` | bm3.7.0/src/bmfunc.h:1179-1259 | setting the values one by one from the empty buffer gives a buffer with ones exactly at the values, as long as the runs at every moment fit the buffer and the 13-bit length |
| `GapFromArray.SameWords` | bm3.7.0/src/bmfunc.h:1357-1404 | same bits and level: the same header and run ends, word for word |
| `GapFromArray.SetArrayOrOneByOne` | bm3.7.0/src/bmfunc.h:1357-1404 | gap_set_array and repeated gap_set_value give the same words |
| `GapFromArray.ArrayRoundTrip` | bm3.7.0/src/bmfunc.h:2678-2724 | gap_convert_to_arr gives back the array gap_set_array was given exactly when it has fewer than 65536 values; for all 65536 the 16-bit count is 0 and nothing comes back |
| `GapFromArray.AllPositions` | bm3.7.0/src/bmfunc.h:2678-2724 | such an array exists, and is one run |
| `GapFromArray.AboveAll` | bm3.7.0/src/bmfunc.h:1272-1342 | a position above all ones lies in the last run, a run of zeros; so the deleting and merging branches are never reached |
| `GapFromArray.AddValue` | bm3.7.0/src/bmfunc.h:1272-1342 | sets exactly that bit and keeps the buffer canonical |
| `GapFromArray.AddOrSetValue` | bm3.7.0/src/bmfunc.h:1272-1342 | gap_add_value above all ones and gap_set_value give the same words |
| `DGap.ToDGap` | bm3.7.0/src/bmfunc.h:772-823 | two words for at most three runs, else one less than the runs; the first k of them add up, in 16 bits, to run end k plus one |
| `DGap.TotalOfDeltas` | bm3.7.0/src/bmfunc.h:772-786 | added up in 16 bits, the first end plus one and the differences give every end plus one, for any buffer |
| `DGap.SumsOfDeltas` | bm3.7.0/src/bmfunc.h:837-866 | summing the differences modulo 2^16 gives back the run ends, the overflowed first element included |
| `DGap.FromDGap` | bm3.7.0/src/bmfunc.h:837-866 | header, then ends whose k-th, plus one, is the 16-bit total of the first k elements, then 65535 |
| `DGap.SumsTotal` | bm3.7.0/src/bmfunc.h:837-866 | the summed ends are these totals less one, for any elements |
| `DGap.DGapRoundTrip` | bm3.7.0/src/bmfunc.h:772-866 | GAP to D-GAP to GAP reproduces header and all run ends for every canonical buffer, with the header in the stream or passed aside |
| `LevelTuning.LevelIsFirstFit` | bm3.7.0/src/bmfunc.h:2461-2470 | gap_calc_level finds the first capacity that leaves four words |
| `LevelTuning.GapOverhead` | bm3.7.0/src/bmfunc.h:4858-4875 | with the lengths it adds up to the capacities that gap_calc_level gives them, and is at least four words a block |
| `LevelTuning.OverheadMeaning` | bm3.7.0/src/bmfunc.h:4858-4875 | the same for the first n blocks |
| `LevelTuning.TryLevel` | bm3.7.0/src/bmfunc.h:4920-4945 | the level holds the last of the lengths with the least overhead when one is not worse than the old table, which is what improved reports, else the table is unchanged; no length tried gives less |
| `LevelTuning.TidiedSame` | bm3.7.0/src/bmfunc.h:4954-4971 | removing equal neighbours and filling the tail changes neither what fits nor the overhead |
| `LevelTuning.Tidy` | bm3.7.0/src/bmfunc.h:4954-4971 | every stretch of equal entries becomes one, in order and with none lost, and the rest is 1280 |
| `LevelTuning.CompactCollapses` | bm3.7.0/src/bmfunc.h:4954-4965 | removing equal neighbours leaves no two, the same elements, and each in its place |
| `LevelTuning.ImproveGapLevels` | bm3.7.0/src/bmfunc.h:4885-4975 | every length fits the resulting table; in the trivial case it is max_len + 4 and 1280s, else the tidied outcome of searching levels 2, 1 and 0 in turn from the old table with its last level set to max_len + 5, with no more overhead than that table or any length tried first; improved tells whether a level gained |
| `Blocks.AllocatedFits` | bm3.7.0/src/bmblocks.h:1355-1374 | copying to another level keeps the bits and obeys the capacity rule of that level |
| `Blocks.ExtendGap` | bm3.7.0/src/bmblocks.h:1233-1254 | a buffer over its limit by up to two words moves to the next level, or to bits at the last level or from 1280 words on, with the same content, and obeys the capacity rule again |
| `Blocks.AllSameBits` | bm3.7.0/src/bmfunc.h:2363-2380 | the header and the first end decide whether all bits are equal |
| `Blocks.BlockOp` | bm3.7.0/src/bmfunc.h:3457-3477 | the word loop is the operation bit by bit |
| `Blocks.PlainOperation` | bm3.7.0/src/bmfunc.h:3813-4328 | two plain blocks, null and all-ones ones included, are combined bit by bit |
| `Blocks.SetInGapBlock` | bm3.7.0/src/bm.h:2148-2168 | one bit is set or cleared; the block stays at its level while the runs are within the threshold, else goes one level up or to bits, and satisfies the capacity rule |
| `Blocks.AssignGap` | bm3.7.0/src/bm.h:2696-2733 | a GAP result is stored with the same content at the current level if it fits there, else at the lowest level that holds it, or as bits exactly when none does |
| `Blocks.CombineGaps` | bm3.7.0/src/bm.h:2665-2734 | two GAP blocks of any levels are combined bit by bit, and the block is dropped exactly when nothing is left |
| `SparseAnd.AndSparse` | bm3.7.0/src/bm.h:2752-2815 | AND through the list of fewer than 128 ones is the AND, whatever levels the new block goes through, and of level 0 when the ones surely fit there |
| `Combine.CombineGapWithPlain` | bm3.7.0/src/bm.h:2735-2818 | a GAP block against a plain one: the operation bit by bit, and the kind of block the path taken leaves |
| `Combine.CombineBlocks` | bm3.7.0/src/bm.h:2637-2942 | for any two kinds of block and any operation the result block is well formed for the level table and each of its bits is the operation on the two operand bits |
| `RangeBuffer.InitRangeBits` | bm3.7.0/src/bmfunc.h:2281-2322 | the two to four word buffer has the value on the range and its complement elsewhere |
| `Visitors.AllWords` | bm3.7.0/src/bmfunc.h:3113-3147 | tells whether all bits are zeros, or ones |
| `Visitors.OptimizeBlock` | bm3.7.0/src/bmblocks.h:319-490 | the bits and the capacity rule are kept; all-zero and all-one blocks are dropped or shared as the mode says, and in compressing mode a bit block becomes a GAP block of its run count at the lowest level exactly when it has fewer runs than the last level takes |
| `Visitors.RelevelBlock` | bm3.7.0/src/bmblocks.h:255-315 | a block moved to another level table keeps its bits and obeys that table, at the lowest level that holds it, or as bits when none does |
| `Visitors.InvertBlock` | bm3.7.0/src/bmblocks.h:493-526 | every bit is complemented; null and full are exchanged, GAP blocks keep length and level |
| `Visitors.ZeroBlock` | bm3.7.0/src/bmblocks.h:529-549 | the block is emptied in place, keeping kind and level; a full one is dropped |
| `Tree.PlacedBlock` | bm3.7.0/src/bmblocks.h:1078-1110 | placing a block changes that block only, growing the top array as needed, and keeps the tree invariant |
| `Tree.CombinedMembers` | bm3.7.0/src/bm.h:2510-2631 | block-wise combination of two trees is the set operation on their members |
| `Tree.RangeSetPart` | bm3.7.0/src/bm.h:2947-3041 | combining a block with the buffer of a range extends the range set so far by exactly that part |
| `Tree.RangeSetMembers` | bm3.7.0/src/bm.h:2947-3041 | a tree with a range set, or cleared, holds the union, or difference, with the interval |
| `TreeVisit.VisitTree` | bm3.7.0/src/bmfunc.h:628-651 | a functor is applied to every block, null ones only for inversion, and the tree obeys the functor's level table |
| `TreeVisit.SettledBlock` | bm3.7.0/src/bmblocks.h:255-490 | every block of a visited tree is of the kind the functor chooses |
| `TreeVisit.VisitedMembers` | bm3.7.0/src/bmblocks.h:255-490 | optimisation and a new level table leave the set as it is, zeroing empties it |
| `Vector.BVector.constructor` | bm3.7.0/src/bmblocks.h:634-651 | an empty vector with the fewest top entries whose bits exceed its size, and the given block strategy |
| `Vector.TopSize` | bm3.7.0/src/bmblocks.h:692-703 | no top entry for size 0, else the shortest top array whose bits exceed the size |
| `Vector.BVector.FreshBlock` | bm3.7.0/src/bmblocks.h:946-985 | a GAP block exactly for the GAP strategy, with all bits as asked |
| `Vector.BVector.SetBlock` | bm3.7.0/src/bmblocks.h:1078-1110 | one block is replaced and the tree invariant kept |
| `Vector.BVector.SetBitNoCheck` | bm3.7.0/src/bm.h:2129-2197 | the set gains or loses that position only; the result tells whether it changed; the tree invariant and so the capacity rule are kept, and the effective size grows just to reach a changed position |
| `Vector.BVector.SetBit` | bm3.7.0/src/bm.h:957-961 | the same, with all members below the size |
| `Vector.BVector.GetBit` | bm3.7.0/src/bm.h:1803-1833 | true exactly for the members of the set |
| `Vector.BVector.CombineAt` | bm3.7.0/src/bm.h:2637-2942 | one block becomes the operation of itself and the argument, all other blocks keep their bits |
| `Vector.BVector.SetRangeNoCheck` | bm3.7.0/src/bm.h:2947-3041 | the set gains or loses exactly the interval, across partial and whole blocks |
| `Vector.BVector.SetRange` | bm3.7.0/src/bm.h:1624-1642 | the same with the ends in either order |
| `Vector.BVector.CombineOperation` | bm3.7.0/src/bm.h:2510-2631 | this becomes the set operation of both vectors, of any two sizes and any mix of blocks, has the larger size and the stretched top array; asked is only that the scan stays inside that array |
| `VectorLimits.CombineStaysInside` | bm3.7.0/src/bm.h:2510-2563 | the scan of the top entries stays inside the own, stretched top array exactly for AND, for a longer argument, or when the argument's effective size does not exceed it |
| `VectorLimits.ShrunkArgument` | bm3.7.0/src/bm.h:2510-2563 | two valid vectors, sizes 100 and 10, whose OR, XOR and SUB scan beyond the own top array, because the argument once had bit 30000000 |
| `VectorLimits.DistanceStaysInside` | bm3.7.0/src/bmalgo_impl.h:692-769 | the scan of distance_operation stays inside the first vector's top array exactly when the second's effective size does |
| `Vector.BVector.Resize` | bm3.7.0/src/bm.h:1669-1682 | the members below the new size remain; a longer top array is the shortest for the new size, and the effective size stays |
| `Vector.BVector.Invert` | bm3.7.0/src/bm.h:1780-1799 | the complement within the size |
| `Vector.BVector.Optimize` | bm3.7.0/src/bm.h:1837-1875 | the set is unchanged, the invariant kept, and every block is of the kind and level the mode asks for |
| `Vector.BVector.SetGapLevels` | bm3.7.0/src/bm.h:1900-1909 | the set is unchanged, and every block obeys the new table at the lowest level that holds it |
| `Vector.BVector.Clear` | bm3.7.0/src/bmblocks.h:990-1004 | the set is empty; freeing leaves an effective size of 1, so the vector stays valid exactly when its top array is not empty; without freeing every block keeps its kind, full ones being dropped |
| `VectorLimits.ClearedEmpty` | bm3.7.0/src/bmblocks.h:1526-1538 | a vector of size 0 is not valid after clearing with freeing: effective size 1, no top entry |
| `Vector.CapacityRule` | bm3.7.0/src/bmblocks.h:1233-1254 | in every valid vector each GAP block has its level's capacity and a length at most that minus 4, so an edit of two more words stays inside |
| `VectorRun.Execute` | bm3.7.0/src/bm.h:2129-2197 | one operation on the vector is one step on a size, a number of top entries and a set |
| `VectorRun.Run` | bm3.7.0/src/bm.h:1781-1909 | over every sequence of set, clear, range, binary, resize, invert, optimise, level and clear-all commands the invariant holds and the size, the top array's length and the content are what the same steps make of two numbers and a plain set |
| `Tree.WrapPeriod` | bm3.7.0/src/bm.h:2354-2412 | positions are added in 32 bits: the sum repeats every 2^32 and is exact below |
| `BitSearch.FindInGap` | bm3.7.0/src/bmfunc.h:1447-1465 | the first one of a GAP block from a bit on, or the start of the next block in 32 bits |
| `BitSearch.CountToOne` | bm3.7.0/src/bmfunc.h:4473-4481 | shifting stops at the lowest one from the given bit on |
| `BitSearch.FindInBits` | bm3.7.0/src/bmfunc.h:4456-4493 | the first one of a bit block from a bit on, or the start of the next block in 32 bits |
| `BitSearch.CheckOrNext` | bm3.7.0/src/bm.h:2354-2412 | stays inside the top array exactly when that has all 256 entries or a member lies at or above p, and then terminates with the least such member, or 0 when there is none, through the wrap of the position to 0 |
| `BitSearch.ExtractFrom` | bm3.7.0/src/bm.h:2445-2499 | one block: the first one found is cleared and nothing else, or nothing changes |
| `BitSearch.CheckOrNextExtract` | bm3.7.0/src/bm.h:2417-2506 | the same position under the same condition, and that member only is removed |
| `Enumeration.BitList` | bm3.7.0/src/bmfunc.h:4503-4562 | the ones of a word in increasing order |
| `Enumeration.SearchGap` | bm3.7.0/src/bm.h:674-718 | the first one of a GAP block, with what is left of its run modulo 2^16 |
| `Enumeration.NextInGap` | bm3.7.0/src/bm.h:547-573 | the next one of a GAP block through the 16-bit countdown, which is right for a run of 65536 as well |
| `Enumeration.SearchWords` | bm3.7.0/src/bm.h:637-672 | the first one from a word on, with its word unpacked |
| `Enumeration.NextInBits` | bm3.7.0/src/bm.h:510-546 | the next one of a plain block, from the unpacked word or from later words |
| `Enumeration.Enumerator.GoFirst` | bm3.7.0/src/bm.h:435-498 | the least member, or the invalid position when the set is empty |
| `Enumeration.Enumerator.GoUp` | bm3.7.0/src/bm.h:500-633 | the least member above the current one, or the invalid position |
| `Enumeration.Enumerate` | bm3.7.0/src/bm.h:385-718 | the values taken until the enumerator becomes invalid are exactly the members, in strictly increasing order |
| `Intervals.ChangeCounter.BlockCount` | bm3.7.0/src/bmblocks.h:159-206 | the runs of a block of any kind, less one when its first run continues the block before |
| `Intervals.ChangeCounter.Visit` | bm3.7.0/src/bmblocks.h:210-213 | the carried border bit and the count stay right over one more block |
| `Intervals.CountIntervals` | bm3.7.0/src/bmalgo_impl.h:1441-1450 | one plus the number of unequal neighbours over the whole capacity, in 32 bits; 0 for an empty top array |
| `TreeString.FlatMembers` | bm3.7.0/src/bmfunc.h:628-651 | the string of all bits of a tree is the characteristic string of its set |
| `BlockCompare.NegateIsMinus` | bm3.7.0/src/bmfunc.h:2500-2518 | the bit pattern used for -diff is subtraction from 2^n |
| `BlockCompare.LowestOne` | bm3.7.0/src/bmfunc.h:2500-2518 | diff & -diff is the lowest one of diff |
| `BlockCompare.BitCmp` | bm3.7.0/src/bmfunc.h:2500-2518 | the sign of the first difference from bit 0 on |
| `BlockCompare.RunDiffers` | bm3.7.0/src/bmfunc.h:877-923 | the first differing run end decides the order, by the value of that run |
| `BlockCompare.GapCmp` | bm3.7.0/src/bmfunc.h:877-923 | comparing run ends is the lexicographic order of the bits |
| `BlockCompare.CompareBlocks` | bm3.7.0/src/bm.h:1936-2030 | two blocks of any kinds are ordered by their bits |
| `VectorCompare.Compare` | bm3.7.0/src/bm.h:1913-2038 | negative, zero or positive exactly as the first set is below, equal to or above the second in the order of the lowest differing position |
| `VectorCompare.LessAsymmetric` | bm3.7.0/src/bm.h:1913-2038 | the order is asymmetric and excludes equality |
| `VectorCompare.LessTransitive` | bm3.7.0/src/bm.h:1913-2038 | the order is transitive |
| `VectorCompare.LessTotal` | bm3.7.0/src/bm.h:1913-2038 | two different sets are ordered one way or the other |
| `GapCount.BuffCountOp` | bm3.7.0/src/bmfunc.h:1095-1163 | the count merge gives the number of ones of the pointwise operation without building it |
| `GapCount.CountUnder` | bm3.7.0/src/bmfunc.h:1817-1909 | the ones of a block under the one-runs, or the zero-runs, are the ones of the AND, or SUB |
| `GapCount.CountRuns` | bm3.7.0/src/bmfunc.h:1958-2076 | summing run by run gives the ones of the OR, or XOR |
| `GapCount.BlockOpCount` | bm3.7.0/src/bmfunc.h:3491-3527 | the ones of the operation on two bit blocks |
| `Distance.CountBlocks` | bm3.7.0/src/bmalgo_impl.h:116-321 | each of the seven metrics on two blocks of any kinds is the number of ones of its bit string |
| `Distance.MetricCardinality` | bm3.7.0/src/bmalgo_impl.h:51-64 | counted over all bits a metric is the cardinality of the set operation it names |
| `Distance.DistanceOperation` | bm3.7.0/src/bmalgo_impl.h:692-769 | every descriptor is increased, in 32 bits, by the cardinality of the set its metric names |
| `Distance.DistanceAnd` | bm3.7.0/src/bmalgo_impl.h:783-826 | the cardinality of the intersection, for any two sizes, in 32 bits |
| `BitPlanes.Transpose` | bm3.7.0/src/bmtrans.h:294-313 | bit e of plane j is bit j of word e, for as many columns as arr_size words fill, and the rest of the matrix is untouched |
| `BitPlanes.TRestore` | bm3.7.0/src/bmtrans.h:327-339 | word e is gathered from bit e of every plane |
| `BitPlanes.TransposeUndone` | bm3.7.0/src/bmtrans.h:294-339 | words gathered from the planes of an array are the array |
| `BitPlanes.MatrixDistance` | bm3.7.0/src/bmtrans.h:352-384 | populations on the diagonal, Hamming distances right of it |
| `BitPlanes.MakePcv` | bm3.7.0/src/bmtrans.h:418-471 | every descriptor is the one its row calls for: all zero, all one, dense, equal or close to the first nearest later row, or none |
| `BitPlanes.DescribedExactly` | bm3.7.0/src/bmtrans.h:418-471 | neither constant nor dense, a row is coded equal exactly when a later row is equal, close exactly when none is but one is nearer than it has ones, and refers to the nearest |
| `BitPlanes.DescribedSound` | bm3.7.0/src/bmtrans.h:386-416 | such a descriptor tells the truth about the row and refers to a later row only |
| `BitPlanes.Reduce` | bm3.7.0/src/bmtrans.h:554-595 | top-down and in place, a close row becomes ones exactly where it and the row referred to differ, as many as their distance; the others stay |
| `BitPlanes.ReductionPays` | bm3.7.0/src/bmtrans.h:418-471 | every row described as close has fewer ones after reduction than before |
| `BitPlanes.ReduceTo` | bm3.7.0/src/bmtrans.h:497-548 | uncompressed rows are copied and close rows become their differences; the others keep what was in the output, but for the two words of row 0 that the memset clears |
| `BitPlanes.Restore` | bm3.7.0/src/bmtrans.h:601-651 | bottom-up and in place: zeros, ones, the restored row referred to, or the bits that differ from the stored ones exactly at the ones of that row |
| `BitPlanes.RestoreUndoesReduce` | bm3.7.0/src/bmtrans.h:601-651 | restoring gives the original row from any matrix that carries the reduced rows, whatever the discarded rows hold |
| `BitPlanes.RoundTrip` | bm3.7.0/src/bmtrans.h:294-651 | the whole codec, with all discarded rows overwritten by arbitrary data, returns the first arr_size words |
| `BitPlanes.RoundTripApart` | bm3.7.0/src/bmtrans.h:497-548 | the same with the reduced rows in a matrix of their own, whatever that held before |
| `MiniSets.SetInWords` | bm3.7.0/src/bmvmin.h:121-137 | gap_set_value inside the fixed 128 words: the members change as asked and at least two words stay free |
| `MiniSets.Convert` | bm3.7.0/src/bmvmin.h:194-205 | the bit buffer has the same members |
| `MiniSets.MiniSet.Test` | bm3.7.0/src/bmvmin.h:95-104 | true exactly for members, in every representation |
| `MiniSets.MiniSet.Set` | bm3.7.0/src/bmvmin.h:106-138 | exactly that member is added or removed; the GAP buffer becomes a bit buffer exactly when the new runs exceed 124, and a bit buffer stays one |
| `MiniSets.MiniSet.Copy` | bm3.7.0/src/bmvmin.h:67-81 | the copy has the same members |
| `MiniSets.MiniSet.Swap` | bm3.7.0/src/bmvmin.h:149-157 | the members are exchanged |
| `MiniSets.Run` | bm3.7.0/src/bmvmin.h:58-210 | over every sequence of set, clear, copy and swap on two sets the members are those of two plain sets |

## Left out

- DMCS itself: clients, servers, joiners, option parsing and threads around the bit vector.
- SSE2, SSE4 and 64-bit variants, inline assembly, alignment and prefetch; the popcount byte table, which is taken as the number of ones.
- Cached counts (BMCOUNTOPT), statistics and memory accounting, printing, random subsets, serialization.
- Pointer tagging, allocation and freeing: a block is a value of a datatype, the shared all-ones block one of its cases. Sharing and
  aliasing of block memory are not captured; a vector combined with itself is not modelled.
- Copying, swapping and assigning vectors, `insert_iterator`, `counted_enumerator`, `count_range`, `count_blocks`: easy next to the rest.
- `optimize_gap_size`: it feeds the result of `improve_gap_levels` to `set_gap_levels`, which is outside the level-table rule.
- `and_bit_no_check`, `combine_or`, `combine_sub`, `combine_and_sorted`, `gap_bitset_xor_any`, `gap_bitset_or_any` and the descriptor step
  of `gap_transpose_engine`: their code does not do what they are for.
- The `any` forms of the distance metrics, which only ask whether the count is zero.
- The 8-bit and 16-bit transpositions, and reducing to fewer effective columns: the codec is modelled for words of 32 bits.
- LevelTuning.ImproveGapLevels: for lengths up to 65530, so that adding 5 stays in 16 bits; a GAP length is below 8192.
- LevelTuning.GapOverhead: adds up without the 32-bit bound, which the number and length of blocks in a vector cannot reach.
- DGap.ToDGap: the words are appended to a sequence instead of written through a pointer.
