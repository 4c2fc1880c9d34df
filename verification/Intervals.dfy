/**
 count_intervals: the number of maximal runs of equal bits over the whole capacity of a vector.
 */
module Intervals {
  import opened BitString
  import opened Gap
  import opened BitBlock
  import opened Blocks
  import opened Tree
  import opened TreeString
  import opened Vector
  import BitCount
  import GapEdit
  import GapRuns

  lemma ConstantRuns(v: bool)
    ensures RunCount(Constant(v)) == 1
  {
    ChangesConstant(Constant(v), 1, BLOCK_BITS);
  }

  /** The functor block_count_change_func. */
  class ChangeCounter {
    var count: nat
    var prevBorder: bool

    /** The runs of the blocks before position n of s are counted. */
    ghost predicate Counted(s: seq<bool>, n: nat)
      requires n <= |s|
      reads this
    {
      if n == 0 then count == 0 else count == Wrap32(1 + Changes(s, n)) && prevBorder == s[n - 1]
    }

    constructor ()
      ensures count == 0
    {
      count, prevBorder := 0, false;
    }

    /** block_count: the runs of a block, one less when the first continues the last of the block before. */
    method BlockCount(block: Block, idx: nat) returns (r: nat)
      requires WellFormed(block)
      modifies this`prevBorder
      ensures r == RunCount(Content(block)) - (if idx > 0 && old(prevBorder) == Content(block)[0] then 1 else 0)
      ensures prevBorder == Content(block)[LAST]
    {
      hide Changes, Bits, BitAt;
      var first, last;
      if block.Null? || block.Full? {
        ConstantRuns(block.Full?);
        r, first, last := 1, block.Full?, block.Full?;
      } else if block.GapBlk? {
        GapRuns.LengthIsRunCount(block.buf);
        r := Length(block.buf);
        first := GapEdit.Test(block.buf, 0);
        last := GapEdit.Test(block.buf, LAST);
      } else {
        var _, gapCount := BitCount.CountChange(block.bits);
        r, first, last := gapCount, WordAt(block.bits, 0)[0], WordAt(block.bits, BLOCK_WORDS - 1)[31];
      }
      if idx > 0 && prevBorder == first {
        r := r - 1;
      }
      prevBorder := last;
    }

    /** One call of the functor. */
    method Visit(block: Block, idx: nat, ghost s: seq<bool>)
      requires WellFormed(block) && BlockInside(s, BLOCK_BITS * idx, block) && Counted(s, BLOCK_BITS * idx)
      modifies this
      ensures Counted(s, BLOCK_BITS * idx + BLOCK_BITS)
    {
      hide Changes, Wrap32, Content;
      var r := BlockCount(block, idx);
      ghost var n := BLOCK_BITS * idx;
      ChangesAppend(s, n, Content(block));
      NothingCounted(s, 0);
      WrapTwice(if idx == 0 then 0 else 1 + Changes(s, n), r);
      count := Wrap32(count + r);
      assert s[n + LAST] == Content(block)[LAST] && s[n + 0] == Content(block)[0];
    }
  }

  /** count_intervals, in 32 bits; an empty top array is not visited at all. */
  method CountIntervals(v: BVector) returns (r: nat)
    requires v.Valid()
    ensures SUB_BITS * |v.tree| <= |Flat(v.tree)|
    ensures r == if |v.tree| == 0 then 0 else Wrap32(1 + Changes(Flat(v.tree), SUB_BITS * |v.tree|))
  {
    hide TreeOk, BlockAt, Changes, Members, Flat, BlockInside;
    EffectiveBound(v.tree, v.effTop, v.glen);
    ghost var s := Flat(v.tree);
    var func := new ChangeCounter();
    for i := 0 to |v.tree|
      invariant func.Counted(s, SUB_BITS * i)
    {
      for j := 0 to SUB_BLOCKS
        invariant func.Counted(s, BLOCK_BITS * (SUB_BLOCKS * i + j))
      {
        var nb := SUB_BLOCKS * i + j;
        FlatBlock(v.tree, nb);
        func.Visit(BlockAt(v.tree, nb), nb, s);
      }
    }
    r := func.count;
  }
}
