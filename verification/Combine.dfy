/**
 Combining two blocks of any kinds: combine_operation_with_block.
 */
module Combine {
  import opened BitString
  import opened Gap
  import opened BitBlock
  import opened Blocks
  import GapArray
  import GapBlock
  import SparseAnd

  /**
   What kind of block a GAP block becomes with a plain one: itself or nothing against a null block; for AND with
   fewer than 128 ones a GAP block, of level 0 when the ones surely fit there, or bits; else a plain block.
   */
  ghost predicate KindWithPlain(op: BoolOp, blk: Block, arg: Block, glen: seq<GapWord>, r: Block)
    requires LevelTable(glen) && blk.GapBlk? && WellFormed(blk)
  {
    var count := Count(Content(blk), 0, BLOCK_BITS);
    if arg.Null? then r == (if op == And then Null else blk)
    else if op == And && count < 128 then
      (r.GapBlk? || r.BitBlk?) && (2 * count + 1 <= glen[0] - 4 ==> SparseAnd.Lowest(r, glen[0] - 4))
    else IsPlain(r)
  }

  /** Own block GAP, argument not. */
  method CombineGapWithPlain(op: BoolOp, blk: Block, arg: Block, glen: seq<GapWord>) returns (r: Block)
    requires LevelTable(glen) && blk.GapBlk? && BlockOk(blk, glen) && IsPlain(arg)
    ensures BlockOk(r, glen) && Combined(op, blk, arg, r) && KindWithPlain(op, blk, arg, glen, r)
  {
    if arg.Null? {
      r := if op == And then Null else blk;
      assert Content(r) == Pointwise(op, Content(blk), Content(arg));
      return;
    }
    if op == And {
      var count := GapArray.BitCount(blk.buf);
      if count < 128 {
        r := SparseAnd.AndSparse(blk.buf, Memory(arg), glen);
        return;
      }
    }
    var dst := NewBitBlock(blk.buf);
    r := PlainOperation(op, dst, arg);
  }

  /** Own block plain, argument GAP. */
  method CombinePlainWithGap(op: BoolOp, blk: Block, arg: Block) returns (r: Block)
    requires IsPlain(blk) && arg.GapBlk? && WellFormed(arg)
    ensures IsPlain(r) && Combined(op, blk, arg, r)
    ensures blk.Null? && (op == And || op == Sub) ==> r.Null?
  {
    if blk.BitBlk? {
      var a := new bool[BLOCK_BITS](i requires 0 <= i < BLOCK_BITS => blk.bits[i]);
      assert a[..] == blk.bits;
      GapBlock.OperationToBlock(op, a, arg.buf);
      r := BitBlk(a[..]);
    } else {
      var src := ToPlain(arg.buf);
      r := PlainOperation(op, blk, src);
    }
  }

  /** Nothing OR, or XOR, a GAP block: the argument is copied at the level it needs here. */
  method AdoptGap(op: BoolOp, arg: Block, glen: seq<GapWord>) returns (r: Block)
    requires LevelTable(glen) && (op == Or || op == Xor) && arg.GapBlk? && WellFormed(arg)
    ensures BlockOk(r, glen) && Combined(op, Null, arg, r)
  {
    r := AssignGap(arg.buf, glen, Null);
    assert Content(r) == Pointwise(op, Content(Null), Content(arg));
  }

  /** Block `blk op= arg` for any two kinds of block, with every shortcut, conversion and change of kind. */
  method CombineBlocks(op: BoolOp, blk: Block, arg: Block, glen: seq<GapWord>) returns (r: Block)
    requires LevelTable(glen) && BlockOk(blk, glen) && WellFormed(arg)
    ensures BlockOk(r, glen) && Combined(op, blk, arg, r)
    ensures blk.Null? && (op == And || op == Sub) ==> r.Null?
  {
    hide Combined, Fits, Valid, LevelTable, Pointwise;
    if (op == Or || op == Xor) && blk.Null? && arg.GapBlk? {
      r := AdoptGap(op, arg, glen);
    } else if blk.GapBlk? {
      if arg.GapBlk? {
        r := CombineGaps(op, blk, arg, glen);
      } else {
        r := CombineGapWithPlain(op, blk, arg, glen);
      }
    } else if arg.GapBlk? {
      r := CombinePlainWithGap(op, blk, arg);
    } else {
      r := PlainOperation(op, blk, arg);
    }
  }
}
