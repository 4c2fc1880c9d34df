/**
 The compressed bit vector: single bits, ranges, binary operations, inversion, optimisation.

 One class stands for bvector and the blocks manager it embeds.
 */
module Vector {
  import opened BitString
  import opened Gap
  import opened BitBlock
  import opened Blocks
  import opened Tree
  import Combine
  import GapEdit
  import RangeBuffer
  import TreeVisit
  import Visitors

  /** The size of the top array for a vector of the given size (compute_top_block_size). */
  function TopSize(size: nat): (t: nat)
    requires size <= ID_MAX
    ensures t <= SUB_BLOCKS && size <= SUB_BITS * t && Shortest(t, size)
  {
    if size == 0 then 0 else size / SUB_BITS + 1
  }

  /** The fewest top entries whose bits exceed the size; none for size 0. */
  predicate Shortest(top: nat, size: nat) {
    if size == 0 then top == 0 else top > 0 && SUB_BITS * (top - 1) <= size < SUB_BITS * top
  }

  lemma TopSizeMonotone(a: nat, b: nat)
    requires a <= b <= ID_MAX
    ensures TopSize(a) <= TopSize(b)
  {
  }

  function Larger(a: nat, b: nat): (r: nat)
    ensures a <= r && b <= r && (r == a || r == b)
  {
    if a < b then b else a
  }

  /** How many top entries combine_operation scans: the larger effective size, for AND the own one. */
  function ScanTop(op: BoolOp, effTop: nat, argTop: nat): nat {
    if effTop < argTop && op != And then argTop else effTop
  }

  /** The length of the own top array after it has been stretched for a longer argument. */
  function Stretched(top: nat, size: nat, argLen: nat, argSize: nat): nat {
    if size < argSize then Larger(top, argLen) else top
  }

  class BVector {
    var tree: seq<SubArray>
    var effTop: nat
    var glen: seq<GapWord>
    var size: nat
    var gapStrategy: bool

    /** The tree part of the invariant, which holds between the steps of an operation too. */
    ghost predicate TreeValid()
      reads this
    {
      TreeOk(tree, effTop, glen)
    }

    ghost predicate Valid()
      reads this
    {
      TreeValid() && size <= ID_MAX && TopSize(size) <= |tree| && forall n | n in Members(tree) :: n < size
    }

    /** The set of positions holding a one. */
    ghost function Contents(): set<nat>
      requires TreeValid()
      reads this
    {
      Members(tree)
    }

    constructor (size: nat, gapStrategy: bool, glen: seq<GapWord>)
      requires size <= ID_MAX && LevelTable(glen)
      ensures Valid() && Contents() == {} && this.size == size && this.glen == glen
      ensures |tree| == TopSize(size) && Shortest(|tree|, size) && effTop == (if size == 0 then 0 else 1)
      ensures this.gapStrategy == gapStrategy
    {
      this.tree := seq(TopSize(size), i => Missing);
      this.effTop := if size == 0 then 0 else 1;
      this.glen := glen;
      this.size := size;
      this.gapStrategy := gapStrategy;
    }

    /** set_block. */
    method SetBlock(nb: nat, b: Block)
      requires TreeValid() && nb < ALL_BLOCKS && BlockOk(b, glen)
      modifies this`tree, this`effTop
      ensures TreeValid() && |tree| == (if nb / SUB_BLOCKS < |old(tree)| then |old(tree)| else nb / SUB_BLOCKS + 1)
      ensures effTop == Larger(old(effTop), nb / SUB_BLOCKS + 1)
      ensures Replaced(old(tree), tree, nb, Content(b))
      ensures forall m: nat :: BlockAt(tree, m) == if m == nb then b else BlockAt(old(tree), m)
    {
      hide TreeOk, Fits, BlockAt, Content;
      PlacedBlock(tree, effTop, glen, nb, b);
      tree := PlaceBlock(tree, nb, b);
      effTop := Larger(effTop, nb / SUB_BLOCKS + 1);
    }

    /** check_allocate_block: what an absent or all-ones block is made into before a bit of it changes. */
    method FreshBlock(full: bool) returns (b: Block)
      requires LevelTable(glen)
      ensures BlockOk(b, glen) && Content(b) == Constant(full) && (if gapStrategy then b.GapBlk? else b.BitBlk?)
    {
      if gapStrategy {
        OneRunFits(glen, full);
        b := GapBlk(OneRun(glen, full));
      } else {
        b := BitBlk(Constant(full));
      }
    }

    /** set_bit_no_check. */
    method SetBitNoCheck(n: nat, val: bool) returns (changed: bool)
      requires TreeValid() && n <= ID_MAX
      modifies this`tree, this`effTop
      ensures TreeValid() && |tree| == (if n / SUB_BITS < |old(tree)| || !changed then |old(tree)| else n / SUB_BITS + 1)
      ensures effTop == if changed then Larger(old(effTop), n / SUB_BITS + 1) else old(effTop)
      ensures changed == (Has(old(tree), n) != val)
      ensures Contents() == if val then old(Contents()) + {n} else old(Contents()) - {n}
    {
      hide TreeOk, Fits, BlockAt, Members, Replaced;
      var nb, nbit := n / BLOCK_BITS, n % BLOCK_BITS;
      var blk := BlockAt(tree, nb);
      BlockAtOk(tree, effTop, glen, nb);
      assert nb / SUB_BLOCKS == n / SUB_BITS;
      if blk.Null? || blk.Full? {
        if blk.Full? == val {
          UnchangedBit(tree, n, val);
          return false;
        }
        blk := FreshBlock(blk.Full?);
      }
      var r;
      if blk.GapBlk? {
        GapBlockFits(blk, glen);
        r, changed := SetInGapBlock(blk.buf, nbit, val, glen[Level(blk.buf)] as int - 4, glen);
      } else {
        changed := blk.bits[nbit] != val;
        r := BitBlk(blk.bits[nbit := val]);
      }
      SetBlock(nb, r);
      BitReplaced(old(tree), tree, n, val);
    }

    method SetBit(n: nat, val: bool) returns (changed: bool)
      requires Valid() && n < size
      modifies this`tree, this`effTop
      ensures Valid() && |tree| == |old(tree)| && changed == ((n in old(Contents())) != val)
      ensures effTop == if changed then Larger(old(effTop), n / SUB_BITS + 1) else old(effTop)
      ensures Contents() == if val then old(Contents()) + {n} else old(Contents()) - {n}
    {
      changed := SetBitNoCheck(n, val);
    }

    /** get_bit. */
    method GetBit(n: nat) returns (isSet: bool)
      requires Valid() && n < size
      ensures isSet <==> n in Contents()
    {
      hide TreeOk, Fits;
      var nbit := n % BLOCK_BITS;
      var blk := BlockAt(tree, n / BLOCK_BITS);
      BlockAtOk(tree, effTop, glen, n / BLOCK_BITS);
      match blk {
        case Null => isSet := false;
        case GapBlk(buf) =>
          isSet := GapEdit.Test(buf, nbit);
        case _ => isSet := Memory(blk)[nbit];
      }
      assert isSet == Has(tree, n);
    }

    /** combine_operation_with_block on block nb. */
    method CombineAt(op: BoolOp, nb: nat, arg: Block)
      requires TreeValid() && nb < ALL_BLOCKS && WellFormed(arg)
      modifies this`tree, this`effTop
      ensures TreeValid() && Replaced(old(tree), tree, nb, Pointwise(op, Content(BlockAt(old(tree), nb)), Content(arg)))
      ensures effTop == old(effTop) || (op != And && op != Sub && effTop == Larger(old(effTop), nb / SUB_BLOCKS + 1))
      ensures (op == And || op == Sub || nb / SUB_BLOCKS < |old(tree)|) ==> |tree| == |old(tree)|
    {
      hide TreeOk, Fits, BlockAt, Content, Pointwise;
      var blk := BlockAt(tree, nb);
      BlockAtOk(tree, effTop, glen, nb);
      var r := Combine.CombineBlocks(op, blk, arg, glen);
      if !(blk.Null? && r.Null?) {
        SetBlock(nb, r);
      }
    }

    /** The positions from..to of block nb, continuing a range that starts at left. */
    method SetPart(nb: nat, from: GapWord, to: GapWord, value: bool, ghost t0: seq<SubArray>, ghost left: nat)
      requires TreeValid() && nb < ALL_BLOCKS && from <= to && AllWellFormed(t0)
      requires left <= BLOCK_BITS * nb + from && RangeSet(t0, tree, left, BLOCK_BITS * nb + from, value)
      modifies this`tree, this`effTop
      ensures TreeValid() && RangeSet(t0, tree, left, BLOCK_BITS * nb + to + 1, value)
      ensures effTop == if value then Larger(old(effTop), nb / SUB_BLOCKS + 1) else old(effTop)
      ensures (!value || nb / SUB_BLOCKS < |old(tree)|) ==> |tree| == |old(tree)|
    {
      hide TreeOk, BlockAt, Content, Pointwise, RangeSet, Replaced, RangeBuffer.InitRange, GapBits;
      RangeBuffer.InitRangeBits(from, to, value);
      CombineAt(if value then Or else And, nb, GapBlk(RangeBuffer.InitRange(from, to, value)));
      RangeSetPart(t0, old(tree), tree, left, nb, from, to, value);
      if value {
        RangeSetBit(t0, tree, left, BLOCK_BITS * nb + to + 1, nb, from);
        HoldsBelow(tree, effTop, glen, nb, from);
      }
    }

    /** Block nb becomes all ones, or null. */
    method SetWhole(nb: nat, value: bool, ghost t0: seq<SubArray>, ghost left: nat)
      requires TreeValid() && nb < ALL_BLOCKS && AllWellFormed(t0)
      requires left <= BLOCK_BITS * nb && RangeSet(t0, tree, left, BLOCK_BITS * nb, value)
      modifies this`tree, this`effTop
      ensures TreeValid() && RangeSet(t0, tree, left, BLOCK_BITS * nb + BLOCK_BITS, value)
      ensures BlockAt(tree, nb) == if value then Full else Null
      ensures effTop == if value then Larger(old(effTop), nb / SUB_BLOCKS + 1) else old(effTop)
      ensures (!value || nb / SUB_BLOCKS < |old(tree)|) ==> |tree| == |old(tree)|
    {
      hide TreeOk, BlockAt, RangeSet, Fits;
      var block := BlockAt(tree, nb);
      BlockAtOk(tree, effTop, glen, nb);
      if value {
        if !block.Full? {
          SetBlock(nb, Full);
        }
      } else if !block.Null? {
        SetBlock(nb, Null);
      }
      RangeSetBlock(t0, old(tree), tree, left, nb, value);
    }

    /** set_range_no_check: a part of the first block, whole blocks, a part of the last block. */
    method SetRangeNoCheck(left: nat, right: nat, value: bool)
      requires TreeValid() && left <= right <= ID_MAX
      modifies this`tree, this`effTop
      ensures TreeValid() && effTop == if value then Larger(old(effTop), right / SUB_BITS + 1) else old(effTop)
      ensures (!value || right / SUB_BITS < |old(tree)|) ==> |tree| == |old(tree)|
      ensures Contents() == if value then old(Contents()) + Interval(left, right) else old(Contents()) - Interval(left, right)
    {
      hide TreeOk, RangeSet, Members, BlockAt;
      ghost var t0 := tree;
      RangeSetNone(t0, left, value);
      var leftBlock, rightBlock := left / BLOCK_BITS, right / BLOCK_BITS;
      var leftBit, rightBit := left % BLOCK_BITS, right % BLOCK_BITS;
      assert rightBlock / SUB_BLOCKS == right / SUB_BITS;
      var last := if leftBlock == rightBlock then rightBit else LAST;
      var nb := leftBlock;
      if leftBit != 0 || last != LAST {
        SetPart(leftBlock, leftBit, last, value, t0, left);
        if leftBlock == rightBlock {
          RangeSetMembers(t0, tree, left, right, value);
          return;
        }
        nb := leftBlock + 1;
      }
      var to := if rightBit == LAST then rightBlock + 1 else rightBlock;
      while nb < to
        invariant TreeValid() && leftBlock <= nb <= to && left <= BLOCK_BITS * nb
        invariant RangeSet(t0, tree, left, BLOCK_BITS * nb, value)
        invariant old(effTop) <= effTop <= Larger(old(effTop), if value then right / SUB_BITS + 1 else 0)
        invariant (!value || right / SUB_BITS < |t0|) ==> |tree| == |t0|
      {
        SetWhole(nb, value, t0, left);
        nb := nb + 1;
      }
      if to == rightBlock {
        SetPart(rightBlock, 0, rightBit, value, t0, left);
      }
      if value {
        RangeSetBit(t0, tree, left, right + 1, rightBlock, rightBit);
        HoldsBelow(tree, effTop, glen, rightBlock, rightBit);
      }
      RangeSetMembers(t0, tree, left, right, value);
    }

    /** set_range; the ends may come in either order. */
    method SetRange(left: nat, right: nat, value: bool)
      requires Valid() && left < size && right < size
      modifies this`tree, this`effTop
      ensures Valid() && |tree| == |old(tree)|
      ensures effTop == if value then Larger(old(effTop), Larger(left, right) / SUB_BITS + 1) else old(effTop)
      ensures var range := if right < left then Interval(right, left) else Interval(left, right);
              Contents() == if value then old(Contents()) + range else old(Contents()) - range
    {
      hide TreeOk, Members;
      if right < left {
        SetRangeNoCheck(right, left, value);
      } else {
        SetRangeNoCheck(left, right, value);
      }
    }

    /** One block of combine_operation. */
    method CombineOne(op: BoolOp, nb: nat, arg: Block, ghost t0: seq<SubArray>, ghost argTree: seq<SubArray>)
      requires TreeValid() && nb < ALL_BLOCKS && nb / SUB_BLOCKS < |tree|
      requires AllWellFormed(t0) && AllWellFormed(argTree) && arg == BlockAt(argTree, nb)
      requires CombinedTo(op, t0, tree, argTree, nb)
      modifies this`tree, this`effTop
      ensures TreeValid() && |tree| == |old(tree)| && CombinedTo(op, t0, tree, argTree, nb + 1)
      ensures old(effTop) <= effTop <= Larger(old(effTop), if op == And || op == Sub then 0 else nb / SUB_BLOCKS + 1)
    {
      hide TreeOk, BlockAt, CombinedTo, Pointwise, Fits;
      var blk := BlockAt(tree, nb);
      BlockAtOk(tree, effTop, glen, nb);
      if op == And && (blk.Null? || arg.Null?) {
        PointwiseNull(And, Content(blk));
        PointwiseNull(And, Content(arg));
        if !blk.Null? {
          SetBlock(nb, Null);
        }
        CombinedBlock(op, t0, old(tree), tree, argTree, nb);
      } else if arg.Null? && blk.Null? {
        CombinedSkip(op, t0, tree, argTree, nb, nb + 1);
      } else {
        CombineAt(op, nb, arg);
        CombinedBlock(op, t0, old(tree), tree, argTree, nb);
      }
    }

    /** The blocks of top entry i. */
    method CombineSub(op: BoolOp, i: nat, argTree: seq<SubArray>, ghost t0: seq<SubArray>)
      requires TreeValid() && i < |tree| && AllWellFormed(t0) && AllWellFormed(argTree) && CompleteSubs(argTree)
      requires CombinedTo(op, t0, tree, argTree, SUB_BLOCKS * i)
      modifies this`tree, this`effTop
      ensures TreeValid() && |tree| == |old(tree)| && CombinedTo(op, t0, tree, argTree, SUB_BLOCKS * i + SUB_BLOCKS)
      ensures old(effTop) <= effTop <= Larger(old(effTop), if op == And || op == Sub then 0 else i + 1)
    {
      hide TreeOk, BlockAt, CombinedTo;
      EffectiveBound(tree, effTop, glen);
      if tree[i].Missing? && (op == And || i >= |argTree| || argTree[i].Missing?) {
        forall m: nat | SUB_BLOCKS * i <= m < SUB_BLOCKS * i + SUB_BLOCKS
          ensures BlockAt(tree, m).Null? && (op == And || BlockAt(argTree, m).Null?)
        {
          MissingNull(tree, i, m);
          if op != And {
            MissingNull(argTree, i, m);
          }
        }
        CombinedSkip(op, t0, tree, argTree, SUB_BLOCKS * i, SUB_BLOCKS * i + SUB_BLOCKS);
        return;
      }
      for j := 0 to SUB_BLOCKS
        invariant TreeValid() && |tree| == |old(tree)| && CombinedTo(op, t0, tree, argTree, SUB_BLOCKS * i + j)
        invariant old(effTop) <= effTop <= Larger(old(effTop), if op == And || op == Sub then 0 else i + 1)
      {
        CombineOne(op, SUB_BLOCKS * i + j, BlockAt(argTree, SUB_BLOCKS * i + j), t0, argTree);
      }
    }

    /** All blocks: the scan stops at the larger effective size, for AND at the own one. */
    method CombineTrees(op: BoolOp, argTree: seq<SubArray>, argTop: nat, ghost argLen: seq<GapWord>)
      requires TreeValid() && TreeOk(argTree, argTop, argLen) && (op == And || argTop <= |tree|)
      modifies this`tree, this`effTop
      ensures TreeValid() && |tree| == |old(tree)|
      ensures old(effTop) <= effTop <= Larger(old(effTop), if op == And || op == Sub then 0 else argTop)
      ensures Contents() == SetOp(op, old(Contents()), Members(argTree))
    {
      hide TreeOk, BlockAt, CombinedTo, Members;
      ghost var t0 := tree;
      var top := ScanTop(op, effTop, argTop);
      forall m: nat | m >= SUB_BLOCKS * top ensures BlockAt(tree, m).Null? && (op == And || BlockAt(argTree, m).Null?) {
        BlockAtOk(tree, effTop, glen, m);
        BlockAtOk(argTree, argTop, argLen, m);
      }
      EffectiveBound(tree, effTop, glen);
      CombinedNone(op, tree, argTree);
      for i := 0 to top
        invariant TreeValid() && |tree| == |t0| && CombinedTo(op, t0, tree, argTree, SUB_BLOCKS * i)
        invariant old(effTop) <= effTop <= Larger(old(effTop), if op == And || op == Sub then 0 else argTop)
      {
        CombineSub(op, i, argTree, t0);
      }
      CombinedRest(op, t0, tree, argTree, SUB_BLOCKS * top);
      CombinedMembers(op, t0, tree, argTree);
    }

    /**
     combine_operation: this op= arg, for vectors of any two sizes.  The scan has to stay inside the own top
     array (see VectorLimits).
     */
    method CombineOperation(op: BoolOp, arg: BVector)
      requires Valid() && arg.Valid() && arg != this && (op == And || size < arg.size || arg.effTop <= |tree|)
      modifies this`tree, this`effTop, this`size
      ensures Valid() && size == Larger(old(size), arg.size)
      ensures |tree| == Stretched(|old(tree)|, old(size), |arg.tree|, arg.size)
      ensures |tree| != |old(tree)| ==> old(size) < arg.size && |tree| == |arg.tree| > |old(tree)|
      ensures old(size) < arg.size ==> |arg.tree| <= |tree|
      ensures old(effTop) <= effTop <= Larger(old(effTop), if op == And || op == Sub then 0 else arg.effTop)
      ensures Contents() == SetOp(op, old(Contents()), arg.Contents())
    {
      hide TreeOk, Members;
      EffectiveBound(arg.tree, arg.effTop, arg.glen);
      if size < arg.size {
        if |tree| < |arg.tree| {
          ReservedTree(tree, effTop, glen, |arg.tree|);
          tree := tree + seq(|arg.tree| - |tree|, i => Missing);
        }
        size := arg.size;
      } else if size > arg.size && op == And {
        SetRange(arg.size, size - 1, false);
      }
      CombineTrees(op, arg.tree, arg.effTop, arg.glen);
    }

    /** resize: a longer vector gets a longer top array, a shorter one loses its tail. */
    method Resize(newSize: nat)
      requires Valid() && newSize <= ID_MAX
      modifies this`tree, this`effTop, this`size
      ensures Valid() && size == newSize && Contents() == old(Contents()) * Below(newSize)
      ensures |tree| == Larger(|old(tree)|, TopSize(newSize)) && effTop == old(effTop)
      ensures |tree| > |old(tree)| ==> Shortest(|tree|, newSize)
    {
      hide TreeOk, Members;
      if size < newSize {
        TopSizeMonotone(newSize, ID_MAX);
        if |tree| < TopSize(newSize) {
          ReservedTree(tree, effTop, glen, TopSize(newSize));
          tree := tree + seq(TopSize(newSize) - |tree|, i => Missing);
        }
        size := newSize;
      } else if newSize < size {
        TopSizeMonotone(newSize, size);
        SetRange(newSize, size - 1, false);
        size := newSize;
      }
    }

    /** invert: every block up to the capacity, then the tail beyond the size is cleared again. */
    method Invert()
      requires Valid()
      modifies this`tree, this`effTop
      ensures Valid() && |tree| == |old(tree)| == effTop && Contents() == Below(size) - old(Contents())
    {
      hide TreeOk, Members, Interval, TopSize;
      ghost var t0 := tree;
      WholeTop(tree, effTop, glen);
      tree := TreeVisit.VisitTree(Visitors.Invert, tree, |tree|, glen);
      effTop := |tree|;
      ghost var t1 := tree;
      TopSizeBound(size);
      if size == ID_MAX {
        var _ := SetBitNoCheck(ID_MAX, false);
      } else {
        SetRangeNoCheck(size, ID_MAX, false);
      }
      InvertedBelow(t0, t1, |t0|, glen, size, tree);
    }

    /** optimize. */
    method Optimize(mode: Visitors.OptMode)
      requires Valid()
      modifies this`tree
      ensures Valid() && |tree| == |old(tree)| && Contents() == old(Contents())
      ensures SettledAll(Visitors.Optimize(mode), old(tree), tree, glen)
    {
      hide TreeOk, Members, TreeVisit.TreeVisitedTo, SettledAll;
      tree := VisitAll(Visitors.Optimize(mode), effTop);
    }

    /** set_gap_levels: every GAP block is moved to the new table, then the table is replaced. */
    method SetGapLevels(table: seq<GapWord>)
      requires Valid() && LevelTable(table)
      modifies this`tree, this`glen
      ensures Valid() && |tree| == |old(tree)| && Contents() == old(Contents()) && glen == table
      ensures SettledAll(Visitors.Relevel(table), old(tree), tree, old(glen))
    {
      hide TreeOk, Members, TreeVisit.TreeVisitedTo, SettledAll;
      tree := VisitAll(Visitors.Relevel(table), effTop);
      glen := table;
    }

    /**
     clear: frees everything, or zeroes the blocks in place.  Freeing sets the effective size to 1 even over
     an empty top array (init_tree), and then the vector is no longer valid.
     */
    method Clear(freeMem: bool)
      requires Valid()
      modifies this`tree, this`effTop
      ensures |tree| == |old(tree)| && effTop == if freeMem then 1 else old(effTop)
      ensures Valid() <==> (freeMem ==> |tree| > 0)
      ensures Valid() ==> Contents() == {}
      ensures if freeMem then forall i | 0 <= i < |tree| :: tree[i].Missing? else SettledAll(Visitors.Zero, old(tree), tree, glen)
    {
      hide TreeOk, Members, TreeVisit.TreeVisitedTo, SettledAll;
      if freeMem {
        FreedTree(|tree|, glen, tree, effTop);
        tree := seq(|tree|, i => Missing);
        effTop := 1;
      } else {
        tree := VisitAll(Visitors.Zero, effTop);
      }
    }

    method VisitAll(f: Visitors.Functor, top: nat) returns (t: seq<SubArray>)
      requires TreeValid() && top == effTop && LevelTable(Visitors.TableAfter(f, glen)) && !f.Invert?
      ensures TreeOk(t, effTop, Visitors.TableAfter(f, glen)) && |t| == |tree|
      ensures Members(t) == if f.Zero? then {} else Members(tree)
      ensures SettledAll(f, tree, t, glen)
    {
      hide TreeOk, Members, TreeVisit.TreeVisitedTo, BlockAt, Visitors.Settled;
      t := TreeVisit.VisitTree(f, tree, top, glen);
      TreeVisit.VisitedMembers(f, tree, t, top, glen);
      forall nb: nat ensures Visitors.Settled(f, BlockAt(tree, nb), BlockAt(t, nb), glen) {
        TreeVisit.SettledBlock(f, tree, t, top, glen, nb);
      }
    }
  }

  /** Every block of t is of the kind the functor leaves for the block of t0. */
  ghost predicate SettledAll(f: Visitors.Functor, t0: seq<SubArray>, t: seq<SubArray>, glen: seq<GapWord>)
    requires AllWellFormed(t0) && LevelTable(glen) && LevelTable(Visitors.TableAfter(f, glen))
  {
    forall nb: nat :: Visitors.Settled(f, BlockAt(t0, nb), BlockAt(t, nb), glen)
  }

  /** In every valid vector a GAP block has its level's capacity and leaves four words of it unused. */
  lemma CapacityRule(v: BVector, nb: nat)
    requires v.Valid() && BlockAt(v.tree, nb).GapBlk?
    ensures var buf := BlockAt(v.tree, nb).buf;
            Gap.Valid(buf) && |buf| == v.glen[Level(buf)] && Length(buf) <= v.glen[Level(buf)] - 4
  {
    BlockAtOk(v.tree, v.effTop, v.glen, nb);
  }

  predicate LessThan(n: nat, size: nat) {
    n < size
  }

  ghost function Below(size: nat): set<nat> {
    set n: nat | n < size && LessThan(n, size)
  }

  lemma TopSizeBound(size: nat)
    requires size <= ID_MAX
    ensures size <= SUB_BITS * TopSize(size) && (size == ID_MAX ==> ID_MAX / SUB_BITS < TopSize(size))
  {
  }

  lemma RangeSetBit(t0: seq<SubArray>, t: seq<SubArray>, left: nat, hi: nat, nb: nat, p: nat)
    requires AllWellFormed(t0) && AllWellFormed(t) && RangeSet(t0, t, left, hi, true) && p < BLOCK_BITS
    requires left <= BLOCK_BITS * nb + p < hi
    ensures Content(BlockAt(t, nb))[p]
  {
  }

  /** A block with a one lies below the effective size. */
  lemma HoldsBelow(tree: seq<SubArray>, effTop: nat, glen: seq<GapWord>, nb: nat, p: nat)
    requires TreeOk(tree, effTop, glen) && p < BLOCK_BITS && Content(BlockAt(tree, nb))[p]
    ensures nb / SUB_BLOCKS < effTop
  {
    BlockAtOk(tree, effTop, glen, nb);
    hide TreeOk, BlockAt;
  }

  lemma WholeTop(tree: seq<SubArray>, effTop: nat, glen: seq<GapWord>)
    requires TreeOk(tree, effTop, glen)
    ensures TreeOk(tree, |tree|, glen)
  {
  }

  /** A tree without sub-arrays and an effective size of 1 is a good one exactly when it has a top entry. */
  lemma FreedTree(n: nat, glen: seq<GapWord>, tree: seq<SubArray>, effTop: nat)
    requires TreeOk(tree, effTop, glen) && n == |tree|
    ensures var t := seq(n, i => Missing);
            (TreeOk(t, 1, glen) <==> n > 0) && (n > 0 ==> Members(t) == {})
  {
  }

  lemma InvertedBelow(t0: seq<SubArray>, t1: seq<SubArray>, top: nat, glen: seq<GapWord>, size: nat, t2: seq<SubArray>)
    requires TreeOk(t0, top, glen) && TreeVisit.TreeVisitedTo(Visitors.Invert, t0, t1, |t0|, glen)
    requires AllWellFormed(t1) && AllWellFormed(t2) && size <= ID_MAX && size <= SUB_BITS * |t0|
    requires Members(t2) == if size == ID_MAX then Members(t1) - {ID_MAX} else Members(t1) - Interval(size, ID_MAX)
    ensures Members(t2) == Below(size) - Members(t0)
    ensures forall n | n in Members(t2) :: n < size
  {
    forall n: nat ensures n in Members(t2) <==> n < size && n !in Members(t0) {
      if n < size {
        TreeVisit.InvertedMembers(t0, t1, top, glen, n);
      } else if n <= ID_MAX {
        assert n in Interval(size, ID_MAX);
      }
    }
  }

  lemma GapBlockFits(b: Block, glen: seq<GapWord>)
    requires LevelTable(glen) && BlockOk(b, glen) && b.GapBlk?
    ensures Fits(b.buf, glen)
  {
  }

  lemma UnchangedBit(tree: seq<SubArray>, n: nat, val: bool)
    requires AllWellFormed(tree) && n <= ID_MAX && Has(tree, n) == val
    ensures Members(tree) == if val then Members(tree) + {n} else Members(tree) - {n}
  {
  }
}
