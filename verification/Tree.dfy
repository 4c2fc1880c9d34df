/**
 The two-level tree of blocks: which block a number denotes, which bits the tree holds.
 */
module Tree {
  import opened BitString
  import opened Gap
  import opened BitBlock
  import opened Blocks
  import RangeBuffer

  const SUB_BLOCKS := 256
  const ALL_BLOCKS := 65536
  /** The bits of one sub-array: set_blkblk_mask + 1. */
  const SUB_BITS := 16777216
  const ID_MAX := 4294967295

  /** The sum of two id_t values: unsigned 32-bit. */
  function Wrap32(n: nat): (r: nat)
    ensures r <= ID_MAX && (n <= ID_MAX ==> r == n) && (n == ID_MAX + 1 ==> r == 0)
  {
    n % 4294967296
  }

  /** Together with Wrap32 being the identity below 2^32, this is what it is. */
  lemma WrapPeriod(n: nat)
    ensures Wrap32(n + 4294967296) == Wrap32(n)
  {
  }

  lemma WrapTwice(a: nat, b: nat)
    ensures Wrap32(Wrap32(a) + b) == Wrap32(a + b)
  {
  }

  /** An entry of the top array: a null pointer or an array of 256 block pointers. */
  datatype SubArray = Missing | Present(blks: seq<Block>)

  ghost predicate SubOk(s: SubArray, glen: seq<GapWord>)
    requires LevelTable(glen)
  {
    s.Present? ==> |s.blks| == SUB_BLOCKS && forall j | 0 <= j < SUB_BLOCKS :: BlockOk(s.blks[j], glen)
  }

  predicate CompleteSubs(tree: seq<SubArray>) {
    forall i | 0 <= i < |tree| && tree[i].Present? :: |tree[i].blks| == SUB_BLOCKS
  }

  ghost predicate AllWellFormed(tree: seq<SubArray>) {
    forall nb: nat :: WellFormed(BlockAt(tree, nb))
  }

  /** Sub-arrays are complete, their blocks obey the level table, and none lies beyond the effective size. */
  ghost predicate TreeOk(tree: seq<SubArray>, effTop: nat, glen: seq<GapWord>)
    ensures TreeOk(tree, effTop, glen) ==> AllWellFormed(tree) && CompleteSubs(tree) && LevelTable(glen)
  {
    && LevelTable(glen) && |tree| <= SUB_BLOCKS && effTop <= |tree|
    && (forall i | 0 <= i < |tree| :: SubOk(tree[i], glen))
    && (forall i | effTop <= i < |tree| :: tree[i].Missing?)
  }

  /** Block nb, null when it lies beyond the tree or in a missing sub-array (get_block). */
  function BlockAt(tree: seq<SubArray>, nb: nat): (b: Block) {
    var i, j := nb / SUB_BLOCKS, nb % SUB_BLOCKS;
    if i < |tree| && tree[i].Present? && j < |tree[i].blks| then tree[i].blks[j] else Null
  }

  lemma BlockAtOk(tree: seq<SubArray>, effTop: nat, glen: seq<GapWord>, nb: nat)
    requires TreeOk(tree, effTop, glen)
    ensures LevelTable(glen) && BlockOk(BlockAt(tree, nb), glen)
    ensures nb >= SUB_BLOCKS * effTop ==> BlockAt(tree, nb).Null?
    ensures !BlockAt(tree, nb).Null? ==> nb / SUB_BLOCKS < |tree|
  {
  }

  /** The tree with block nb replaced, the top array grown and the sub-array made as needed (set_block). */
  function PlaceBlock(tree: seq<SubArray>, nb: nat, b: Block): (t: seq<SubArray>)
    requires CompleteSubs(tree)
  {
    var i, j := nb / SUB_BLOCKS, nb % SUB_BLOCKS;
    var grown := if i < |tree| then tree else tree + seq(i + 1 - |tree|, k => Missing);
    var blks := if grown[i].Present? then grown[i].blks else seq(SUB_BLOCKS, k => Null);
    grown[i := Present(blks[j := b])]
  }

  lemma PlacedBlock(tree: seq<SubArray>, effTop: nat, glen: seq<GapWord>, nb: nat, b: Block)
    requires TreeOk(tree, effTop, glen) && nb < ALL_BLOCKS && BlockOk(b, glen)
    ensures var t := PlaceBlock(tree, nb, b);
            var i := nb / SUB_BLOCKS;
            && TreeOk(t, if i < effTop then effTop else i + 1, glen)
            && |t| == (if i < |tree| then |tree| else i + 1)
            && forall m: nat :: BlockAt(t, m) == if m == nb then b else BlockAt(tree, m)
  {
    hide Fits;
    var t := PlaceBlock(tree, nb, b);
    assert BlockAt(t, nb) == b;
  }

  // ---------------------------------------------------------------- bits

  /** Bit n of the tree. */
  ghost predicate Has(tree: seq<SubArray>, n: nat)
    requires WellFormed(BlockAt(tree, n / BLOCK_BITS))
  {
    Content(BlockAt(tree, n / BLOCK_BITS))[n % BLOCK_BITS]
  }

  /** The positions holding a one. */
  ghost function Members(tree: seq<SubArray>): set<nat>
    requires AllWellFormed(tree)
  {
    set n: nat | n <= ID_MAX && Has(tree, n)
  }

  /** Membership of a position, given by block and bit. */
  lemma MemberBit(t: seq<SubArray>, nb: nat, p: nat)
    requires AllWellFormed(t) && nb < ALL_BLOCKS && p < BLOCK_BITS
    ensures BLOCK_BITS * nb + p in Members(t) <==> Content(BlockAt(t, nb))[p]
  {
    hide Content, BlockAt;
    var n: nat := BLOCK_BITS * nb + p;
    assert n / BLOCK_BITS == nb && n % BLOCK_BITS == p;
    assert n in Members(t) <==> Has(t, n);
  }

  /** t' holds the bits s in block nb and otherwise what t holds. */
  ghost predicate Replaced(t: seq<SubArray>, t': seq<SubArray>, nb: nat, s: seq<bool>)
    requires AllWellFormed(t) && AllWellFormed(t')
  {
    forall m: nat :: Content(BlockAt(t', m)) == if m == nb then s else Content(BlockAt(t, m))
  }

  lemma BitReplaced(t: seq<SubArray>, t': seq<SubArray>, n: nat, val: bool)
    requires AllWellFormed(t) && AllWellFormed(t') && n <= ID_MAX
    requires Replaced(t, t', n / BLOCK_BITS, Content(BlockAt(t, n / BLOCK_BITS))[n % BLOCK_BITS := val])
    ensures Members(t') == if val then Members(t) + {n} else Members(t) - {n}
  {
    forall k: nat ensures Has(t', k) == if k == n then val else Has(t, k) {
    }
  }

  // ---------------------------------------------------------------- ranges

  /** t is t0 with the positions left..hi-1 set to value. */
  ghost predicate RangeSet(t0: seq<SubArray>, t: seq<SubArray>, left: nat, hi: nat, value: bool)
    requires AllWellFormed(t0) && AllWellFormed(t)
  {
    forall nb: nat, p: nat {:trigger Content(BlockAt(t, nb))[p]} | p < BLOCK_BITS ::
      Content(BlockAt(t, nb))[p]
      == if left <= BLOCK_BITS * nb + p < hi then value else Content(BlockAt(t0, nb))[p]
  }

  lemma RangeSetNone(t: seq<SubArray>, left: nat, value: bool)
    requires AllWellFormed(t)
    ensures RangeSet(t, t, left, left, value)
  {
  }

  /** Block nb combined with the buffer of a range extends the range by that part of the block. */
  lemma RangeSetPart(t0: seq<SubArray>, t: seq<SubArray>, t': seq<SubArray>, left: nat, nb: nat, from: GapWord, to: GapWord, value: bool)
    requires AllWellFormed(t0) && AllWellFormed(t) && AllWellFormed(t') && from <= to
    requires left <= BLOCK_BITS * nb + from && RangeSet(t0, t, left, BLOCK_BITS * nb + from, value)
    requires WellFormed(GapBlk(RangeBuffer.InitRange(from, to, value)))
    requires Replaced(t, t', nb, Pointwise(if value then Or else And, Content(BlockAt(t, nb)),
                                           Content(GapBlk(RangeBuffer.InitRange(from, to, value)))))
    ensures RangeSet(t0, t', left, BLOCK_BITS * nb + to + 1, value)
  {
    RangeBuffer.InitRangeBits(from, to, value);
    hide RangeBuffer.InitRange, BlockAt;
    forall m: nat, p: nat | p < BLOCK_BITS
      ensures Content(BlockAt(t', m))[p]
           == if left <= BLOCK_BITS * m + p < BLOCK_BITS * nb + to + 1 then value else Content(BlockAt(t0, m))[p]
    {
      assert Content(BlockAt(t, m))[p]
          == if left <= BLOCK_BITS * m + p < BLOCK_BITS * nb + from then value else Content(BlockAt(t0, m))[p];
    }
  }

  /** A whole block of value extends the range by that block. */
  lemma RangeSetBlock(t0: seq<SubArray>, t: seq<SubArray>, t': seq<SubArray>, left: nat, nb: nat, value: bool)
    requires AllWellFormed(t0) && AllWellFormed(t) && AllWellFormed(t')
    requires left <= BLOCK_BITS * nb && RangeSet(t0, t, left, BLOCK_BITS * nb, value) && Replaced(t, t', nb, Constant(value))
    ensures RangeSet(t0, t', left, BLOCK_BITS * nb + BLOCK_BITS, value)
  {
    hide BlockAt;
    forall m: nat, p: nat | p < BLOCK_BITS
      ensures Content(BlockAt(t', m))[p]
           == if left <= BLOCK_BITS * m + p < BLOCK_BITS * nb + BLOCK_BITS then value else Content(BlockAt(t0, m))[p]
    {
      assert Content(BlockAt(t, m))[p]
          == if left <= BLOCK_BITS * m + p < BLOCK_BITS * nb then value else Content(BlockAt(t0, m))[p];
    }
  }

  predicate Within(n: nat, left: nat, right: nat) {
    left <= n <= right
  }

  ghost function Interval(left: nat, right: nat): set<nat> {
    set n: nat | n <= right && Within(n, left, right)
  }

  lemma RangeSetMembers(t0: seq<SubArray>, t: seq<SubArray>, left: nat, right: nat, value: bool)
    requires AllWellFormed(t0) && AllWellFormed(t) && right <= ID_MAX && RangeSet(t0, t, left, right + 1, value)
    ensures Members(t) == if value then Members(t0) + Interval(left, right) else Members(t0) - Interval(left, right)
  {
    forall n: nat | n <= ID_MAX ensures Has(t, n) == if left <= n <= right then value else Has(t0, n) {
      assert n == BLOCK_BITS * (n / BLOCK_BITS) + n % BLOCK_BITS;
    }
  }

  // ---------------------------------------------------------------- binary operations

  /** Blocks below nb have been combined with those of arg, the others are as in t0. */
  ghost predicate CombinedTo(op: BoolOp, t0: seq<SubArray>, t: seq<SubArray>, arg: seq<SubArray>, nb: nat)
    requires AllWellFormed(t0) && AllWellFormed(t) && AllWellFormed(arg)
  {
    forall m: nat {:trigger BlockAt(t, m)} ::
      Content(BlockAt(t, m))
      == if m < nb then Pointwise(op, Content(BlockAt(t0, m)), Content(BlockAt(arg, m))) else Content(BlockAt(t0, m))
  }

  lemma CombinedNone(op: BoolOp, t: seq<SubArray>, arg: seq<SubArray>)
    requires AllWellFormed(t) && AllWellFormed(arg)
    ensures CombinedTo(op, t, t, arg, 0)
  {
  }

  lemma CombinedBlock(op: BoolOp, t0: seq<SubArray>, t: seq<SubArray>, t': seq<SubArray>, arg: seq<SubArray>, nb: nat)
    requires AllWellFormed(t0) && AllWellFormed(t) && AllWellFormed(t') && AllWellFormed(arg)
    requires CombinedTo(op, t0, t, arg, nb)
    requires Replaced(t, t', nb, Pointwise(op, Content(BlockAt(t, nb)), Content(BlockAt(arg, nb))))
    ensures CombinedTo(op, t0, t', arg, nb + 1)
  {
    hide BlockAt, Pointwise, Content;
    forall m: nat
      ensures Content(BlockAt(t', m)) == if m < nb + 1
              then Pointwise(op, Content(BlockAt(t0, m)), Content(BlockAt(arg, m))) else Content(BlockAt(t0, m))
    {
      assert BlockAt(t, m) == BlockAt(t, m);
    }
  }

  /** The result has no ones where nothing is combined with nothing, or ANDed with anything. */
  lemma PointwiseNull(op: BoolOp, s: seq<bool>)
    requires |s| == BLOCK_BITS
    ensures Pointwise(op, Constant(false), Constant(false)) == Constant(false)
    ensures Pointwise(And, Constant(false), s) == Constant(false)
    ensures Pointwise(And, s, Constant(false)) == Constant(false)
  {
  }

  /** Blocks with nothing to do can be skipped. */
  lemma CombinedSkip(op: BoolOp, t0: seq<SubArray>, t: seq<SubArray>, arg: seq<SubArray>, nb: nat, nb': nat)
    requires AllWellFormed(t0) && AllWellFormed(t) && AllWellFormed(arg)
    requires CombinedTo(op, t0, t, arg, nb) && nb <= nb'
    requires forall m: nat | nb <= m < nb' :: BlockAt(t, m).Null? && (op == And || BlockAt(arg, m).Null?)
    ensures CombinedTo(op, t0, t, arg, nb')
  {
    forall m: nat | nb <= m < nb'
      ensures Content(BlockAt(t, m)) == Pointwise(op, Content(BlockAt(t0, m)), Content(BlockAt(arg, m)))
    {
      PointwiseNull(op, Content(BlockAt(arg, m)));
    }
    hide BlockAt, Pointwise, Content;
  }

  ghost function SetOp(op: BoolOp, a: set<nat>, b: set<nat>): set<nat> {
    match op
    case And => a * b
    case Or => a + b
    case Sub => a - b
    case Xor => (a - b) + (b - a)
  }

  lemma CombinedMembers(op: BoolOp, t0: seq<SubArray>, t: seq<SubArray>, arg: seq<SubArray>)
    requires AllWellFormed(t0) && AllWellFormed(t) && AllWellFormed(arg)
    requires CombinedTo(op, t0, t, arg, ALL_BLOCKS)
    ensures Members(t) == SetOp(op, Members(t0), Members(arg))
  {
    forall n: nat | n <= ID_MAX ensures Has(t, n) == Apply(op, Has(t0, n), Has(arg, n)) {
      assert n / BLOCK_BITS < ALL_BLOCKS;
    }
    hide Has;
  }

  /** The blocks of a missing sub-array, or beyond the effective size, are null. */
  lemma MissingNull(tree: seq<SubArray>, i: nat, nb: nat)
    requires i >= |tree| || tree[i].Missing?
    requires SUB_BLOCKS * i <= nb < SUB_BLOCKS * i + SUB_BLOCKS
    ensures BlockAt(tree, nb).Null?
  {
  }

  lemma EffectiveBound(tree: seq<SubArray>, effTop: nat, glen: seq<GapWord>)
    requires TreeOk(tree, effTop, glen)
    ensures effTop <= |tree| <= SUB_BLOCKS
  {
  }

  /** A longer top array holds the same bits (reserve_top_blocks). */
  lemma ReservedTree(tree: seq<SubArray>, effTop: nat, glen: seq<GapWord>, n: nat)
    requires TreeOk(tree, effTop, glen) && |tree| <= n <= SUB_BLOCKS
    ensures var t := tree + seq(n - |tree|, i => Missing);
            TreeOk(t, effTop, glen) && Members(t) == Members(tree)
  {
    var t := tree + seq(n - |tree|, i => Missing);
    assert forall nb: nat :: BlockAt(t, nb) == BlockAt(tree, nb);
    assert forall k: nat :: Has(t, k) == Has(tree, k);
  }

  /** With only nulls left on the scan's side nothing remains to be combined. */
  lemma CombinedRest(op: BoolOp, t0: seq<SubArray>, t: seq<SubArray>, arg: seq<SubArray>, nb: nat)
    requires AllWellFormed(t0) && AllWellFormed(t) && AllWellFormed(arg) && nb <= ALL_BLOCKS
    requires CombinedTo(op, t0, t, arg, nb)
    requires forall m: nat | m >= nb :: BlockAt(t0, m).Null? && (op == And || BlockAt(arg, m).Null?)
    ensures CombinedTo(op, t0, t, arg, ALL_BLOCKS)
  {
    forall m: nat | nb <= m
      ensures Content(BlockAt(t, m)) == Pointwise(op, Content(BlockAt(t0, m)), Content(BlockAt(arg, m)))
    {
      PointwiseNull(op, Content(BlockAt(arg, m)));
    }
    hide BlockAt, Pointwise, Content;
  }
}
