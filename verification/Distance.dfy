/**
 Distance metrics: counting the ones of a set operation on two vectors without materialising it
 (combine_count_operation_with_block, distance_operation, distance_and_operation).
 */
module Distance {
  import opened BitString
  import opened Gap
  import opened BitBlock
  import opened Blocks
  import opened Tree
  import opened TreeString
  import opened Vector
  import opened GapCount
  import BitCount
  import GapArray

  datatype Metric = CountAnd | CountXor | CountOr | CountSubAB | CountSubBA | CountA | CountB

  /** The string whose ones a metric counts. */
  ghost function MetricBits(m: Metric, s: seq<bool>, t: seq<bool>): (r: seq<bool>)
    requires |s| == |t|
    ensures |r| == |s|
  {
    match m
    case CountAnd => Pointwise(And, s, t)
    case CountXor => Pointwise(Xor, s, t)
    case CountOr => Pointwise(Or, s, t)
    case CountSubAB => Pointwise(Sub, s, t)
    case CountSubBA => Pointwise(Sub, t, s)
    case CountA => s
    case CountB => t
  }

  /** The set whose size a metric is. */
  ghost function MetricSet(m: Metric, a: set<nat>, b: set<nat>): set<nat> {
    match m
    case CountAnd => SetOp(And, a, b)
    case CountXor => SetOp(Xor, a, b)
    case CountOr => SetOp(Or, a, b)
    case CountSubAB => SetOp(Sub, a, b)
    case CountSubBA => SetOp(Sub, b, a)
    case CountA => a
    case CountB => b
  }

  // ---------------------------------------------------------------- blocks

  lemma PointwiseCommutes(op: BoolOp, s: seq<bool>, t: seq<bool>)
    requires |s| == |t| && op != Sub
    ensures Pointwise(op, s, t) == Pointwise(op, t, s)
  {
  }

  /** Against an empty block: nothing, or the other block. */
  lemma PointwiseEmpty(s: seq<bool>)
    requires |s| == BLOCK_BITS
    ensures Count(Constant(false), 0, BLOCK_BITS) == 0
    ensures Pointwise(And, s, Constant(false)) == Constant(false) && Pointwise(And, Constant(false), s) == Constant(false)
    ensures Pointwise(Or, s, Constant(false)) == s && Pointwise(Or, Constant(false), s) == s
    ensures Pointwise(Xor, s, Constant(false)) == s && Pointwise(Xor, Constant(false), s) == s
    ensures Pointwise(Sub, s, Constant(false)) == s && Pointwise(Sub, Constant(false), s) == Constant(false)
  {
    CountConstant(Constant(false), 0, BLOCK_BITS, false);
  }

  /** The ones of a block that is not GAP, none when it is null. */
  method PlainOnes(b: Block) returns (c: nat)
    requires IsPlain(b)
    ensures c == Count(Content(b), 0, BLOCK_BITS)
  {
    if b.Null? {
      PointwiseEmpty(Constant(false));
      c := 0;
    } else {
      c := BitCount.CalcCount(Memory(b));
    }
  }

  /** bit_operation_and_count, bit_operation_or_count, bit_operation_xor_count, bit_operation_sub_count. */
  method PlainCount(op: BoolOp, blk: Block, arg: Block) returns (c: nat)
    requires IsPlain(blk) && IsPlain(arg)
    ensures c == Count(Pointwise(op, Content(blk), Content(arg)), 0, BLOCK_BITS)
  {
    hide Count, Pointwise, Constant;
    PointwiseEmpty(Content(blk));
    PointwiseEmpty(Content(arg));
    if blk.Null? || arg.Null? {
      if op == And || (op == Sub && blk.Null?) {
        c := 0;
      } else {
        c := PlainOnes(if blk.Null? then arg else blk);
      }
    } else {
      c := BlockOpCount(op, Memory(blk), Memory(arg));
    }
  }

  /** A metric on two GAP blocks. */
  method GapGap(m: Metric, g1: seq<GapWord>, g2: seq<GapWord>) returns (c: nat)
    requires Valid(g1) && Valid(g2)
    ensures c == Count(MetricBits(m, GapBits(g1), GapBits(g2)), 0, BLOCK_BITS)
  {
    hide Count, Pointwise, Valid, GapBits;
    match m {
      case CountAnd => c := BuffCountOp(g1, g2, And);
      case CountOr => c := BuffCountOp(g1, g2, Or);
      case CountSubAB => c := BuffCountOp(g1, g2, Sub);
      case CountSubBA => c := BuffCountOp(g2, g1, Sub);
      case CountXor => c := BuffCountOp(g1, g2, Xor);
      case CountA => c := GapArray.BitCount(g1);
      case CountB => c := GapArray.BitCount(g2);
    }
  }

  /** AND, OR or XOR of a plain block and a GAP block. */
  method MixedCount(op: BoolOp, plain: Block, g: seq<GapWord>) returns (c: nat)
    requires IsPlain(plain) && Valid(g) && op != Sub
    ensures c == Count(Pointwise(op, Content(plain), GapBits(g)), 0, BLOCK_BITS)
  {
    hide Count, Pointwise, Constant, Valid, GapBits;
    if plain.Null? {
      PointwiseEmpty(GapBits(g));
      if op == And {
        c := 0;
      } else {
        c := GapArray.BitCount(g);
      }
    } else if op == And {
      c := CountUnder(And, Memory(plain), g);
    } else {
      c := CountRuns(op, Memory(plain), g);
    }
  }

  /** A without B, both of any kind but not both GAP. */
  method SubCount(blk: Block, arg: Block) returns (c: nat)
    requires WellFormed(blk) && WellFormed(arg) && !(blk.GapBlk? && arg.GapBlk?)
    ensures c == Count(Pointwise(Sub, Content(blk), Content(arg)), 0, BLOCK_BITS)
  {
    hide Count, Pointwise, Constant, Valid, GapBits;
    if blk.GapBlk? {
      var temp := NewBitBlock(blk.buf);
      c := PlainCount(Sub, temp, arg);
    } else if arg.GapBlk? {
      if blk.Null? {
        PointwiseEmpty(Content(arg));
        c := 0;
      } else {
        c := CountUnder(Sub, Memory(blk), arg.buf);
      }
    } else {
      c := PlainCount(Sub, blk, arg);
    }
  }

  method Ones(b: Block) returns (c: nat)
    requires WellFormed(b)
    ensures c == Count(Content(b), 0, BLOCK_BITS)
  {
    hide Count, Constant, Valid, GapBits;
    if b.GapBlk? {
      c := GapArray.BitCount(b.buf);
    } else {
      c := PlainOnes(b);
    }
  }

  /** AND, OR or XOR of two blocks that are not both GAP. */
  method SymmetricCount(op: BoolOp, blk: Block, arg: Block) returns (c: nat)
    requires WellFormed(blk) && WellFormed(arg) && !(blk.GapBlk? && arg.GapBlk?) && op != Sub
    ensures c == Count(Pointwise(op, Content(blk), Content(arg)), 0, BLOCK_BITS)
  {
    hide Count, Pointwise, Constant, Valid, GapBits;
    if blk.GapBlk? {
      PointwiseCommutes(op, Content(blk), Content(arg));
      c := MixedCount(op, arg, blk.buf);
    } else if arg.GapBlk? {
      c := MixedCount(op, blk, arg.buf);
    } else {
      c := PlainCount(op, blk, arg);
    }
  }

  /** combine_count_operation_with_block, for one metric; SUB_BA is SUB_AB with the blocks exchanged. */
  method CountBlocks(m: Metric, blk: Block, arg: Block) returns (c: nat)
    requires WellFormed(blk) && WellFormed(arg)
    ensures c == Count(MetricBits(m, Content(blk), Content(arg)), 0, BLOCK_BITS)
  {
    hide Count, Pointwise, Constant, Valid, GapBits;
    if blk.GapBlk? && arg.GapBlk? {
      c := GapGap(m, blk.buf, arg.buf);
    } else {
      match m {
        case CountAnd => c := SymmetricCount(And, blk, arg);
        case CountOr => c := SymmetricCount(Or, blk, arg);
        case CountXor => c := SymmetricCount(Xor, blk, arg);
        case CountSubAB => c := SubCount(blk, arg);
        case CountSubBA => c := SubCount(arg, blk);
        case CountA => c := Ones(blk);
        case CountB => c := Ones(arg);
      }
    }
  }

  // ---------------------------------------------------------------- vectors

  /** The ones of a metric in the next block. */
  lemma MetricBlock(m: Metric, s: seq<bool>, t: seq<bool>, n: nat, blk: Block, arg: Block)
    requires |s| == |t| && WellFormed(blk) && WellFormed(arg) && BlockInside(s, n, blk) && BlockInside(t, n, arg)
    ensures Count(MetricBits(m, s, t), 0, n + BLOCK_BITS)
         == Count(MetricBits(m, s, t), 0, n) + Count(MetricBits(m, Content(blk), Content(arg)), 0, BLOCK_BITS)
  {
    hide Count, Content;
    var r, r' := MetricBits(m, s, t), MetricBits(m, Content(blk), Content(arg));
    forall i | 0 <= i < BLOCK_BITS ensures r[n + i] == r'[i] {
      assert s[n + i] == Content(blk)[i] && t[n + i] == Content(arg)[i];
    }
    CountSplit(r, 0, n, n + BLOCK_BITS);
    CountCopy(r, n, r', BLOCK_BITS);
  }

  lemma MetricNull(m: Metric, blk: Block, arg: Block)
    requires WellFormed(blk) && WellFormed(arg)
    requires (blk.Null? && arg.Null?) || (m == CountAnd && (blk.Null? || arg.Null?))
    ensures Count(MetricBits(m, Content(blk), Content(arg)), 0, BLOCK_BITS) == 0
  {
    PointwiseEmpty(Content(arg));
    PointwiseEmpty(Content(blk));
  }

  /** Counted over the whole strings, a metric is the size of its set. */
  lemma MetricCardinality(m: Metric, t: seq<SubArray>, u: seq<SubArray>)
    requires AllWellFormed(t) && AllWellFormed(u)
    ensures Count(MetricBits(m, Flat(t), Flat(u)), 0, ID_MAX + 1) == |MetricSet(m, Members(t), Members(u))|
  {
    hide Members, Flat, Count;
    var r := MetricBits(m, Flat(t), Flat(u));
    CountIsCardinality(r, 0, |r|);
    var a := set p | 0 <= p < |r| && r[p];
    forall n ensures n in a <==> n in MetricSet(m, Members(t), Members(u)) {
      if 0 <= n < |r| {
        FlatMembers(t, n);
        FlatMembers(u, n);
      } else {
        MembersBound(t);
        MembersBound(u);
      }
    }
    assert a == MetricSet(m, Members(t), Members(u));
  }

  lemma MembersBound(t: seq<SubArray>)
    requires AllWellFormed(t)
    ensures forall n | n in Members(t) :: n <= ID_MAX
  {
  }

  /** id_t: an unsigned 32-bit value. */
  type Id = x: int | 0 <= x <= ID_MAX

  /** distance_metric_descriptor. */
  datatype MetricDescriptor = MetricDescriptor(metric: Metric, result: Id)

  /** The descriptor has had the ones of its metric below n added, in 32 bits. */
  ghost predicate Added(d0: MetricDescriptor, d: MetricDescriptor, s: seq<bool>, t: seq<bool>, n: nat)
    requires |s| == |t| && n <= |s|
  {
    d.metric == d0.metric && d.result == Wrap32(d0.result + Count(MetricBits(d0.metric, s, t), 0, n))
  }

  ghost predicate AllAdded(d0: seq<MetricDescriptor>, d: seq<MetricDescriptor>, s: seq<bool>, t: seq<bool>, n: nat) {
    |s| == |t| && n <= |s| && |d| == |d0| && forall k | 0 <= k < |d| :: Added(d0[k], d[k], s, t, n)
  }

  lemma AddedNone(d: seq<MetricDescriptor>, s: seq<bool>, t: seq<bool>)
    requires |s| == |t|
    ensures AllAdded(d, d, s, t, 0)
  {
  }

  lemma AddedBlock(d0: MetricDescriptor, d: MetricDescriptor, s: seq<bool>, t: seq<bool>, n: nat, blk: Block, arg: Block, c: nat)
    requires |s| == |t| && WellFormed(blk) && WellFormed(arg) && BlockInside(s, n, blk) && BlockInside(t, n, arg)
    requires Added(d0, d, s, t, n) && c == Count(MetricBits(d.metric, Content(blk), Content(arg)), 0, BLOCK_BITS)
    ensures Added(d0, d.(result := Wrap32(d.result + c)), s, t, n + BLOCK_BITS)
    ensures c == 0 ==> d.(result := Wrap32(d.result + c)) == d
  {
    hide Count, MetricBits, BlockInside;
    BlockInsideBound(s, n, blk);
    MetricBlock(d.metric, s, t, n, blk, arg);
    WrapTwice(d0.result + Count(MetricBits(d.metric, s, t), 0, n), c);
  }

  /** A pair of blocks without ones for any of the metrics can be skipped. */
  lemma AddedSkip(d0: seq<MetricDescriptor>, d: seq<MetricDescriptor>, s: seq<bool>, t: seq<bool>, n: nat, blk: Block, arg: Block)
    requires WellFormed(blk) && WellFormed(arg) && AllAdded(d0, d, s, t, n)
    requires BlockInside(s, n, blk) && BlockInside(t, n, arg)
    requires (blk.Null? && arg.Null?) || (OnlyAnd(d) && (blk.Null? || arg.Null?))
    ensures AllAdded(d0, d, s, t, n + BLOCK_BITS)
  {
    hide Added, Content, BlockInside;
    BlockInsideBound(s, n, blk);
    forall k | 0 <= k < |d| ensures Added(d0[k], d[k], s, t, n + BLOCK_BITS) {
      MetricNull(d[k].metric, blk, arg);
      AddedBlock(d0[k], d[k], s, t, n, blk, arg, 0);
    }
  }

  lemma BlockInsideBound(s: seq<bool>, n: nat, b: Block)
    requires WellFormed(b) && BlockInside(s, n, b)
    ensures n + BLOCK_BITS <= |s|
  {
  }

  predicate OnlyAnd(d: seq<MetricDescriptor>) {
    forall k | 0 <= k < |d| :: d[k].metric == CountAnd
  }

  /** combine_count_operation_with_block: every descriptor of the pipeline gets the pair's ones. */
  method AddBlocks(dm: array<MetricDescriptor>, blk: Block, arg: Block, ghost d0: seq<MetricDescriptor>,
                   ghost s: seq<bool>, ghost t: seq<bool>, ghost n: nat)
    requires WellFormed(blk) && WellFormed(arg) && AllAdded(d0, dm[..], s, t, n)
    requires BlockInside(s, n, blk) && BlockInside(t, n, arg)
    modifies dm
    ensures AllAdded(d0, dm[..], s, t, n + BLOCK_BITS)
  {
    hide Added, Content, BlockInside, Wrap32, Count, MetricBits;
    BlockInsideBound(s, n, blk);
    assert forall k | 0 <= k < dm.Length :: Added(d0[k], dm[k], s, t, n) by {
      assert forall k | 0 <= k < dm.Length :: dm[k] == dm[..][k];
    }
    for k := 0 to dm.Length
      invariant forall i | k <= i < dm.Length :: Added(d0[i], dm[i], s, t, n)
      invariant forall i | 0 <= i < k :: Added(d0[i], dm[i], s, t, n + BLOCK_BITS)
    {
      var d := dm[k];
      var c := CountBlocks(d.metric, blk, arg);
      AddedBlock(d0[k], d, s, t, n, blk, arg, c);
      dm[k] := d.(result := Wrap32(d.result + c));
    }
  }

  /** distance_stage: whether nothing but AND is asked for. */
  method DistanceStage(dm: array<MetricDescriptor>) returns (isAllAnd: bool)
    ensures isAllAnd <==> OnlyAnd(dm[..])
  {
    isAllAnd := true;
    for k := 0 to dm.Length
      invariant isAllAnd <==> forall i | 0 <= i < k :: dm[i].metric == CountAnd
    {
      if dm[k].metric != CountAnd {
        isAllAnd := false;
      }
    }
  }

  lemma AddedMetrics(d0: seq<MetricDescriptor>, d: seq<MetricDescriptor>, s: seq<bool>, t: seq<bool>, n: nat)
    requires AllAdded(d0, d, s, t, n)
    ensures OnlyAnd(d) == OnlyAnd(d0)
  {
    assert forall k | 0 <= k < |d| :: Added(d0[k], d[k], s, t, n);
  }

  /** Block nb of both vectors; a pair with nothing to count is skipped. */
  method AddPair(dm: array<MetricDescriptor>, isAllAnd: bool, tree: seq<SubArray>, argTree: seq<SubArray>, nb: nat,
                 ghost d0: seq<MetricDescriptor>)
    requires AllWellFormed(tree) && AllWellFormed(argTree) && nb < ALL_BLOCKS
    requires AllAdded(d0, dm[..], Flat(tree), Flat(argTree), BLOCK_BITS * nb) && isAllAnd == OnlyAnd(d0)
    modifies dm
    ensures AllAdded(d0, dm[..], Flat(tree), Flat(argTree), BLOCK_BITS * nb + BLOCK_BITS)
  {
    hide AllAdded, Flat, BlockInside, OnlyAnd, BlockAt;
    ghost var s, t := Flat(tree), Flat(argTree);
    FlatBlock(tree, nb);
    FlatBlock(argTree, nb);
    var blk, arg := BlockAt(tree, nb), BlockAt(argTree, nb);
    if blk.Null? && (isAllAnd || arg.Null?) {
      AddedMetrics(d0, dm[..], s, t, BLOCK_BITS * nb);
      AddedSkip(d0, dm[..], s, t, BLOCK_BITS * nb, blk, arg);
    } else {
      AddBlocks(dm, blk, arg, d0, s, t, BLOCK_BITS * nb);
    }
  }

  /** The blocks of top entry i hold nothing to count: both missing, or one of them when only AND is asked for. */
  ghost predicate NothingIn(t: seq<SubArray>, u: seq<SubArray>, onlyAnd: bool, i: nat) {
    var none, none' := i >= |t| || t[i].Missing?, i >= |u| || u[i].Missing?;
    (none && none') || (onlyAnd && (none || none'))
  }

  lemma {:induction false} AddedSkipSub(d0: seq<MetricDescriptor>, d: seq<MetricDescriptor>, t: seq<SubArray>, u: seq<SubArray>, i: nat, j: nat)
    requires AllWellFormed(t) && AllWellFormed(u) && i < SUB_BLOCKS && j <= SUB_BLOCKS && NothingIn(t, u, OnlyAnd(d), i)
    requires AllAdded(d0, d, Flat(t), Flat(u), SUB_BITS * i)
    ensures AllAdded(d0, d, Flat(t), Flat(u), BLOCK_BITS * (SUB_BLOCKS * i + j))
    decreases j
  {
    hide AllAdded, Flat, BlockInside, OnlyAnd, BlockAt;
    if j > 0 {
      AddedSkipSub(d0, d, t, u, i, j - 1);
      var nb := SUB_BLOCKS * i + j - 1;
      FlatBlock(t, nb);
      FlatBlock(u, nb);
      if i >= |t| || t[i].Missing? {
        MissingNull(t, i, nb);
      }
      if i >= |u| || u[i].Missing? {
        MissingNull(u, i, nb);
      }
      AddedSkip(d0, d, Flat(t), Flat(u), BLOCK_BITS * nb, BlockAt(t, nb), BlockAt(u, nb));
    }
  }

  /** Top entries i..n-1 hold nothing to count. */
  lemma {:induction false} AddedRest(d0: seq<MetricDescriptor>, d: seq<MetricDescriptor>, t: seq<SubArray>, u: seq<SubArray>, i: nat, n: nat)
    requires AllWellFormed(t) && AllWellFormed(u) && i <= n <= SUB_BLOCKS
    requires AllAdded(d0, d, Flat(t), Flat(u), SUB_BITS * i)
    requires forall k | i <= k < n :: NothingIn(t, u, OnlyAnd(d), k)
    ensures AllAdded(d0, d, Flat(t), Flat(u), SUB_BITS * n)
    decreases n
  {
    hide AllAdded, Flat, OnlyAnd, NothingIn;
    if i < n {
      AddedRest(d0, d, t, u, i, n - 1);
      AddedSkipSub(d0, d, t, u, n - 1, SUB_BLOCKS);
    }
  }

  /** The result a descriptor must end with. */
  ghost predicate Measured(d0: seq<MetricDescriptor>, d: seq<MetricDescriptor>, a: set<nat>, b: set<nat>) {
    && |d| == |d0|
    && forall k | 0 <= k < |d| ::
         d[k].metric == d0[k].metric && d[k].result == Wrap32(d0[k].result + |MetricSet(d0[k].metric, a, b)|)
  }

  lemma AddedMeasured(d0: seq<MetricDescriptor>, d: seq<MetricDescriptor>, t: seq<SubArray>, u: seq<SubArray>)
    requires AllWellFormed(t) && AllWellFormed(u)
    requires AllAdded(d0, d, Flat(t), Flat(u), ID_MAX + 1)
    ensures Measured(d0, d, Members(t), Members(u))
  {
    hide Members, Flat, Count, MetricBits, MetricSet;
    forall k | 0 <= k < |d|
      ensures d[k].metric == d0[k].metric
           && d[k].result == Wrap32(d0[k].result + |MetricSet(d0[k].metric, Members(t), Members(u))|)
    {
      assert Added(d0[k], d[k], Flat(t), Flat(u), ID_MAX + 1);
      MetricCardinality(d0[k].metric, t, u);
    }
  }

  /** distance_operation: every metric of the pipeline is increased by the size of its set. */
  method DistanceOperation(v: BVector, w: BVector, dm: array<MetricDescriptor>)
    requires v.Valid() && w.Valid() && w.effTop <= |v.tree|
    modifies dm
    ensures Measured(old(dm[..]), dm[..], v.Contents(), w.Contents())
  {
    hide TreeOk, Members, AllAdded, Flat, OnlyAnd, Measured, BlockAt;
    ghost var d0 := dm[..];
    ghost var s, t := Flat(v.tree), Flat(w.tree);
    var isAllAnd := DistanceStage(dm);
    var top := Larger(v.effTop, w.effTop);
    EffectiveBound(v.tree, v.effTop, v.glen);
    EffectiveBound(w.tree, w.effTop, w.glen);
    AddedNone(d0, s, t);
    for i := 0 to top
      invariant AllAdded(d0, dm[..], s, t, SUB_BITS * i)
    {
      if v.tree[i].Missing? && (isAllAnd || i >= |w.tree| || w.tree[i].Missing?) {
        AddedMetrics(d0, dm[..], s, t, SUB_BITS * i);
        AddedSkipSub(d0, dm[..], v.tree, w.tree, i, SUB_BLOCKS);
      } else {
        for j := 0 to SUB_BLOCKS
          invariant AllAdded(d0, dm[..], s, t, BLOCK_BITS * (SUB_BLOCKS * i + j))
        {
          AddPair(dm, isAllAnd, v.tree, w.tree, SUB_BLOCKS * i + j, d0);
        }
      }
    }
    BeyondMissing(v.tree, v.effTop, v.glen);
    BeyondMissing(w.tree, w.effTop, w.glen);
    AddedRest(d0, dm[..], v.tree, w.tree, top, SUB_BLOCKS);
    AddedMeasured(d0, dm[..], v.tree, w.tree);
  }

  lemma BeyondMissing(tree: seq<SubArray>, effTop: nat, glen: seq<GapWord>)
    requires TreeOk(tree, effTop, glen)
    ensures forall i | effTop <= i < |tree| :: tree[i].Missing?
  {
  }

  /** combine_count_and_operation_with_block on block nb, when both vectors have it. */
  method AndPair(count: Id, tree: seq<SubArray>, argTree: seq<SubArray>, nb: nat) returns (count': Id)
    requires AllWellFormed(tree) && AllWellFormed(argTree) && nb < ALL_BLOCKS
    requires AllAdded(NO_AND, [MetricDescriptor(CountAnd, count)], Flat(tree), Flat(argTree), BLOCK_BITS * nb)
    ensures AllAdded(NO_AND, [MetricDescriptor(CountAnd, count')], Flat(tree), Flat(argTree), BLOCK_BITS * nb + BLOCK_BITS)
  {
    hide Flat, BlockInside, BlockAt, Added, Content, Wrap32, Count;
    FlatBlock(tree, nb);
    FlatBlock(argTree, nb);
    var blk, arg := BlockAt(tree, nb), BlockAt(argTree, nb);
    ghost var s, t := Flat(tree), Flat(argTree);
    ghost var d := MetricDescriptor(CountAnd, count);
    if !blk.Null? && !arg.Null? {
      var c := CountBlocks(CountAnd, blk, arg);
      count' := Wrap32(count + c);
      assert Added(NO_AND[0], [d][0], s, t, BLOCK_BITS * nb);
      AddedBlock(NO_AND[0], d, s, t, BLOCK_BITS * nb, blk, arg, c);
    } else {
      AddedSkip(NO_AND, [d], s, t, BLOCK_BITS * nb, blk, arg);
      count' := count;
    }
  }

  const NO_AND := [MetricDescriptor(CountAnd, 0)]

  /** distance_and_operation: the size of the intersection, for vectors of any two sizes. */
  method DistanceAnd(v: BVector, w: BVector) returns (count: Id)
    requires v.Valid() && w.Valid()
    ensures count == Wrap32(|v.Contents() * w.Contents()|)
  {
    hide TreeOk, Members, AllAdded, Flat, BlockAt;
    ghost var s, t := Flat(v.tree), Flat(w.tree);
    var top := if v.effTop < w.effTop then v.effTop else w.effTop;
    EffectiveBound(v.tree, v.effTop, v.glen);
    EffectiveBound(w.tree, w.effTop, w.glen);
    AddedNone(NO_AND, s, t);
    count := 0;
    for i := 0 to top
      invariant AllAdded(NO_AND, [MetricDescriptor(CountAnd, count)], s, t, SUB_BITS * i)
    {
      if v.tree[i].Missing? || w.tree[i].Missing? {
        AddedSkipSub(NO_AND, [MetricDescriptor(CountAnd, count)], v.tree, w.tree, i, SUB_BLOCKS);
      } else {
        for j := 0 to SUB_BLOCKS
          invariant AllAdded(NO_AND, [MetricDescriptor(CountAnd, count)], s, t, BLOCK_BITS * (SUB_BLOCKS * i + j))
        {
          count := AndPair(count, v.tree, w.tree, SUB_BLOCKS * i + j);
        }
      }
    }
    BeyondMissing(v.tree, v.effTop, v.glen);
    BeyondMissing(w.tree, w.effTop, w.glen);
    AddedRest(NO_AND, [MetricDescriptor(CountAnd, count)], v.tree, w.tree, top, SUB_BLOCKS);
    AddedMeasured(NO_AND, [MetricDescriptor(CountAnd, count)], v.tree, w.tree);
    assert [MetricDescriptor(CountAnd, count)][0].result == count;
  }
}
