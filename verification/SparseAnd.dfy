/**
 AND of a GAP block holding few ones with a plain block: the ones are listed, and those the plain
 block also has are set one by one in a new GAP block, which may grow by levels or degrade to bits.
 */
module SparseAnd {
  import opened BitString
  import opened Gap
  import opened BitBlock
  import opened Blocks
  import GapArray
  import GapRuns

  /** The ones of s that arg also has, below lim. */
  ghost predicate Selected(c: seq<bool>, s: seq<bool>, arg: seq<bool>, lim: int) {
    && |c| == |s| == |arg| == BLOCK_BITS
    && forall p | 0 <= p < BLOCK_BITS :: c[p] == (s[p] && arg[p] && p < lim)
  }

  /** The i-th one of s, or the end of the block. */
  ghost function Limit(s: seq<bool>, i: nat): int
    requires |s| == BLOCK_BITS
  {
    if i < |Positions(s, BLOCK_BITS)| then Positions(s, BLOCK_BITS)[i] else BLOCK_BITS
  }

  lemma SelectedStart(s: seq<bool>, arg: seq<bool>)
    requires |s| == |arg| == BLOCK_BITS
    ensures Selected(Constant(false), s, arg, Limit(s, 0))
  {
    PositionsSorted(s, BLOCK_BITS);
  }

  lemma SelectedDone(c: seq<bool>, s: seq<bool>, arg: seq<bool>)
    requires |s| == BLOCK_BITS && Selected(c, s, arg, Limit(s, |Positions(s, BLOCK_BITS)|))
    ensures c == Pointwise(And, s, arg)
  {
  }

  /** Between the i-th one and the next there is no other. */
  lemma NoOneBetween(s: seq<bool>, i: nat, p: nat)
    requires |s| == BLOCK_BITS && i < |Positions(s, BLOCK_BITS)| && p < BLOCK_BITS && s[p]
    requires Positions(s, BLOCK_BITS)[i] < p
    ensures Limit(s, i + 1) <= p
  {
    PositionsSorted(s, BLOCK_BITS);
    assert p in Positions(s, BLOCK_BITS);
  }

  /** The next one is taken over exactly when arg has it. */
  lemma SelectedStep(c: seq<bool>, c': seq<bool>, s: seq<bool>, arg: seq<bool>, i: nat, pos: nat)
    requires |s| == BLOCK_BITS && i < |Positions(s, BLOCK_BITS)| && pos == Positions(s, BLOCK_BITS)[i] < BLOCK_BITS
    requires Selected(c, s, arg, Limit(s, i)) && |c'| == BLOCK_BITS
    requires forall p | 0 <= p < BLOCK_BITS :: c'[p] == (c[p] || (p == pos && arg[pos]))
    ensures Selected(c', s, arg, Limit(s, i + 1))
  {
    PositionsSorted(s, BLOCK_BITS);
    forall p | 0 <= p < BLOCK_BITS && s[p] && pos < p ensures Limit(s, i + 1) <= p {
      NoOneBetween(s, i, p);
    }
    hide Positions;
  }

  /** Sets one bit of a plain block in place. */
  method SetInBits(bits: seq<bool>, pos: nat) returns (bits': seq<bool>)
    requires |bits| == BLOCK_BITS && pos < BLOCK_BITS
    ensures bits' == bits[pos := true]
  {
    var a := new bool[BLOCK_BITS](i requires 0 <= i < BLOCK_BITS => bits[i]);
    assert a[..] == bits;
    RangeOp(Or, a, pos, 1);
    bits' := a[..];
  }

  /** A GAP block of level 0 with at most n runs. */
  ghost predicate Lowest(b: Block, n: nat) {
    b.GapBlk? && |b.buf| > 0 && Level(b.buf) == 0 && Length(b.buf) <= n
  }

  /** The first i listed ones have been looked at; while they surely fit level 0 the block is of that level. */
  ghost predicate Progress(b: Block, glen: seq<GapWord>, s: seq<bool>, arg: seq<bool>, i: nat) {
    && LevelTable(glen) && BlockOk(b, glen) && (b.GapBlk? || b.BitBlk?) && |s| == BLOCK_BITS
    && Selected(Content(b), s, arg, Limit(s, i)) && (2 * i + 1 <= glen[0] - 4 ==> Lowest(b, 2 * i + 1))
  }

  /** A bit is set in a block that is not null or full; two runs more still fit level 0 when the limit allows. */
  method SetInBlock(b: Block, pos: nat, glen: seq<GapWord>) returns (r: Block)
    requires LevelTable(glen) && BlockOk(b, glen) && (b.GapBlk? || b.BitBlk?) && pos < BLOCK_BITS
    ensures BlockOk(r, glen) && (r.GapBlk? || r.BitBlk?) && Content(r) == Content(b)[pos := true]
    ensures forall n: nat | Lowest(b, n) && n + 2 <= glen[0] - 4 :: Lowest(r, n + 2)
  {
    hide Canonical, Bits, BitAt, Level, Length, GapRuns.NewRuns;
    if b.GapBlk? {
      var changed;
      SparseLimit(glen, b);
      GapRuns.NewRunsBound(b.buf, pos, true);
      r, changed := SetInGapBlock(b.buf, pos, true, glen[0] as int - 4, glen);
    } else {
      var bits := SetInBits(b.bits, pos);
      r := BitBlk(bits);
    }
  }

  lemma ProgressStep(b: Block, r: Block, glen: seq<GapWord>, s: seq<bool>, arg: seq<bool>, i: nat, pos: nat)
    requires |arg| == |s| == BLOCK_BITS && Progress(b, glen, s, arg, i)
    requires i < |Positions(s, BLOCK_BITS)| && pos == Positions(s, BLOCK_BITS)[i] < BLOCK_BITS
    requires if arg[pos] then BlockOk(r, glen) && (r.GapBlk? || r.BitBlk?) && Content(r) == Content(b)[pos := true] else r == b
    requires forall n: nat | Lowest(b, n) && n + 2 <= glen[0] - 4 :: Lowest(r, n + 2)
    ensures Progress(r, glen, s, arg, i + 1)
  {
    hide Positions, Selected, Limit, BlockOk, Content;
    SelectedStep(Content(b), Content(r), s, arg, i, pos);
  }

  lemma LowestMore(b: Block, n: nat)
    ensures Lowest(b, n) ==> Lowest(b, n + 2)
  {
  }

  /** The block after the i-th listed one has been looked at. */
  method SelectOne(b: Block, pos: nat, glen: seq<GapWord>, arg: seq<bool>, ghost s: seq<bool>, ghost i: nat) returns (r: Block)
    requires LevelTable(glen) && |arg| == |s| == BLOCK_BITS && Progress(b, glen, s, arg, i)
    requires i < |Positions(s, BLOCK_BITS)| && pos == Positions(s, BLOCK_BITS)[i] < BLOCK_BITS
    ensures Progress(r, glen, s, arg, i + 1)
  {
    hide Positions, Selected, Limit, Content, BlockOk, Lowest;
    r := b;
    if arg[pos] {
      r := SetInBlock(b, pos, glen);
    } else {
      forall n: nat | Lowest(b, n) && n + 2 <= glen[0] - 4 ensures Lowest(r, n + 2) {
        LowestMore(b, n);
      }
    }
    ProgressStep(b, r, glen, s, arg, i, pos);
  }

  lemma SparseLimit(glen: seq<GapWord>, b: Block)
    requires LevelTable(glen) && BlockOk(b, glen) && b.GapBlk?
    ensures glen[0] <= glen[Level(b.buf)] && Fits(b.buf, glen) && Valid(b.buf)
  {
  }

  /** The ones of a buffer that has fewer than 128 of them. */
  method ListOnes(buf: seq<GapWord>) returns (list: seq<GapWord>)
    requires Valid(buf) && Count(GapBits(buf), 0, BLOCK_BITS) < 128
    ensures |list| == |Positions(GapBits(buf), BLOCK_BITS)|
    ensures forall i | 0 <= i < |list| :: list[i] == Positions(GapBits(buf), BLOCK_BITS)[i]
  {
    hide Positions, Count;
    var a := new GapWord[3 * EQUIV_LEN](i => 0);
    GapArray.ShownBits(buf, false);
    var n := GapArray.ToArray(a, buf, EQUIV_LEN - 10, false);
    list := a[..n];
  }

  /** The AND, for a buffer with fewer than 128 ones. */
  method AndSparse(buf: seq<GapWord>, arg: seq<bool>, glen: seq<GapWord>) returns (r: Block)
    requires LevelTable(glen) && Valid(buf) && |arg| == BLOCK_BITS && Count(GapBits(buf), 0, BLOCK_BITS) < 128
    ensures BlockOk(r, glen) && Content(r) == Pointwise(And, GapBits(buf), arg) && (r.GapBlk? || r.BitBlk?)
    ensures 2 * Count(GapBits(buf), 0, BLOCK_BITS) + 1 <= glen[0] - 4 ==> Lowest(r, glen[0] - 4)
  {
    hide Positions, Count, Progress, GapBits, Valid, Lowest;
    ghost var s := GapBits(buf);
    var list := ListOnes(buf);
    ProgressStart(glen, s, arg);
    r := GapBlk(OneRun(glen, false));
    for i := 0 to |list|
      invariant Progress(r, glen, s, arg, i)
    {
      r := SelectOne(r, list[i], glen, arg, s, i);
    }
    ProgressDone(r, glen, s, arg);
  }

  lemma ProgressStart(glen: seq<GapWord>, s: seq<bool>, arg: seq<bool>)
    requires LevelTable(glen) && |s| == |arg| == BLOCK_BITS
    ensures Progress(GapBlk(OneRun(glen, false)), glen, s, arg, 0)
  {
    hide Selected, Limit, Fits;
    OneRunFits(glen, false);
    SelectedStart(s, arg);
  }

  lemma ProgressDone(r: Block, glen: seq<GapWord>, s: seq<bool>, arg: seq<bool>)
    requires |s| == |arg| == BLOCK_BITS && Progress(r, glen, s, arg, |Positions(s, BLOCK_BITS)|)
    ensures LevelTable(glen) && BlockOk(r, glen) && Content(r) == Pointwise(And, s, arg) && (r.GapBlk? || r.BitBlk?)
    ensures 2 * Count(s, 0, BLOCK_BITS) + 1 <= glen[0] - 4 ==> Lowest(r, glen[0] - 4)
  {
    hide Selected, Limit, Fits, Positions, Count;
    SelectedDone(Content(r), s, arg);
    PositionsCount(s, BLOCK_BITS);
  }
}
