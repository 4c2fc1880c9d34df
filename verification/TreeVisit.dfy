/**
 Walking the tree with a block functor: for_each_block and for_each_nzblock.
 */
module TreeVisit {
  import opened Gap
  import opened BitBlock
  import opened Blocks
  import opened Tree
  import opened Visitors

  /** The bits of block j of a top entry. */
  ghost function Held(s: SubArray, j: nat): (r: seq<bool>)
    requires s.Present? ==> j < |s.blks| && WellFormed(s.blks[j])
    ensures |r| == BLOCK_BITS
  {
    if s.Present? then Content(s.blks[j]) else Constant(false)
  }

  ghost predicate SubShaped(s: SubArray) {
    s.Present? ==> |s.blks| == SUB_BLOCKS && forall j | 0 <= j < SUB_BLOCKS :: WellFormed(s.blks[j])
  }

  /** Blocks below n carry the functor's effect, the others are as before. */
  ghost predicate VisitedTo(f: Functor, s: SubArray, s': SubArray, n: nat)
    requires SubShaped(s) && SubShaped(s')
  {
    forall j | 0 <= j < SUB_BLOCKS :: Held(s', j) == if j < n then Effect(f, Held(s, j)) else Held(s, j)
  }

  /** Block j of a top entry, null in a missing one. */
  function Entry(s: SubArray, j: nat): Block {
    if s.Present? && j < |s.blks| then s.blks[j] else Null
  }

  /** Blocks below n are of the kind the functor leaves. */
  ghost predicate SettledTo(f: Functor, s: SubArray, s': SubArray, n: nat, glen: seq<GapWord>)
    requires SubShaped(s) && LevelTable(glen) && LevelTable(TableAfter(f, glen)) && n <= SUB_BLOCKS
  {
    forall j | 0 <= j < n :: Settled(f, Entry(s, j), Entry(s', j), glen)
  }

  lemma SettledNull(f: Functor, glen: seq<GapWord>)
    requires LevelTable(glen) && LevelTable(TableAfter(f, glen)) && !f.Invert?
    ensures Settled(f, Null, Null, glen)
  {
  }

  lemma SettledMissing(f: Functor, s: SubArray, s': SubArray, glen: seq<GapWord>)
    requires LevelTable(glen) && LevelTable(TableAfter(f, glen)) && s.Missing? && s'.Missing? && !f.Invert?
    ensures SettledTo(f, s, s', SUB_BLOCKS, glen)
  {
    SettledNull(f, glen);
  }

  lemma EffectOnNull(f: Functor)
    requires !f.Invert?
    ensures Effect(f, Constant(false)) == Constant(false)
  {
  }

  /** r is what the functor makes of block b. */
  ghost predicate VisitedOne(f: Functor, b: Block, r: Block, glen: seq<GapWord>)
    requires LevelTable(glen) && LevelTable(TableAfter(f, glen)) && BlockOk(b, glen)
  {
    BlockOk(r, TableAfter(f, glen)) && Content(r) == Effect(f, Content(b)) && Settled(f, b, r, glen)
  }

  /** Visits one block; null blocks only when the functor is to see them. */
  method VisitOne(f: Functor, b: Block, glen: seq<GapWord>) returns (r: Block)
    requires LevelTable(glen) && LevelTable(TableAfter(f, glen)) && BlockOk(b, glen)
    ensures VisitedOne(f, b, r, glen)
  {
    hide Effect, Settled;
    if !b.Null? || f.Invert? {
      r := Visit(f, b, glen);
    } else {
      EffectOnNull(f);
      SettledNull(f, glen);
      r := b;
    }
  }

  /** Visits the blocks of one sub-array. */
  method VisitBlocks(f: Functor, blks: seq<Block>, glen: seq<GapWord>) returns (r: seq<Block>)
    requires LevelTable(glen) && LevelTable(TableAfter(f, glen)) && SubOk(Present(blks), glen)
    ensures SubOk(Present(r), TableAfter(f, glen)) && VisitedTo(f, Present(blks), Present(r), SUB_BLOCKS)
    ensures SettledTo(f, Present(blks), Present(r), SUB_BLOCKS, glen)
  {
    hide VisitedOne, BlockOk, LevelTable, TableAfter, VisitedTo, SettledTo;
    r := blks;
    for j := 0 to SUB_BLOCKS
      invariant |r| == SUB_BLOCKS && forall k | j <= k < SUB_BLOCKS :: r[k] == blks[k]
      invariant forall k | 0 <= k < j :: VisitedOne(f, blks[k], r[k], glen)
    {
      var b := VisitOne(f, r[j], glen);
      r := r[j := b];
    }
    AllVisited(f, blks, r, glen);
  }

  lemma AllVisited(f: Functor, blks: seq<Block>, r: seq<Block>, glen: seq<GapWord>)
    requires LevelTable(glen) && LevelTable(TableAfter(f, glen)) && SubOk(Present(blks), glen) && |r| == SUB_BLOCKS
    requires forall k | 0 <= k < SUB_BLOCKS :: VisitedOne(f, blks[k], r[k], glen)
    ensures SubOk(Present(r), TableAfter(f, glen)) && VisitedTo(f, Present(blks), Present(r), SUB_BLOCKS)
    ensures SettledTo(f, Present(blks), Present(r), SUB_BLOCKS, glen)
  {
    hide Effect, Settled, Content, Fits, LevelTable, TableAfter;
    assert forall k | 0 <= k < SUB_BLOCKS :: VisitedOne(f, blks[k], r[k], glen) && BlockOk(r[k], TableAfter(f, glen));
  }

  /** One top entry: a missing sub-array is made for inversion only, and an emptied one freed by optimisation. */
  method VisitSub(f: Functor, s: SubArray, glen: seq<GapWord>) returns (r: SubArray)
    requires LevelTable(glen) && LevelTable(TableAfter(f, glen)) && SubOk(s, glen)
    ensures SubOk(r, TableAfter(f, glen)) && VisitedTo(f, s, r, SUB_BLOCKS) && SettledTo(f, s, r, SUB_BLOCKS, glen)
    ensures s.Missing? && !f.Invert? ==> r.Missing?
  {
    hide Effect, Fits, Settled;
    if s.Missing? && !f.Invert? {
      EffectOnNull(f);
      SettledNull(f, glen);
      r := Missing;
    } else {
      var blks := if s.Missing? then seq(SUB_BLOCKS, j => Null) else s.blks;
      var blks' := VisitBlocks(f, blks, glen);
      r := if f.Optimize? && (forall j | 0 <= j < |blks'| :: blks'[j].Null?) then Missing else Present(blks');
      assert VisitedTo(f, Present(blks), Present(blks'), SUB_BLOCKS);
      assert forall j | 0 <= j < SUB_BLOCKS :: Entry(s, j) == Entry(Present(blks), j) && Entry(r, j) == Entry(Present(blks'), j);
    }
  }

  /** Entries below n carry the functor's effect and the new level table. */
  ghost predicate TreeVisitedTo(f: Functor, t0: seq<SubArray>, t: seq<SubArray>, n: nat, glen: seq<GapWord>) {
    && LevelTable(glen) && LevelTable(TableAfter(f, glen)) && |t| == |t0|
    && (forall i | 0 <= i < |t| :: SubOk(t0[i], glen) && SubOk(t[i], if i < n then TableAfter(f, glen) else glen))
    && (forall i | n <= i < |t| :: t[i] == t0[i])
    && (forall i | 0 <= i < n && i < |t| :: VisitedTo(f, t0[i], t[i], SUB_BLOCKS) && SettledTo(f, t0[i], t[i], SUB_BLOCKS, glen))
    && (forall i | 0 <= i < |t| && t0[i].Missing? && !f.Invert? :: t[i].Missing?)
  }

  /** All entries below top; those beyond are missing. */
  method VisitTree(f: Functor, tree: seq<SubArray>, top: nat, glen: seq<GapWord>) returns (t: seq<SubArray>)
    requires TreeOk(tree, top, glen) && LevelTable(TableAfter(f, glen)) && (f.Invert? ==> top == |tree|)
    ensures TreeVisitedTo(f, tree, t, |tree|, glen) && TreeOk(t, top, TableAfter(f, glen)) && |t| == |tree|
  {
    hide SubOk, VisitedTo, SettledTo, TableAfter, AllWellFormed;
    TreeParts(tree, top, glen);
    t := tree;
    for i := 0 to top
      invariant TreeVisitedTo(f, tree, t, i, glen)
    {
      var s := VisitSub(f, t[i], glen);
      t := t[i := s];
    }
    TreeVisitedAll(f, tree, t, top, glen);
  }

  lemma TreeParts(tree: seq<SubArray>, top: nat, glen: seq<GapWord>)
    requires TreeOk(tree, top, glen)
    ensures LevelTable(glen) && top <= |tree| <= SUB_BLOCKS
    ensures forall i | 0 <= i < |tree| :: SubOk(tree[i], glen)
    ensures forall i | top <= i < |tree| :: tree[i].Missing?
  {
  }

  lemma TreeVisitedAll(f: Functor, t0: seq<SubArray>, t: seq<SubArray>, top: nat, glen: seq<GapWord>)
    requires TreeOk(t0, top, glen) && TreeVisitedTo(f, t0, t, top, glen) && (f.Invert? ==> top == |t0|)
    ensures TreeVisitedTo(f, t0, t, |t0|, glen) && TreeOk(t, top, TableAfter(f, glen))
  {
    hide Effect, Fits, BlockAt, SettledTo;
    if !f.Invert? {
      EffectOnNull(f);
    }
    forall i | top <= i < |t0| ensures SettledTo(f, t0[i], t[i], SUB_BLOCKS, glen) {
      SettledMissing(f, t0[i], t[i], glen);
    }
  }

  /** Block by block, a visited tree holds the effect of the functor. */
  lemma VisitedBlock(f: Functor, t0: seq<SubArray>, t: seq<SubArray>, top: nat, glen: seq<GapWord>, nb: nat)
    requires TreeOk(t0, top, glen) && TreeVisitedTo(f, t0, t, |t0|, glen) && AllWellFormed(t)
    requires nb < SUB_BLOCKS * |t0| || !f.Invert?
    ensures Content(BlockAt(t, nb)) == Effect(f, Content(BlockAt(t0, nb)))
  {
    hide Fits;
    var i, j := nb / SUB_BLOCKS, nb % SUB_BLOCKS;
    if i < |t0| {
      assert VisitedTo(f, t0[i], t[i], SUB_BLOCKS);
      assert Held(t[i], j) == Effect(f, Held(t0[i], j));
    } else {
      EffectOnNull(f);
    }
  }

  /** Block by block, a visited tree holds the kinds of block the functor leaves. */
  lemma SettledBlock(f: Functor, t0: seq<SubArray>, t: seq<SubArray>, top: nat, glen: seq<GapWord>, nb: nat)
    requires TreeOk(t0, top, glen) && TreeVisitedTo(f, t0, t, |t0|, glen) && (nb < SUB_BLOCKS * |t0| || !f.Invert?)
    ensures LevelTable(TableAfter(f, glen)) && Settled(f, BlockAt(t0, nb), BlockAt(t, nb), glen)
  {
    hide Fits, Settled, VisitedTo;
    var i, j := nb / SUB_BLOCKS, nb % SUB_BLOCKS;
    if i < |t0| {
      assert SettledTo(f, t0[i], t[i], SUB_BLOCKS, glen);
      assert Settled(f, Entry(t0[i], j), Entry(t[i], j), glen);
    } else {
      SettledNull(f, glen);
    }
  }

  /** Optimisation and a new level table leave the set of ones as it is; zeroing empties it. */
  lemma VisitedMembers(f: Functor, t0: seq<SubArray>, t: seq<SubArray>, top: nat, glen: seq<GapWord>)
    requires TreeOk(t0, top, glen) && TreeVisitedTo(f, t0, t, |t0|, glen) && AllWellFormed(t) && !f.Invert?
    ensures Members(t) == if f.Zero? then {} else Members(t0)
  {
    forall n: nat | n <= ID_MAX ensures Has(t, n) == (!f.Zero? && Has(t0, n)) {
      VisitedBlock(f, t0, t, top, glen, n / BLOCK_BITS);
    }
    hide Has;
  }

  lemma InvertedMembers(t0: seq<SubArray>, t: seq<SubArray>, top: nat, glen: seq<GapWord>, n: nat)
    requires TreeOk(t0, top, glen) && TreeVisitedTo(Invert, t0, t, |t0|, glen) && AllWellFormed(t)
    requires n <= ID_MAX && n < SUB_BITS * |t0|
    ensures n in Members(t) <==> n !in Members(t0)
  {
    assert n / BLOCK_BITS < SUB_BLOCKS * |t0|;
    VisitedBlock(Invert, t0, t, top, glen, n / BLOCK_BITS);
  }
}
