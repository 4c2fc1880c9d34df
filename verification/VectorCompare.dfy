/**
 bvector::compare: the lexicographic order of bit strings, as an order on sets of positions.
 */
module VectorCompare {
  import opened BitString
  import opened Gap
  import opened BitBlock
  import opened Blocks
  import opened Tree
  import opened Vector
  import BlockCompare

  ghost predicate SameBelow(a: set<nat>, b: set<nat>, n: nat) {
    forall m: nat | m < n :: m in a <==> m in b
  }

  /** The sets differ first at a position that b has. */
  ghost predicate Less(a: set<nat>, b: set<nat>) {
    exists n: nat :: n !in a && n in b && SameBelow(a, b, n)
  }

  lemma LessAsymmetric(a: set<nat>, b: set<nat>)
    requires Less(a, b)
    ensures !Less(b, a) && a != b
  {
    var n: nat :| n !in a && n in b && SameBelow(a, b, n);
  }

  lemma LessTransitive(a: set<nat>, b: set<nat>, c: set<nat>)
    requires Less(a, b) && Less(b, c)
    ensures Less(a, c)
  {
    var n: nat :| n !in a && n in b && SameBelow(a, b, n);
    var m: nat :| m !in b && m in c && SameBelow(b, c, m);
    var k := if n < m then n else m;
    assert k !in a && k in c && SameBelow(a, c, k);
  }

  /** The first difference of two different sets, searched upwards. */
  lemma {:induction false} FirstDifference(a: set<nat>, b: set<nat>, n: nat, d: nat)
    requires n <= d && SameBelow(a, b, n) && (d in a) != (d in b)
    ensures Less(a, b) || Less(b, a)
    decreases d - n
  {
    if (n in a) == (n in b) {
      assert SameBelow(a, b, n + 1);
      FirstDifference(a, b, n + 1, d);
    } else if n in b {
      assert n !in a && n in b && SameBelow(a, b, n);
    } else {
      assert n !in b && n in a && SameBelow(b, a, n);
    }
  }

  lemma LessTotal(a: set<nat>, b: set<nat>)
    ensures a == b || Less(a, b) || Less(b, a)
  {
    if a != b {
      var d: nat :| (d in a) != (d in b);
      FirstDifference(a, b, 0, d);
    }
  }

  /** Blocks below nb hold the same bits. */
  ghost predicate SameBlocks(t: seq<SubArray>, u: seq<SubArray>, nb: nat)
    requires AllWellFormed(t) && AllWellFormed(u)
  {
    forall m: nat | m < nb :: Content(BlockAt(t, m)) == Content(BlockAt(u, m))
  }

  lemma SameBlocksAll(t: seq<SubArray>, u: seq<SubArray>)
    requires AllWellFormed(t) && AllWellFormed(u) && SameBlocks(t, u, ALL_BLOCKS)
    ensures Members(t) == Members(u)
  {
    assert forall n: nat | n <= ID_MAX :: Has(t, n) == Has(u, n);
  }

  /** Equal blocks below nb and equal bits below p in it: the sets agree that far. */
  lemma SameMembersBelow(t: seq<SubArray>, u: seq<SubArray>, nb: nat, p: nat)
    requires AllWellFormed(t) && AllWellFormed(u) && nb < ALL_BLOCKS && p < BLOCK_BITS && SameBlocks(t, u, nb)
    requires Agree(Content(BlockAt(t, nb)), Content(BlockAt(u, nb)), 0, p)
    ensures SameBelow(Members(t), Members(u), BLOCK_BITS * nb + p)
  {
    hide Content, BlockAt, Members;
    forall m: nat | m < BLOCK_BITS * nb + p ensures m in Members(t) <==> m in Members(u) {
      var b, q := m / BLOCK_BITS, m % BLOCK_BITS;
      MemberBit(t, b, q);
      MemberBit(u, b, q);
    }
  }

  /** The order of the first blocks that differ is the order of the sets. */
  lemma BlockDecides(t: seq<SubArray>, u: seq<SubArray>, nb: nat)
    requires AllWellFormed(t) && AllWellFormed(u) && nb < ALL_BLOCKS && SameBlocks(t, u, nb)
    requires Lex(Content(BlockAt(t, nb)), Content(BlockAt(u, nb)), 0) == -1
    ensures Less(Members(t), Members(u))
  {
    hide Content, BlockAt, Members, Lex, SameBelow, SameBlocks;
    var s, r := Content(BlockAt(t, nb)), Content(BlockAt(u, nb));
    LexMeaning(s, r, 0);
    var p :| 0 <= p < |s| && s[p] != r[p] && s[p] == (Lex(s, r, 0) == 1) && Agree(s, r, 0, p);
    MemberBit(t, nb, p);
    MemberBit(u, nb, p);
    SameMembersBelow(t, u, nb, p);
  }

  lemma LexOpposite(s: seq<bool>, t: seq<bool>)
    requires |s| == |t|
    ensures Lex(s, t, 0) == -Lex(t, s, 0)
  {
    LexMeaning(s, t, 0);
    LexMeaning(t, s, 0);
    if Lex(s, t, 0) != 0 {
      var m :| 0 <= m < |s| && s[m] != t[m] && s[m] == (Lex(s, t, 0) == 1) && Agree(s, t, 0, m);
      var k :| 0 <= k < |s| && s[k] != t[k] && t[k] == (Lex(t, s, 0) == 1) && Agree(t, s, 0, k);
      assert m == k;
    }
  }

  /** -1, 0 or 1 as v is below, equal to or above w. */
  method Compare(v: BVector, w: BVector) returns (r: int)
    requires v.Valid() && w.Valid()
    ensures r == 0 <==> v.Contents() == w.Contents()
    ensures r < 0 <==> Less(v.Contents(), w.Contents())
    ensures r > 0 <==> Less(w.Contents(), v.Contents())
  {
    hide TreeOk, Lex, Less, Content, BlockAt, Members, SameBlocks;
    r := CompareTrees(v.tree, v.effTop, v.glen, w.tree, w.effTop, w.glen);
    if r < 0 {
      LessAsymmetric(v.Contents(), w.Contents());
    } else if r > 0 {
      LessAsymmetric(w.Contents(), v.Contents());
    } else {
      NotLessSelf(v.Contents());
    }
  }

  lemma NotLessSelf(a: set<nat>)
    ensures !Less(a, a)
  {
  }

  /** The block scan of compare up to the larger effective size. */
  method CompareTrees(t: seq<SubArray>, top: nat, glen: seq<GapWord>, u: seq<SubArray>, top': nat, glen': seq<GapWord>) returns (r: int)
    requires TreeOk(t, top, glen) && TreeOk(u, top', glen')
    ensures -1 <= r <= 1 && (r == 0 ==> Members(t) == Members(u))
    ensures r == -1 ==> Less(Members(t), Members(u))
    ensures r == 1 ==> Less(Members(u), Members(t))
  {
    hide TreeOk, Lex, Less, Content, BlockAt, Members;
    EffectiveBound(t, top, glen);
    EffectiveBound(u, top', glen');
    var bound := if top < top' then top' else top;
    for i := 0 to bound
      invariant SameBlocks(t, u, SUB_BLOCKS * i)
    {
      if (i >= |t| || t[i].Missing?) && (i >= |u| || u[i].Missing?) {
        forall m: nat | SUB_BLOCKS * i <= m < SUB_BLOCKS * i + SUB_BLOCKS ensures Content(BlockAt(t, m)) == Content(BlockAt(u, m)) {
          MissingNull(t, i, m);
          MissingNull(u, i, m);
        }
      } else {
        for j := 0 to SUB_BLOCKS
          invariant SameBlocks(t, u, SUB_BLOCKS * i + j)
        {
          var nb := SUB_BLOCKS * i + j;
          r := BlockCompare.CompareBlocks(BlockAt(t, nb), BlockAt(u, nb));
          BlockVerdict(t, u, nb, r);
          if r != 0 {
            return;
          }
        }
      }
    }
    forall m: nat | SUB_BLOCKS * bound <= m ensures Content(BlockAt(t, m)) == Content(BlockAt(u, m)) {
      BlockAtOk(t, top, glen, m);
      BlockAtOk(u, top', glen', m);
    }
    SameBlocksAll(t, u);
    r := 0;
  }

  lemma BlockVerdict(t: seq<SubArray>, u: seq<SubArray>, nb: nat, r: int)
    requires AllWellFormed(t) && AllWellFormed(u) && nb < ALL_BLOCKS && SameBlocks(t, u, nb)
    requires r == Lex(Content(BlockAt(t, nb)), Content(BlockAt(u, nb)), 0)
    ensures -1 <= r <= 1 && (r == 0 ==> SameBlocks(t, u, nb + 1))
    ensures r == -1 ==> Less(Members(t), Members(u))
    ensures r == 1 ==> Less(Members(u), Members(t))
  {
    hide Lex, Less, BlockAt, Members;
    var s, s' := Content(BlockAt(t, nb)), Content(BlockAt(u, nb));
    LexMeaning(s, s', 0);
    LexOpposite(s, s');
    if r == -1 {
      BlockDecides(t, u, nb);
    } else if r == 1 {
      BlockDecides(u, t, nb);
    } else {
      assert s == s';
    }
  }
}
