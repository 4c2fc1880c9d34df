/**
 The bits of a whole tree as one string.
 */
module TreeString {
  import opened BitBlock
  import opened Blocks
  import opened Tree

  /** All 2^32 bits of a tree, block after block. */
  ghost function Flat(t: seq<SubArray>): (s: seq<bool>)
    requires AllWellFormed(t)
    ensures |s| == ID_MAX + 1
  {
    seq(ID_MAX + 1, n requires 0 <= n <= ID_MAX => Has(t, n))
  }

  /** Block nb starts at position n of s. */
  ghost predicate BlockInside(s: seq<bool>, n: nat, block: Block)
    requires WellFormed(block)
  {
    n + BLOCK_BITS <= |s| && forall i | 0 <= i < BLOCK_BITS :: s[n + i] == Content(block)[i]
  }

  lemma FlatBlock(t: seq<SubArray>, nb: nat)
    requires AllWellFormed(t) && nb < ALL_BLOCKS
    ensures BlockInside(Flat(t), BLOCK_BITS * nb, BlockAt(t, nb))
  {
    hide Content, BlockAt;
    forall i | 0 <= i < BLOCK_BITS ensures Flat(t)[BLOCK_BITS * nb + i] == Content(BlockAt(t, nb))[i] {
      var n := BLOCK_BITS * nb + i;
      assert n / BLOCK_BITS == nb && n % BLOCK_BITS == i;
    }
  }

  /** Flat is the characteristic string of the set. */
  lemma FlatMembers(t: seq<SubArray>, n: nat)
    requires AllWellFormed(t) && n <= ID_MAX
    ensures Flat(t)[n] <==> n in Members(t)
  {
  }
}
