/**
 The next one at or after a position: gap_find_in_block, bit_find_in_block, check_or_next and
 check_or_next_extract.
 */
module BitSearch {
  import opened Gap
  import opened BitBlock
  import opened Blocks
  import opened Tree
  import opened Vector
  import GapEdit
  import GapRuns

  /** p is the first one of s from lo on. */
  ghost predicate FirstOne(s: seq<bool>, lo: nat, p: nat) {
    lo <= p < |s| && s[p] && NoOnes(s, lo, p)
  }

  ghost predicate NoOnes(s: seq<bool>, lo: nat, hi: nat) {
    hi <= |s| && forall q | lo <= q < hi :: !s[q]
  }

  /** gap_find_in_block: prev moves on by the distance from nbit to the next one. */
  method FindInGap(buf: seq<GapWord>, nbit: nat, prev: nat) returns (found: bool, next: nat)
    requires Valid(buf) && nbit <= LAST && nbit <= prev && prev - nbit + BLOCK_BITS <= ID_MAX + 1
    ensures found ==> prev <= next && FirstOne(GapBits(buf), nbit, nbit + (next - prev))
    ensures !found ==> NoOnes(GapBits(buf), nbit, BLOCK_BITS) && next == Wrap32(prev - nbit + BLOCK_BITS)
  {
    hide Bits, BitAt, Odd;
    var k, isSet := GapEdit.FindRun(buf, nbit);
    if isSet {
      return true, prev;
    }
    ghost var g := View(buf);
    assert g.ends[k - 1] == buf[k];
    RunValueOf(g, nbit);
    var val := buf[k] as int + 1;
    next := Wrap32(prev + (val - nbit));
    found := val != MAX_BITS;
    if found {
      RunValue(g, k, val);
      OddNext(k - 1);
    }
  }

  lemma RunValueOf(g: Runs, p: nat)
    requires Canonical(g) && p <= LAST
    ensures var k := RunOf(g, p);
            && BitAt(g, p) == (g.start != Odd(k))
            && forall q | After(g, k) <= q <= g.ends[k] :: BitAt(g, q) == (g.start != Odd(k))
  {
    var k := RunOf(g, p);
    RunValue(g, k, After(g, k));
  }

  /** w >> k. */
  function ShiftedBy(w: Word, k: nat): Word {
    seq(32, i requires 0 <= i => i + k < 32 && w[i + k])
  }

  /** Shifts right until bit 0 is a one. */
  method CountToOne(w: Word, from: nat) returns (n: nat)
    requires from < 32 && !Uniform(ShiftedBy(w, from), false)
    ensures FirstOne(w, from, from + n)
  {
    var val := ShiftedBy(w, from);
    n := 0;
    while !val[0]
      invariant from + n < 32 && val == ShiftedBy(w, from + n) && !Uniform(val, false) && NoOnes(w, from, from + n)
      decreases 32 - n
    {
      assert Uniform(val, false) == Uniform(ShiftedBy(val, 1), false) by {
        assert forall i | 1 <= i < 32 :: val[i] == ShiftedBy(val, 1)[i - 1];
      }
      val := ShiftedBy(val, 1);
      assert val == ShiftedBy(w, from + n + 1);
      n := n + 1;
    }
  }

  lemma ShiftAmount(p: nat, nbit: nat)
    requires nbit <= p && WholeWords(p - nbit)
    ensures p % 32 == nbit - 32 * WordIndex(nbit)
  {
  }

  lemma WordNone(data: seq<bool>, nbit: nat, k: nat)
    requires nbit < |data| && 32 * WordIndex(nbit) + 32 <= |data| && k == nbit - 32 * WordIndex(nbit)
    requires Uniform(ShiftedBy(WordAt(data, WordIndex(nbit)), k), false)
    ensures NoOnes(data, nbit, 32 * WordIndex(nbit) + 32)
  {
    var q := WordIndex(nbit);
    var w := WordAt(data, q);
    forall p | nbit <= p < 32 * q + 32 ensures !data[p] {
      assert ShiftedBy(w, k)[p - nbit] == w[p - 32 * q] == data[p];
    }
  }

  lemma WordFirst(data: seq<bool>, nbit: nat, k: nat, n: nat)
    requires nbit < |data| && 32 * WordIndex(nbit) + 32 <= |data| && k == nbit - 32 * WordIndex(nbit)
    requires FirstOne(WordAt(data, WordIndex(nbit)), k, k + n)
    ensures FirstOne(data, nbit, nbit + n)
  {
    var q := WordIndex(nbit);
    var w := WordAt(data, q);
    assert forall p | 32 * q <= p < 32 * q + 32 :: data[p] == w[p - 32 * q];
  }

  lemma NoOnesJoin(s: seq<bool>, lo: nat, mid: nat, hi: nat)
    requires lo <= mid <= hi && NoOnes(s, lo, mid)
    ensures NoOnes(s, mid, hi) ==> NoOnes(s, lo, hi)
    ensures FirstOne(s, mid, hi) ==> FirstOne(s, lo, hi)
  {
  }

  /** bit_find_in_block: the rest of the current word, then word by word. */
  method FindInBits(data: seq<bool>, nbit0: nat, prev: nat) returns (found: bool, next: nat)
    requires |data| == BLOCK_BITS && nbit0 < BLOCK_BITS && nbit0 <= prev && prev - nbit0 + BLOCK_BITS <= ID_MAX + 1
    requires WholeWords(prev - nbit0)
    ensures found ==> prev <= next && FirstOne(data, nbit0, nbit0 + (next - prev))
    ensures !found ==> NoOnes(data, nbit0, BLOCK_BITS) && next == Wrap32(prev - nbit0 + BLOCK_BITS)
  {
    hide WordIndex, WholeWords, WordAt, ShiftedBy, NoOnes, FirstOne, Uniform, Wrap32;
    NoOnesStart(data, nbit0);
    ghost var base := prev - nbit0;
    var nbit, p := nbit0, prev;
    while true
      invariant nbit0 <= nbit <= BLOCK_BITS && p == Wrap32(base + nbit) && NoOnes(data, nbit0, nbit)
      decreases BLOCK_BITS - nbit
    {
      var q := WordIndex(nbit);
      if q >= BLOCK_WORDS {
        return false, p;
      }
      ShiftAmount(p, nbit);
      var w := WordAt(data, q);
      if !Uniform(ShiftedBy(w, p % 32), false) {
        var n := CountToOne(w, p % 32);
        WordFirst(data, nbit, p % 32, n);
        NoOnesJoin(data, nbit0, nbit, nbit + n);
        FirstOneBound(data, nbit, nbit + n);
        return true, p + n;
      }
      WordNone(data, nbit, p % 32);
      var step := 32 - (nbit - 32 * q);
      NoOnesJoin(data, nbit0, nbit, nbit + step);
      p := Wrap32(p + step);
      nbit := nbit + step;
    }
  }

  lemma NoOnesStart(s: seq<bool>, lo: nat)
    requires lo <= |s|
    ensures NoOnes(s, lo, lo)
  {
  }

  lemma FirstOneBound(s: seq<bool>, lo: nat, p: nat)
    requires FirstOne(s, lo, p)
    ensures lo <= p < |s|
  {
  }

  // ---------------------------------------------------------------- sets

  ghost predicate NoneIn(s: set<nat>, lo: nat, hi: nat) {
    forall n | n in s :: !(lo <= n < hi)
  }

  /** r is the least member of s from p on. */
  ghost predicate LeastFrom(s: set<nat>, p: nat, r: nat) {
    r in s && p <= r && NoneIn(s, p, r)
  }

  /** No ones in a stretch of a block: no members there. */
  lemma NoMembers(t: seq<SubArray>, from: nat, nb: nat, lo: nat, hi: nat)
    requires AllWellFormed(t) && nb < ALL_BLOCKS && lo <= hi <= BLOCK_BITS && NoneIn(Members(t), from, BLOCK_BITS * nb + lo)
    requires NoOnes(Content(BlockAt(t, nb)), lo, hi)
    ensures NoneIn(Members(t), from, BLOCK_BITS * nb + hi)
  {
    hide Content, BlockAt, Members, Has;
    forall n | n in Members(t) ensures !(from <= n < BLOCK_BITS * nb + hi) {
      if BLOCK_BITS * nb + lo <= n < BLOCK_BITS * nb + hi {
        MemberBit(t, nb, n - BLOCK_BITS * nb);
      }
    }
  }

  lemma FirstMember(t: seq<SubArray>, from: nat, nb: nat, lo: nat, p: nat)
    requires AllWellFormed(t) && nb < ALL_BLOCKS && lo <= BLOCK_BITS && NoneIn(Members(t), from, BLOCK_BITS * nb + lo)
    requires from <= BLOCK_BITS * nb + lo && FirstOne(Content(BlockAt(t, nb)), lo, p)
    ensures p < BLOCK_BITS && LeastFrom(Members(t), from, BLOCK_BITS * nb + p)
  {
    hide Content, BlockAt, Members, Has;
    NoMembers(t, from, nb, lo, p);
    MemberBit(t, nb, p);
  }

  /** A missing sub-array has no members. */
  lemma NoMembersMissing(t: seq<SubArray>, from: nat, p: nat, i: nat)
    requires AllWellFormed(t) && (i >= |t| || t[i].Missing?) && i < SUB_BLOCKS
    requires SUB_BITS * i <= p < SUB_BITS * i + SUB_BITS && NoneIn(Members(t), from, p)
    ensures NoneIn(Members(t), from, SUB_BITS * i + SUB_BITS)
  {
    hide Content, BlockAt;
    forall n | n in Members(t) ensures !(from <= n < SUB_BITS * i + SUB_BITS) {
      if p <= n < SUB_BITS * i + SUB_BITS {
        MissingNull(t, i, n / BLOCK_BITS);
        NullBits(t, n);
      }
    }
  }

  lemma NullBits(t: seq<SubArray>, n: nat)
    requires BlockAt(t, n / BLOCK_BITS).Null?
    ensures !Has(t, n)
  {
  }

  lemma NullNoOnes(lo: nat)
    ensures NoOnes(Content(Null), lo, BLOCK_BITS)
  {
  }

  lemma FullFirst(lo: nat)
    requires lo < BLOCK_BITS
    ensures FirstOne(Content(Full), lo, lo)
  {
  }

  /** The first one of a block from nbit on; without one, prev moves to the next block. */
  method FindInBlock(block: Block, nbit: nat, prev: nat) returns (found: bool, next: nat)
    requires WellFormed(block) && nbit < BLOCK_BITS && nbit <= prev && prev - nbit + BLOCK_BITS <= ID_MAX + 1
    requires WholeWords(prev - nbit)
    ensures found ==> prev <= next && FirstOne(Content(block), nbit, nbit + (next - prev))
    ensures !found ==> NoOnes(Content(block), nbit, BLOCK_BITS) && next == Wrap32(prev - nbit + BLOCK_BITS)
  {
    hide FirstOne, NoOnes, GapBits, WholeWords;
    if block.Null? {
      NullNoOnes(nbit);
      found, next := false, Wrap32(prev + (BLOCK_BITS - nbit));
    } else if block.Full? {
      FullFirst(nbit);
      found, next := true, prev;
    } else if block.GapBlk? {
      found, next := FindInGap(block.buf, nbit, prev);
    } else {
      found, next := FindInBits(block.bits, nbit, prev);
    }
  }

  /** Where position p lies: block and bit of the block. */
  lemma Coordinates(p: nat)
    requires p <= ID_MAX
    ensures var nb, nbit := p / BLOCK_BITS, p % BLOCK_BITS;
            && nb < ALL_BLOCKS && nb / SUB_BLOCKS < SUB_BLOCKS && p == BLOCK_BITS * nb + nbit && WholeWords(p - nbit)
            && SUB_BITS * (nb / SUB_BLOCKS) <= p < SUB_BITS * (nb / SUB_BLOCKS) + SUB_BITS
            && p + (SUB_BITS - p % SUB_BITS) == SUB_BITS * (nb / SUB_BLOCKS) + SUB_BITS
  {
  }

  /**
   check_or_next: the least member from p on, or 0.  The top array is indexed without a bound; the search stays
   inside it exactly when it has all 256 entries or there is something to find.
   */
  method CheckOrNext(v: BVector, p: nat) returns (inside: bool, r: nat)
    requires v.Valid() && p <= ID_MAX
    ensures inside <==> |v.tree| == SUB_BLOCKS || AnyFrom(v.Contents(), p)
    ensures inside ==> if AnyFrom(v.Contents(), p) then LeastFrom(v.Contents(), p, r) else r == 0
  {
    hide TreeOk, BlockAt, Members, Content, FirstOne, NoOnes, Wrap32, WholeWords, TopSize, AnyFrom;
    EffectiveBound(v.tree, v.effTop, v.glen);
    var found;
    inside, r := true, p;
    while true
      invariant inside && p <= r <= ID_MAX && NoneIn(v.Contents(), p, r)
      decreases ID_MAX - r
    {
      Coordinates(r);
      var nb, nbit := r / BLOCK_BITS, r % BLOCK_BITS;
      ghost var reached, was := SUB_BITS * (nb / SUB_BLOCKS) + SUB_BITS, r;
      if nb / SUB_BLOCKS >= |v.tree| {
        NoneBeyond(v.tree, p);
        return false, 0;
      }
      if v.tree[nb / SUB_BLOCKS].Missing? {
        NoMembersMissing(v.tree, p, r, nb / SUB_BLOCKS);
        r := Wrap32(r + (SUB_BITS - r % SUB_BITS));
      } else {
        found, r := FindInBlock(BlockAt(v.tree, nb), nbit, r);
        if found {
          FirstMember(v.tree, p, nb, nbit, nbit + (r - was));
          LeastAny(v.Contents(), p, r);
          return;
        }
        NoMembers(v.tree, p, nb, nbit, BLOCK_BITS);
        reached := BLOCK_BITS * nb + BLOCK_BITS;
      }
      assert was < reached <= ID_MAX + 1 && NoneIn(v.Contents(), p, reached) && r == Wrap32(reached);
      if r == 0 {
        break;
      }
    }
    NoneFrom(v.tree, p);
  }

  ghost predicate AnyFrom(s: set<nat>, p: nat) {
    exists n :: n in s && p <= n
  }

  lemma LeastAny(s: set<nat>, from: nat, p: nat)
    requires LeastFrom(s, from, p)
    ensures AnyFrom(s, from) && p in s
  {
  }

  /** No member lies beyond the top array. */
  lemma NoneBeyond(t: seq<SubArray>, from: nat)
    requires AllWellFormed(t) && NoneIn(Members(t), from, SUB_BITS * |t|)
    ensures !AnyFrom(Members(t), from)
  {
    forall n | n in Members(t) ensures n < SUB_BITS * |t| {
      if n >= SUB_BITS * |t| {
        NullBits(t, n);
      }
    }
  }

  lemma NoneFrom(t: seq<SubArray>, p: nat)
    requires AllWellFormed(t) && NoneIn(Members(t), p, ID_MAX + 1)
    ensures !AnyFrom(Members(t), p)
  {
  }

  /** A GAP block: the bit at nbit is cleared if it is a one. */
  method ExtractHere(v: BVector, nb: nat, nbit: nat, block: Block) returns (found: bool)
    requires v.Valid() && nb < ALL_BLOCKS && nb / SUB_BLOCKS < |v.tree| && nbit < BLOCK_BITS
    requires block == BlockAt(v.tree, nb) && block.GapBlk?
    modifies v`tree, v`effTop
    ensures v.Valid()
    ensures found ==> FirstOne(Content(block), nbit, nbit) && v.Contents() == old(v.Contents()) - {BLOCK_BITS * nb + nbit}
    ensures !found ==> v.tree == old(v.tree) && v.effTop == old(v.effTop)
  {
    hide TreeOk, BlockAt, Members, FirstOne, GapBits, TopSize, Fits, Replaced, GapRuns.NewRuns, LevelTable;
    BlockAtOk(v.tree, v.effTop, v.glen, nb);
    var b;
    b, found := ClearInGap(block, nbit, v.glen);
    if found {
      v.SetBlock(nb, b);
      Cleared(old(v.tree), v.tree, nb, nbit);
      HeadFirst(Content(block), nbit);
    }
  }

  method ClearInGap(block: Block, nbit: nat, glen: seq<GapWord>) returns (b: Block, changed: bool)
    requires LevelTable(glen) && BlockOk(block, glen) && block.GapBlk? && nbit < BLOCK_BITS
    ensures BlockOk(b, glen) && Content(b) == Content(block)[nbit := false] && changed == Content(block)[nbit]
  {
    hide GapBits, Fits;
    GapBlockFits(block, glen);
    b, changed := SetInGapBlock(block.buf, nbit, false, glen[Level(block.buf)] as int - 4, glen);
  }

  /** One block of check_or_next_extract: as FindInBlock, and the bit found is cleared. */
  method ExtractFrom(v: BVector, nb: nat, nbit: nat, prev: nat) returns (found: bool, next: nat)
    requires v.Valid() && nb < ALL_BLOCKS && nb / SUB_BLOCKS < |v.tree| && nbit < BLOCK_BITS
    requires prev == BLOCK_BITS * nb + nbit && WholeWords(prev - nbit)
    modifies v`tree, v`effTop
    ensures v.Valid()
    ensures found ==> prev <= next && FirstOne(Content(BlockAt(old(v.tree), nb)), nbit, nbit + (next - prev))
    ensures found ==> v.Contents() == old(v.Contents()) - {next}
    ensures !found ==> NoOnes(Content(BlockAt(v.tree, nb)), nbit, BLOCK_BITS) && next == Wrap32(prev - nbit + BLOCK_BITS)
    ensures !found ==> v.tree == old(v.tree)
  {
    hide TreeOk, BlockAt, Members, FirstOne, NoOnes, GapBits, WholeWords, TopSize, Fits, Replaced, Wrap32;
    var block := BlockAt(v.tree, nb);
    BlockAtOk(v.tree, v.effTop, v.glen, nb);
    if block.GapBlk? {
      found := ExtractHere(v, nb, nbit, block);
      if found {
        return true, prev;
      }
    }
    found, next := FindInBlock(block, nbit, prev);
    if found {
      ghost var at := nbit + (next - prev);
      FirstOneHead(Content(block), nbit, at);
      MemberBit(v.tree, nb, at);
      if block.BitBlk? {
        var k := next - BLOCK_BITS * nb;
        v.SetBlock(nb, BitBlk(block.bits[k := false]));
        Cleared(old(v.tree), v.tree, nb, k);
      } else {
        var _ := v.SetBit(next, false);
      }
    }
  }

  lemma HeadFirst(s: seq<bool>, p: nat)
    requires p < |s| && s[p]
    ensures FirstOne(s, p, p)
  {
  }

  lemma FirstOneHead(s: seq<bool>, lo: nat, p: nat)
    requires FirstOne(s, lo, p)
    ensures p < |s| && s[p]
  {
  }

  lemma Cleared(t: seq<SubArray>, t': seq<SubArray>, nb: nat, p: nat)
    requires AllWellFormed(t) && AllWellFormed(t') && nb < ALL_BLOCKS && p < BLOCK_BITS
    requires Replaced(t, t', nb, Content(BlockAt(t, nb))[p := false])
    ensures Members(t') == Members(t) - {BLOCK_BITS * nb + p}
  {
    hide BlockAt, Content, Members, Replaced;
    var n: nat := BLOCK_BITS * nb + p;
    assert n / BLOCK_BITS == nb && n % BLOCK_BITS == p;
    BitReplaced(t, t', n, false);
  }

  /** check_or_next_extract: the position check_or_next returns, and that bit is cleared. */
  method CheckOrNextExtract(v: BVector, p: nat) returns (inside: bool, r: nat)
    requires v.Valid() && p <= ID_MAX
    modifies v`tree, v`effTop
    ensures v.Valid()
    ensures inside <==> |old(v.tree)| == SUB_BLOCKS || AnyFrom(old(v.Contents()), p)
    ensures if AnyFrom(old(v.Contents()), p)
            then LeastFrom(old(v.Contents()), p, r) && v.Contents() == old(v.Contents()) - {r}
            else r == 0 && v.Contents() == old(v.Contents())
  {
    hide TreeOk, BlockAt, Members, Content, FirstOne, NoOnes, Wrap32, WholeWords, TopSize, AnyFrom;
    EffectiveBound(v.tree, v.effTop, v.glen);
    var found;
    inside, r := true, p;
    while true
      invariant v.Valid() && v.tree == old(v.tree)
      invariant inside && p <= r <= ID_MAX && NoneIn(v.Contents(), p, r)
      decreases ID_MAX - r
    {
      Coordinates(r);
      var nb, nbit := r / BLOCK_BITS, r % BLOCK_BITS;
      ghost var reached, was := SUB_BITS * (nb / SUB_BLOCKS) + SUB_BITS, r;
      if nb / SUB_BLOCKS >= |v.tree| {
        NoneBeyond(v.tree, p);
        return false, 0;
      }
      if v.tree[nb / SUB_BLOCKS].Missing? {
        NoMembersMissing(v.tree, p, r, nb / SUB_BLOCKS);
        r := Wrap32(r + (SUB_BITS - r % SUB_BITS));
      } else {
        found, r := ExtractFrom(v, nb, nbit, r);
        if found {
          FirstMember(old(v.tree), p, nb, nbit, nbit + (r - was));
          LeastAny(old(v.Contents()), p, r);
          return;
        }
        NoMembers(v.tree, p, nb, nbit, BLOCK_BITS);
        reached := BLOCK_BITS * nb + BLOCK_BITS;
      }
      assert was < reached <= ID_MAX + 1 && NoneIn(v.Contents(), p, reached) && r == Wrap32(reached);
      if r == 0 {
        break;
      }
    }
    NoneFrom(v.tree, p);
  }
}
