/**
 Counting the ones of a combination without building it: gap_buff_count_op on two GAP buffers,
 gap_bitset_and_count and its kin on a bit block and a GAP buffer, bit_block_and_count and its kin
 on two bit blocks.
 */
module GapCount {
  import opened BitString
  import opened Gap
  import opened BitBlock
  import BitCount
  import GapMerge

  // ---------------------------------------------------------------- two GAP buffers

  /** The count merge stands at lo in run k1 of a and run k2 of b; the ones up to res are counted. */
  ghost predicate Counting(a: Runs, b: Runs, op: BoolOp, k1: nat, k2: nat, lo: nat, res: nat, count: nat) {
    && Canonical(a) && Canonical(b) && Holds(a, k1, lo) && Holds(b, k2, lo)
    && (lo == res + 1 || (lo == 0 && res == 0)) && res <= LAST
    && count == Count(Pointwise(op, Bits(a), Bits(b)), 0, res + 1)
  }

  lemma CountStart(a: Runs, b: Runs, op: BoolOp)
    requires Canonical(a) && Canonical(b)
    ensures Counting(a, b, op, 0, 0, 0, 0, if Apply(op, a.start, b.start) then 1 else 0)
    ensures !Odd(0)
  {
    var s := Pointwise(op, Bits(a), Bits(b));
    BitOfRun(a, 0, 0);
    BitOfRun(b, 0, 0);
    assert Count(s, 0, 1) == Count(s, 0, 0) + if s[0] then 1 else 0;
  }

  /** Past position e the run that ended there steps to the next one. */
  lemma StepOn(g: Runs, k: nat, lo: nat, e: nat)
    requires Canonical(g) && Holds(g, k, lo) && lo <= e <= g.ends[k] && e < LAST
    ensures Holds(g, if g.ends[k] == e then k + 1 else k, e + 1)
  {
  }

  /** Up to the nearer run end the value is that of the current runs. */
  lemma CountTo(a: Runs, b: Runs, op: BoolOp, k1: nat, k2: nat, lo: nat, res: nat, count: nat, e: nat)
    requires Counting(a, b, op, k1, k2, lo, res, count) && res <= e && lo <= e <= a.ends[k1] && e <= b.ends[k2]
    ensures count + (if Apply(op, a.start != Odd(k1), b.start != Odd(k2)) then e - res else 0)
         == Count(Pointwise(op, Bits(a), Bits(b)), 0, e + 1)
  {
    hide Pointwise, Count, Bits, Odd, Apply;
    var s := Pointwise(op, Bits(a), Bits(b));
    var v := Apply(op, a.start != Odd(k1), b.start != Odd(k2));
    GapMerge.PointwiseConstant(a, b, op, k1, k2, lo, e);
    hide Canonical, Holds;
    CountConstant(s, res + 1, e + 1, v);
    CountSplit(s, 0, res + 1, e + 1);
  }

  /** One round: the ones up to the nearer run end, then the runs that ended step on. */
  lemma CountStep(a: Runs, b: Runs, op: BoolOp, k1: nat, k2: nat, lo: nat, res: nat, count: nat)
    requires Counting(a, b, op, k1, k2, lo, res, count)
    ensures k1 < |a.ends| && k2 < |b.ends|
    ensures var e := GapMerge.Closer(a, b, k1, k2);
            var count' := count + if Apply(op, a.start != Odd(k1), b.start != Odd(k2)) then e - res else 0;
            && res <= e && count' == Count(Pointwise(op, Bits(a), Bits(b)), 0, e + 1)
            && (e < LAST ==> Counting(a, b, op, if a.ends[k1] == e then k1 + 1 else k1, if b.ends[k2] == e then k2 + 1 else k2,
                                      e + 1, e, count'))
  {
    hide Pointwise, Count, Bits, Odd, Apply;
    var e := GapMerge.Closer(a, b, k1, k2);
    CountTo(a, b, op, k1, k2, lo, res, count, e);
    if e < LAST {
      StepOn(a, k1, lo, e);
      StepOn(b, k2, lo, e);
    }
    hide Canonical;
  }

  /** gap_buff_count_op. */
  method BuffCountOp(v1: seq<GapWord>, v2: seq<GapWord>, op: BoolOp) returns (count: nat)
    requires Valid(v1) && Valid(v2)
    ensures count == Count(Pointwise(op, GapBits(v1), GapBits(v2)), 0, MAX_BITS)
  {
    hide Counting, Pointwise, Count, Bits, Odd, Apply, BitAt;
    ghost var a, b := View(v1), View(v2);
    assert forall i | 1 <= i <= |a.ends| :: v1[i] == a.ends[i - 1];
    assert forall i | 1 <= i <= |b.ends| :: v2[i] == b.ends[i - 1];
    CountStart(a, b, op);
    var cur1, cur2 := 1, 1;
    var bit1, bit2 := Start(v1), Start(v2);
    var bit := Apply(op, bit1, bit2);
    count := if bit then 1 else 0;
    var bitPrev, res, resPrev := bit, 0, 0;
    ghost var lo := 0;
    while true
      invariant 1 <= cur1 <= |a.ends| && 1 <= cur2 <= |b.ends|
      invariant bit1 == (a.start != Odd(cur1 - 1)) && bit2 == (b.start != Odd(cur2 - 1))
      invariant Counting(a, b, op, cur1 - 1, cur2 - 1, lo, res, count)
      invariant 0 <= res && (bitPrev ==> resPrev == res)
      decreases |a.ends| + |b.ends| - cur1 - cur2
    {
      CountStep(a, b, op, cur1 - 1, cur2 - 1, lo, res, count);
      OddNext(cur1 - 1);
      OddNext(cur2 - 1);
      bit := Apply(op, bit1, bit2);
      if bit != bitPrev {
        bitPrev, resPrev := bit, res;
      }
      if v1[cur1] < v2[cur2] {
        res := v1[cur1];
        if bit {
          count, resPrev := count + (res - resPrev), res;
        }
        cur1, bit1 := cur1 + 1, !bit1;
      } else {
        res := v2[cur2];
        if bit {
          count, resPrev := count + (res - resPrev), res;
        }
        if v2[cur2] < v1[cur1] {
          bit2 := !bit2;
        } else {
          if v2[cur2] == LAST {
            break;
          }
          cur1, bit1, bit2 := cur1 + 1, !bit1, !bit2;
        }
        cur2 := cur2 + 1;
      }
      lo := res + 1;
    }
  }

  // ---------------------------------------------------------------- a bit block and a GAP buffer

  /** What a run of value v and n bits adds, the block having c ones there. */
  function RunShare(op: BoolOp, v: bool, n: int, c: int): int {
    match op
    case And => if v then c else 0
    case Sub => if v then 0 else c
    case Or => if v then n else c
    case Xor => if v then n - c else c
  }

  lemma {:induction false} CountAgainstConstant(op: BoolOp, s: seq<bool>, r: seq<bool>, v: bool, lo: nat, hi: nat)
    requires lo <= hi <= |s| && |r| == |s| && forall p | lo <= p < hi :: r[p] == Apply(op, s[p], v)
    ensures Count(r, lo, hi) == RunShare(op, v, hi - lo, Count(s, lo, hi))
  {
    if lo < hi {
      CountAgainstConstant(op, s, r, v, lo, hi - 1);
    }
  }

  lemma RunAdds(op: BoolOp, block: seq<bool>, g: Runs, k: nat)
    requires |block| == MAX_BITS && Canonical(g) && k < |g.ends|
    ensures 0 <= After(g, k) < After(g, k + 1) <= MAX_BITS && After(g, k + 1) == g.ends[k] as int + 1
    ensures var s := Pointwise(op, block, Bits(g));
            var lo, hi := After(g, k), After(g, k + 1);
            Count(s, 0, hi) == Count(s, 0, lo) + RunShare(op, g.start != Odd(k), hi - lo, Count(block, lo, hi))
  {
    hide Odd, RunShare, Count, Bits;
    var s := Pointwise(op, block, Bits(g));
    var lo, hi := After(g, k), After(g, k + 1);
    RunValue(g, k, lo);
    CountAgainstConstant(op, block, s, g.start != Odd(k), lo, hi);
    CountSplit(s, 0, lo, hi);
  }

  /** Runs k and k + 1, the second adding nothing. */
  lemma RunPairAdds(op: BoolOp, block: seq<bool>, g: Runs, k: nat)
    requires |block| == MAX_BITS && Canonical(g) && k < |g.ends| && (op == And || op == Sub) && (g.start != Odd(k)) == (op == And)
    ensures 0 <= After(g, k) <= g.ends[k] && g.ends[k] as int + 1 <= After(g, k + 2) <= MAX_BITS
    ensures var s := Pointwise(op, block, Bits(g));
            Count(s, 0, After(g, k + 2)) == Count(s, 0, After(g, k)) + Count(block, After(g, k), g.ends[k] as int + 1)
  {
    hide Count, Bits, Pointwise;
    RunAdds(op, block, g, k);
    if k + 1 < |g.ends| {
      RunAdds(op, block, g, k + 1);
    }
  }

  lemma FirstRunAddsNothing(op: BoolOp, block: seq<bool>, g: Runs)
    requires |block| == MAX_BITS && Canonical(g) && (op == And || op == Sub) && g.start != (op == And)
    ensures Count(Pointwise(op, block, Bits(g)), 0, 0) == 0
    ensures After(g, 1) <= MAX_BITS && Count(Pointwise(op, block, Bits(g)), 0, After(g, 1)) == 0
  {
    RunAdds(op, block, g, 0);
  }

  /** gap_bitset_and_count and gap_bitset_sub_count: the block's ones under the runs of ones, or of zeros. */
  method CountUnder(op: BoolOp, block: seq<bool>, buf: seq<GapWord>) returns (count: nat)
    requires (op == And || op == Sub) && |block| == MAX_BITS && Valid(buf)
    ensures count == Count(Pointwise(op, block, GapBits(buf)), 0, MAX_BITS)
  {
    hide Count, Bits, Pointwise, BitAt;
    ghost var g := View(buf);
    ghost var s := Pointwise(op, block, Bits(g));
    NothingCounted(s, 0);
    assert forall i | 1 <= i <= Length(buf) :: g.ends[i - 1] == buf[i];
    OddNext(0);
    var k := 1;
    count := 0;
    if Start(buf) == (op == And) {
      RunPairAdds(op, block, g, 0);
      count := BitCount.CalcCountRange(block, 0, buf[1]);
      k := 2;
    } else {
      FirstRunAddsNothing(op, block, g);
    }
    k := k + 1;
    while k <= Length(buf)
      invariant 2 <= k <= Length(buf) + 2 && (g.start != Odd(k - 1)) == (op == And)
      invariant After(g, k - 1) <= MAX_BITS && count == Count(s, 0, After(g, k - 1))
    {
      RunPairAdds(op, block, g, k - 1);
      OddNext(k - 1);
      OddNext(k);
      var c := BitCount.CalcCountRange(block, buf[k - 1] as int + 1, buf[k]);
      count, k := count + c, k + 2;
    }
  }

  /** gap_bitset_or_count and gap_bitset_xor_count: every run adds its share. */
  method CountRuns(op: BoolOp, block: seq<bool>, buf: seq<GapWord>) returns (count: int)
    requires (op == Or || op == Xor) && |block| == MAX_BITS && Valid(buf)
    ensures count == Count(Pointwise(op, block, GapBits(buf)), 0, MAX_BITS)
  {
    hide Count, Bits, Pointwise, BitAt;
    ghost var g := View(buf);
    ghost var s := Pointwise(op, block, Bits(g));
    NothingCounted(s, 0);
    assert forall i | 1 <= i <= Length(buf) :: g.ends[i - 1] == buf[i];
    var bitval := Start(buf);
    RunAdds(op, block, g, 0);
    count := RunCountOf(op, block, bitval, 0, buf[1]);
    bitval := !bitval;
    OddNext(0);
    var k := 2;
    while k <= Length(buf)
      invariant 2 <= k <= Length(buf) + 1 && bitval == (g.start != Odd(k - 1))
      invariant After(g, k - 1) <= MAX_BITS && count == Count(s, 0, After(g, k - 1))
    {
      RunAdds(op, block, g, k - 1);
      OddNext(k - 1);
      var c := RunCountOf(op, block, bitval, buf[k - 1] as int + 1, buf[k]);
      count, k, bitval := count + c, k + 1, !bitval;
    }
  }

  /** The share of the run left..right; OR counts the block's ones under a run of zeros only. */
  method RunCountOf(op: BoolOp, block: seq<bool>, bitval: bool, left: nat, right: GapWord) returns (c: int)
    requires (op == Or || op == Xor) && |block| == MAX_BITS && left <= right
    ensures c == RunShare(op, bitval, right - left + 1, Count(block, left, right + 1))
  {
    if op == Or && bitval {
      return right as int - left + 1;
    }
    c := BitCount.CalcCountRange(block, left, right);
    if bitval {
      c := right as int - left + 1 - c;
    }
  }

  // ---------------------------------------------------------------- two bit blocks

  lemma CombinedWord(op: BoolOp, s: seq<bool>, t: seq<bool>, q: nat)
    requires |s| == |t| && 32 * q + 32 <= |s|
    ensures WordAt(Pointwise(op, s, t), q) == Combine(op, WordAt(s, q), WordAt(t, q))
  {
  }

  /** bit_block_and_count, bit_block_or_count, bit_block_xor_count, bit_block_sub_count. */
  method BlockOpCount(op: BoolOp, s: seq<bool>, t: seq<bool>) returns (count: nat)
    requires |s| == |t| == BLOCK_BITS
    ensures count == Count(Pointwise(op, s, t), 0, BLOCK_BITS)
  {
    hide Count, Combine, WordAt, BitCount.Pop;
    ghost var r := Pointwise(op, s, t);
    NothingCounted(r, 0);
    count := 0;
    for q := 0 to BLOCK_WORDS
      invariant count == Count(r, 0, 32 * q)
    {
      CombinedWord(op, s, t, q);
      BitCount.CountWord(r, 0, q);
      count := count + BitCount.Pop(Combine(op, WordAt(s, q), WordAt(t, q)));
    }
  }
}
