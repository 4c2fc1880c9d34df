/**
 GAP buffers against plain bit blocks: applying runs to a block and converting a buffer to a block.
 */
module GapBlock {
  import opened BitString
  import opened Gap
  import opened BitBlock

  /** Bit p of b after op with the runs of value phase, for positions below hi; the rest as in a. */
  ghost predicate RunsApplied(op: BoolOp, a: seq<bool>, b: seq<bool>, g: Runs, phase: bool, hi: int)
    requires Shaped(g)
  {
    && |b| == |a| <= MAX_BITS
    && forall p | 0 <= p < |a| :: b[p] == if p < hi && BitAt(g, p) == phase then Apply(op, a[p], true) else a[p]
  }

  lemma ApplyRun(op: BoolOp, a: seq<bool>, b: seq<bool>, c: seq<bool>, g: Runs, phase: bool, lo: int, hi: int)
    requires Shaped(g) && RunsApplied(op, a, b, g, phase, lo) && RangeApplied(op, b, c, lo, hi)
    requires 0 <= lo <= hi <= MAX_BITS && forall p | lo <= p < hi :: BitAt(g, p) == phase
    ensures RunsApplied(op, a, c, g, phase, hi)
  {
  }

  lemma SkipRun(op: BoolOp, a: seq<bool>, b: seq<bool>, g: Runs, phase: bool, lo: int, hi: int)
    requires Shaped(g) && RunsApplied(op, a, b, g, phase, lo)
    requires 0 <= lo <= hi <= MAX_BITS && forall p | lo <= p < hi :: BitAt(g, p) != phase
    ensures RunsApplied(op, a, b, g, phase, hi)
  {
  }

  /** Run k (counted from 0) of value phase is applied; the run after it needs no work. */
  method ApplyRunAt(op: BoolOp, dest: array<bool>, ghost g: Runs, ghost k: nat, phase: bool, lo: nat, end: nat, ghost a: seq<bool>)
    requires op != And && WholeWords(dest.Length) && Canonical(g) && k < |g.ends| && (g.start != Odd(k)) == phase
    requires lo == After(g, k) && end == g.ends[k] && RunsApplied(op, a, dest[..], g, phase, lo)
    requires forall p | 0 <= p <= LAST && BitAt(g, p) == phase :: p < dest.Length
    modifies dest
    ensures RunsApplied(op, a, dest[..], g, phase, After(g, k + 2))
  {
    ghost var b := dest[..];
    hide RunsApplied, RangeApplied, BitAt;
    RunValue(g, k, lo);
    assert BitAt(g, end) == phase;
    RangeOp(op, dest, lo, end + 1 - lo);
    ApplyRun(op, a, b, dest[..], g, phase, lo, end + 1);
    if k + 1 < |g.ends| {
      RunValue(g, k + 1, end + 1);
      SkipRun(op, a, dest[..], g, phase, end + 1, After(g, k + 2));
    }
  }

  /**
   Applies op to every position where the buffer holds phase: the common loop of
   gap_add_to_bitset, gap_sub_to_bitset, gap_xor_to_bitset (the one-runs) and gap_and_to_bitset
   (which clears the zero-runs).
   */
  method ApplyRuns(op: BoolOp, dest: array<bool>, buf: seq<GapWord>, phase: bool)
    requires op != And && Valid(buf) && dest.Length <= MAX_BITS && WholeWords(dest.Length)
    requires forall p | 0 <= p <= LAST && BitAt(View(buf), p) == phase :: p < dest.Length
    modifies dest
    ensures RunsApplied(op, old(dest[..]), dest[..], View(buf), phase, MAX_BITS)
  {
    ghost var g := View(buf);
    ghost var a := dest[..];
    var len := Length(buf);
    assert forall i | 1 <= i <= len :: g.ends[i - 1] == buf[i];
    assert RunsApplied(op, a, a, g, phase, 0);
    hide RunsApplied, BitAt;
    var k := 1;
    if Start(buf) == phase {
      ApplyRunAt(op, dest, g, 0, phase, 0, buf[1], a);
      k := 2;
    } else {
      RunValue(g, 0, 0);
      SkipRun(op, a, dest[..], g, phase, 0, After(g, 1));
    }
    k := k + 1;
    while k <= len
      invariant 2 <= k <= len + 2 && (g.start != Odd(k - 1)) == phase
      invariant RunsApplied(op, a, dest[..], g, phase, After(g, k - 1))
    {
      ApplyRunAt(op, dest, g, k - 1, phase, buf[k - 1] as int + 1, buf[k], a);
      k := k + 2;
    }
  }

  /** A bit at a time, RunsApplied over the whole block is the operation with the GAP bits. */
  lemma RunsAppliedPointwise(op: BoolOp, a: seq<bool>, b: seq<bool>, buf: seq<GapWord>)
    requires Valid(buf) && |a| == MAX_BITS
    requires if op == And then RunsApplied(Sub, a, b, View(buf), false, MAX_BITS)
             else RunsApplied(op, a, b, View(buf), true, MAX_BITS)
    ensures b == Pointwise(op, a, GapBits(buf))
  {
  }

  /** A GAP operand against a bit block, in place and without converting the operand. */
  method OperationToBlock(op: BoolOp, dest: array<bool>, buf: seq<GapWord>)
    requires Valid(buf) && dest.Length == MAX_BITS
    modifies dest
    ensures dest[..] == Pointwise(op, old(dest[..]), GapBits(buf))
  {
    if op == And {
      ApplyRuns(Sub, dest, buf, false);
    } else {
      ApplyRuns(op, dest, buf, true);
    }
    RunsAppliedPointwise(op, old(dest[..]), dest[..], buf);
  }

  /** Converts a buffer to a block (gap_convert_to_bitset); the ones have to fit the block. */
  method ConvertToBlock(dest: array<bool>, buf: seq<GapWord>)
    requires Valid(buf) && dest.Length <= MAX_BITS && WholeWords(dest.Length)
    requires forall p | 0 <= p <= LAST && BitAt(View(buf), p) == true :: p < dest.Length
    modifies dest
    ensures forall p | 0 <= p < dest.Length :: dest[..][p] == GapBits(buf)[p]
  {
    forall p | 0 <= p < dest.Length { dest[p] := false; }
    ApplyRuns(Or, dest, buf, true);
  }
}
