/**
 The two-pointer merge of GAP buffers (gap_buff_op) and the set operations built on it.
 */
module GapMerge {
  import opened BitString
  import opened Gap

  /** Inside run k1 of a and run k2 of b the pointwise value is constant. */
  lemma PointwiseConstant(a: Runs, b: Runs, op: BoolOp, k1: nat, k2: nat, lo: nat, e: nat)
    requires Canonical(a) && Canonical(b) && Holds(a, k1, lo) && Holds(b, k2, lo)
    requires e <= a.ends[k1] && e <= b.ends[k2]
    ensures forall p | lo <= p <= e :: Pointwise(op, Bits(a), Bits(b))[p] == Apply(op, a.start != Odd(k1), b.start != Odd(k2))
  {
    forall p | lo <= p <= e
      ensures Pointwise(op, Bits(a), Bits(b))[p] == Apply(op, a.start != Odd(k1), b.start != Odd(k2))
    {
      BitOfRun(a, p, k1);
      BitOfRun(b, p, k2);
    }
  }

  /** The operand as the merge sees it: xor-ing the start bit with 1 inverts every bit. */
  ghost function Masked(v: seq<GapWord>, mask: bool): (g: Runs)
    requires Valid(v)
    ensures Canonical(g)
    ensures forall p | 0 <= p <= LAST :: BitAt(g, p) == (GapBit(v, p) != mask)
  {
    var g := View(v).(start := View(v).start != mask);
    assert forall p | 0 <= p <= LAST :: BitAt(g, p) == (GapBit(v, p) != mask) by {
      forall p | 0 <= p <= LAST ensures BitAt(g, p) == (GapBit(v, p) != mask) {
        BitOfRun(g, p, RunOf(View(v), p));
      }
    }
    g
  }

  /** The merge stands in run k1 of a and run k2 of b, having written the runs in ends. */
  ghost predicate Merging(a: Runs, b: Runs, op: BoolOp, k1: nat, k2: nat, start: bool, ends: seq<GapWord>) {
    && Canonical(a) && Canonical(b)
    && Holds(a, k1, Next(ends)) && Holds(b, k2, Next(ends))
    && (if |ends| == 0 then k1 == k2 == 0 && start == Apply(op, a.start, b.start) else |ends| <= k1 + k2)
    && Traces(start, ends, Pointwise(op, Bits(a), Bits(b)))
  }

  /** The value of the run being written, or of the first run before anything is written. */
  predicate Current(start: bool, ends: seq<GapWord>) {
    start != Odd(if |ends| == 0 then 0 else |ends| - 1)
  }

  /** Where the next run end is, the smaller of the two. */
  function Closer(a: Runs, b: Runs, k1: nat, k2: nat): (e: GapWord)
    requires k1 < |a.ends| && k2 < |b.ends|
  {
    if a.ends[k1] < b.ends[k2] then a.ends[k1] else b.ends[k2]
  }

  /** The value changes: e closes a new run. */
  lemma MergeNewRun(a: Runs, b: Runs, op: BoolOp, k1: nat, k2: nat, start: bool, ends: seq<GapWord>)
    requires Merging(a, b, op, k1, k2, start, ends)
    requires Apply(op, a.start != Odd(k1), b.start != Odd(k2)) == (start != Odd(|ends|))
    ensures Traces(start, ends + [Closer(a, b, k1, k2)], Pointwise(op, Bits(a), Bits(b)))
  {
    PointwiseConstant(a, b, op, k1, k2, Next(ends), Closer(a, b, k1, k2));
    TraceNewRun(start, ends, Closer(a, b, k1, k2), Pointwise(op, Bits(a), Bits(b)));
  }

  /** The value stays: e becomes the end of the last run. */
  lemma MergeGrow(a: Runs, b: Runs, op: BoolOp, k1: nat, k2: nat, start: bool, ends: seq<GapWord>)
    requires Merging(a, b, op, k1, k2, start, ends) && |ends| > 0
    requires Apply(op, a.start != Odd(k1), b.start != Odd(k2)) == (start != Odd(|ends| - 1))
    ensures Traces(start, ends[|ends| - 1 := Closer(a, b, k1, k2)], Pointwise(op, Bits(a), Bits(b)))
  {
    PointwiseConstant(a, b, op, k1, k2, Next(ends), Closer(a, b, k1, k2));
    TraceGrow(start, ends, Closer(a, b, k1, k2), Pointwise(op, Bits(a), Bits(b)));
  }

  /** Past the end e of the runs written, the operands whose run ended there step to the next one. */
  lemma MergeAdvance(a: Runs, b: Runs, op: BoolOp, k1: nat, k2: nat, start: bool, ends: seq<GapWord>, ends': seq<GapWord>)
    requires Merging(a, b, op, k1, k2, start, ends) && |ends'| > 0 && ends'[|ends'| - 1] == Closer(a, b, k1, k2) < LAST
    requires Traces(start, ends', Pointwise(op, Bits(a), Bits(b))) && |ends'| <= |ends| + 1
    ensures var e := Closer(a, b, k1, k2);
            Merging(a, b, op, if a.ends[k1] == e then k1 + 1 else k1, if b.ends[k2] == e then k2 + 1 else k2, start, ends')
  {
    hide Traces, Pointwise, Bits;
  }

  /** One round of the merge: what it writes at which run, and where the operands stand after it. */
  lemma MergeRound(a: Runs, b: Runs, op: BoolOp, k1: nat, k2: nat, start: bool, ends: seq<GapWord>, bit: bool)
    returns (ends': seq<GapWord>)
    requires Merging(a, b, op, k1, k2, start, ends)
    requires bit == Apply(op, a.start != Odd(k1), b.start != Odd(k2))
    ensures k1 < |a.ends| && k2 < |b.ends| && 0 < |ends'| <= k1 + k2 + 1
    ensures |ends'| == |ends| + (if |ends| == 0 || bit != Current(start, ends) then 1 else 0)
    ensures ends'[|ends'| - 1] == (if a.ends[k1] < b.ends[k2] then a.ends[k1] else b.ends[k2])
    ensures forall i | 0 <= i < |ends'| - 1 :: ends'[i] == ends[i]
    ensures Current(start, ends') == bit && Traces(start, ends', Pointwise(op, Bits(a), Bits(b)))
    ensures var e := ends'[|ends'| - 1];
            var j1, j2 := if a.ends[k1] == e then k1 + 1 else k1, if b.ends[k2] == e then k2 + 1 else k2;
            if e == LAST then Next(ends') == MAX_BITS
            else j1 < |a.ends| && j2 < |b.ends| && |ends'| <= j1 + j2 && Merging(a, b, op, j1, j2, start, ends')
  {
    hide Canonical, Traces, Pointwise, Bits, Apply;
    if |ends| == 0 || bit != Current(start, ends) {
      MergeNewRun(a, b, op, k1, k2, start, ends);
      ends' := ends + [Closer(a, b, k1, k2)];
    } else {
      MergeGrow(a, b, op, k1, k2, start, ends);
      ends' := ends[|ends| - 1 := Closer(a, b, k1, k2)];
    }
    if Closer(a, b, k1, k2) < LAST {
      MergeAdvance(a, b, op, k1, k2, start, ends, ends');
    }
  }

  lemma MergeStart(a: Runs, b: Runs, op: BoolOp)
    requires Canonical(a) && Canonical(b)
    ensures Merging(a, b, op, 0, 0, Apply(op, a.start, b.start), []) && !Odd(0)
    ensures Current(Apply(op, a.start, b.start), []) == Apply(op, a.start, b.start)
  {
  }

  /** The words of v are the run ends of g. */
  ghost predicate Words(v: seq<GapWord>, g: Runs) {
    1 <= |g.ends| < |v| && forall i | 1 <= i <= |g.ends| :: v[i] == g.ends[i - 1]
  }

  /** The loop of gap_buff_op: writes the merged run ends after word 0 of dest. */
  method MergeLoop(dest: array<GapWord>, v1: seq<GapWord>, v2: seq<GapWord>, start1: bool, start2: bool, op: BoolOp,
                   ghost a: Runs, ghost b: Runs)
    returns (start: bool, res: nat, ghost ends: seq<GapWord>)
    requires Canonical(a) && Canonical(b) && a.start == start1 && b.start == start2
    requires Words(v1, a) && Words(v2, b) && |a.ends| + |b.ends| <= dest.Length
    modifies dest
    ensures 0 < res == |ends| < |a.ends| + |b.ends| && forall i | 0 <= i < |ends| :: dest[i + 1] == ends[i]
    ensures Traces(start, ends, Pointwise(op, Bits(a), Bits(b))) && Next(ends) == MAX_BITS
  {
    hide Canonical, Traces, Pointwise, Bits, Merging, Current, Apply, Odd, Next;
    MergeStart(a, b, op);
    var cur1, cur2 := 1, 1;
    var bit1, bit2 := start1, start2;
    var bit := Apply(op, bit1, bit2);
    start := bit;
    var prev := bit;
    res := 1;
    ends := [];
    while true
      invariant 1 <= cur1 <= |a.ends| && 1 <= cur2 <= |b.ends| && |ends| <= cur1 + cur2 - 2
      invariant |ends| == 0 ==> prev == Apply(op, bit1, bit2)
      invariant Merging(a, b, op, cur1 - 1, cur2 - 1, start, ends)
      invariant bit1 == (a.start != Odd(cur1 - 1)) && bit2 == (b.start != Odd(cur2 - 1))
      invariant res == (if |ends| == 0 then 1 else |ends|) && prev == Current(start, ends)
      invariant forall i | 0 <= i < |ends| :: dest[i + 1] == ends[i]
      decreases |a.ends| - cur1 + |b.ends| - cur2
    {
      OddNext(cur1 - 1);
      OddNext(cur2 - 1);
      bit := Apply(op, bit1, bit2);
      ends := MergeRound(a, b, op, cur1 - 1, cur2 - 1, start, ends, bit);
      if bit != prev {
        res := res + 1;
        prev := bit;
      }
      if v1[cur1] < v2[cur2] {
        dest[res] := v1[cur1];
        cur1 := cur1 + 1;
        bit1 := !bit1;
      } else {
        dest[res] := v2[cur2];
        if v2[cur2] < v1[cur1] {
          bit2 := !bit2;
        } else {
          if v2[cur2] == LAST {
            break;
          }
          cur1 := cur1 + 1;
          bit1 := !bit1;
          bit2 := !bit2;
        }
        cur2 := cur2 + 1;
      }
    }
  }

  lemma MergeResult(d: seq<GapWord>, a: Runs, b: Runs, op: BoolOp, start: bool, ends: seq<GapWord>)
    requires Canonical(a) && Canonical(b) && 0 < |ends| < 8192
    requires Traces(start, ends, Pointwise(op, Bits(a), Bits(b))) && Next(ends) == MAX_BITS
    requires |ends| < |d| && d[0] == Header(start, 0, |ends|) && forall i | 0 <= i < |ends| :: d[i + 1] == ends[i]
    ensures Valid(d) && Level(d) == 0 && Length(d) == |ends|
    ensures GapBits(d) == Pointwise(op, Bits(a), Bits(b))
  {
    HeaderFields(d, start, 0, |ends|);
    assert d[1..|ends|] + [LAST] == ends;
    TraceDone(start, ends, Pointwise(op, Bits(a), Bits(b)));
  }

  /** Merges two buffers under op into dest; an operand is inverted first when its mask is set. */
  method BuffOp(dest: array<GapWord>, v1: seq<GapWord>, mask1: bool, v2: seq<GapWord>, mask2: bool, op: BoolOp)
    returns (dlen: nat)
    requires Valid(v1) && Valid(v2)
    requires Length(v1) + Length(v2) <= dest.Length && Length(v1) + Length(v2) <= 8192
    modifies dest
    ensures Valid(dest[..]) && Level(dest[..]) == 0
    ensures dlen == Length(dest[..]) < Length(v1) + Length(v2)
    ensures GapBits(dest[..]) == Pointwise(op, Bits(Masked(v1, mask1)), Bits(Masked(v2, mask2)))
  {
    ghost var a, b := Masked(v1, mask1), Masked(v2, mask2);
    assert Words(v1, a) && Words(v2, b);
    ghost var ends;
    var start;
    start, dlen, ends := MergeLoop(dest, v1, v2, Start(v1) != mask1, Start(v2) != mask2, op, a, b);
    dest[0] := Header(start, 0, dlen);
    MergeResult(dest[..], a, b, op, start, ends);
  }

  /** Header word with the start bit flipped (gap_invert). */
  function InvertHeader(h: GapWord): (r: GapWord)
    ensures r / 8 == h / 8 && r / 2 % 4 == h / 2 % 4 && (r % 2 == 1) != (h % 2 == 1)
  {
    if h % 2 == 1 then h - 1 else h + 1
  }

  /** Flipping the start bit complements all bits. */
  lemma InvertedBuffer(v: seq<GapWord>, w: seq<GapWord>)
    requires Valid(v) && w == v[0 := InvertHeader(v[0])]
    ensures Valid(w) && Length(w) == Length(v) && Level(w) == Level(v)
    ensures forall p | 0 <= p < MAX_BITS :: GapBits(w)[p] == !GapBits(v)[p]
  {
    assert View(w) == Masked(v, true);
  }

  /**
   The binary operations on GAP buffers: AND and XOR directly, OR as the complement of the AND of
   complements, SUB as AND with the complement of the second operand.
   */
  method GapOperation(op: BoolOp, v1: seq<GapWord>, v2: seq<GapWord>, tmp: array<GapWord>) returns (dlen: nat)
    requires Valid(v1) && Valid(v2)
    requires Length(v1) + Length(v2) <= tmp.Length && Length(v1) + Length(v2) <= 8192
    modifies tmp
    ensures Valid(tmp[..]) && Level(tmp[..]) == 0
    ensures dlen == Length(tmp[..]) < Length(v1) + Length(v2)
    ensures GapBits(tmp[..]) == Pointwise(op, GapBits(v1), GapBits(v2))
  {
    hide Canonical, Valid, GapBit, BitAt, View, Length, Level;
    match op {
      case And => dlen := BuffOp(tmp, v1, false, v2, false, And);
      case Xor => dlen := BuffOp(tmp, v1, false, v2, false, Xor);
      case Sub => dlen := BuffOp(tmp, v1, false, v2, true, And);
      case Or =>
        dlen := BuffOp(tmp, v1, true, v2, true, And);
        ghost var w := tmp[..];
        tmp[0] := InvertHeader(tmp[0]);
        InvertedBuffer(w, tmp[..]);
    }
  }
}
