/**
 The four kinds of block, what they hold, and the operations on single blocks.
 */
module Blocks {
  import opened BitString
  import opened Gap
  import opened BitBlock
  import GapEdit
  import GapRuns
  import GapMerge
  import GapBlock

  /** gap_max_buff_len: a GAP buffer this long is degraded to a bit block. */
  const MAX_BUFF_LEN := 1280
  /** gap_equiv_len: the size of a bit block in 16-bit words. */
  const EQUIV_LEN := 4096

  /** A null pointer, the shared all-ones block, a plain block, or a GAP buffer of the capacity of its level. */
  datatype Block = Null | Full | BitBlk(bits: seq<bool>) | GapBlk(buf: seq<GapWord>)

  /** Capacities grow by at least two words a level, and no buffer is larger than a bit block. */
  predicate LevelTable(glen: seq<GapWord>) {
    && |glen| == 4 && 5 <= glen[0] && glen[3] <= EQUIV_LEN
    && glen[0] as int + 2 <= glen[1] && glen[1] as int + 2 <= glen[2] && glen[2] as int + 2 <= glen[3]
  }

  ghost predicate WellFormed(b: Block) {
    match b
    case BitBlk(bits) => |bits| == BLOCK_BITS
    case GapBlk(buf) => Valid(buf) && Length(buf) <= EQUIV_LEN - 4
    case _ => true
  }

  /** The capacity rule: a buffer leaves at least four words of its level unused. */
  ghost predicate Fits(buf: seq<GapWord>, glen: seq<GapWord>)
    requires LevelTable(glen)
  {
    Valid(buf) && |buf| == glen[Level(buf)] && Length(buf) <= glen[Level(buf)] - 4
  }

  ghost predicate BlockOk(b: Block, glen: seq<GapWord>)
    requires LevelTable(glen)
    ensures BlockOk(b, glen) ==> WellFormed(b)
  {
    match b
    case BitBlk(bits) => |bits| == BLOCK_BITS
    case GapBlk(buf) => Fits(buf, glen)
    case _ => true
  }

  function Constant(v: bool): (s: seq<bool>)
    ensures |s| == BLOCK_BITS
  {
    seq(BLOCK_BITS, i => v)
  }

  ghost function Content(b: Block): (s: seq<bool>)
    requires WellFormed(b)
    ensures |s| == BLOCK_BITS
  {
    match b
    case Null => Constant(false)
    case Full => Constant(true)
    case BitBlk(bits) => bits
    case GapBlk(buf) => GapBits(buf)
  }

  // ---------------------------------------------------------------- GAP allocation

  /** A buffer of the capacity of the level holding the runs of src (allocate_gap_block). */
  function AllocateGap(glen: seq<GapWord>, level: nat, src: seq<GapWord>): (buf: seq<GapWord>)
    requires LevelTable(glen) && level < 4 && |src| > 0 && Length(src) < |src| && Length(src) < glen[level]
  {
    [Header(Start(src), level, Length(src))] + src[1..Length(src) + 1] + seq(glen[level] as int - 1 - Length(src), i => 0)
  }

  lemma AllocatedFits(glen: seq<GapWord>, level: nat, src: seq<GapWord>)
    requires LevelTable(glen) && level < 4 && Valid(src) && Length(src) <= glen[level] - 4
    ensures var buf := AllocateGap(glen, level, src);
            Fits(buf, glen) && Level(buf) == level && GapBits(buf) == GapBits(src)
  {
    var buf := AllocateGap(glen, level, src);
    assert buf[1..Length(src) + 1] == src[1..Length(src) + 1];
    assert View(buf) == View(src);
  }

  /** The smallest level whose capacity rule a gap_length of len meets, or -1 (gap_calc_level). */
  function CalcLevel(len: int, glen: seq<GapWord>): (level: int)
    requires |glen| == 4
    ensures -1 <= level < 4
    ensures level >= 0 ==> len <= glen[level] as int - 4
    ensures forall k | 0 <= k < (if level == -1 then 4 else level) :: len > glen[k] as int - 4
  {
    if len <= glen[0] as int - 4 then 0
    else if len <= glen[1] as int - 4 then 1
    else if len <= glen[2] as int - 4 then 2
    else if len <= glen[3] as int - 4 then 3
    else -1
  }

  /** The buffer of one run (gap_set_all on a fresh block of level 0). */
  function OneRun(glen: seq<GapWord>, v: bool): (buf: seq<GapWord>)
    requires LevelTable(glen)
  {
    [Header(v, 0, 1), LAST] + seq(glen[0] as int - 2, i => 0)
  }

  lemma OneRunFits(glen: seq<GapWord>, v: bool)
    requires LevelTable(glen)
    ensures Fits(OneRun(glen, v), glen) && GapBits(OneRun(glen, v)) == Constant(v)
    ensures Level(OneRun(glen, v)) == 0
  {
    var buf := OneRun(glen, v);
    HeaderFields(buf, v, 0, 1);
    assert buf[1..1] + [LAST] == [LAST];
    RunValue(View(buf), 0, 0);
  }

  /** A new bit block with the bits of a buffer (gap_convert_to_bitset). */
  method NewBitBlock(buf: seq<GapWord>) returns (b: Block)
    requires Valid(buf)
    ensures b == BitBlk(GapBits(buf))
  {
    var a := new bool[BLOCK_BITS];
    GapBlock.ConvertToBlock(a, buf);
    b := BitBlk(a[..]);
    assert GapBits(buf)[..BLOCK_BITS] == GapBits(buf);
  }

  /** The next level, or a bit block when there is none or the buffer is too long (extend_gap_block). */
  method ExtendGap(buf: seq<GapWord>, glen: seq<GapWord>) returns (b: Block)
    requires LevelTable(glen) && Valid(buf) && Length(buf) <= glen[Level(buf)] - 2
    ensures BlockOk(b, glen) && Content(b) == GapBits(buf) && (b.GapBlk? || b.BitBlk?)
    ensures b.BitBlk? <==> Level(buf) == 3 || Length(buf) + 1 >= MAX_BUFF_LEN
    ensures b.GapBlk? ==> Level(b.buf) == Level(buf) + 1 && Length(b.buf) == Length(buf)
  {
    if Level(buf) == 3 || Length(buf) + 1 >= MAX_BUFF_LEN {
      b := NewBitBlock(buf);
    } else {
      AllocatedFits(glen, Level(buf) + 1, buf);
      b := GapBlk(AllocateGap(glen, Level(buf) + 1, buf));
    }
  }

  // ---------------------------------------------------------------- plain blocks

  /** What a block pointer that is not GAP points to; the null block holds nothing. */
  predicate IsPlain(b: Block) {
    b.Null? || b.Full? || (b.BitBlk? && |b.bits| == BLOCK_BITS)
  }

  function Memory(b: Block): (s: seq<bool>)
    requires b.Full? || (b.BitBlk? && |b.bits| == BLOCK_BITS)
    ensures |s| == BLOCK_BITS
  {
    if b.Full? then Constant(true) else b.bits
  }

  /** Words below q have been combined, the rest is as before. */
  ghost predicate Prefix(op: BoolOp, a: seq<bool>, b: seq<bool>, src: seq<bool>, n: int) {
    && |a| == |b| == |src|
    && forall p | 0 <= p < |a| :: b[p] == if p < n then Apply(op, a[p], src[p]) else a[p]
  }

  lemma PrefixWord(op: BoolOp, a: seq<bool>, b: seq<bool>, c: seq<bool>, src: seq<bool>, q: nat)
    requires Prefix(op, a, b, src, 32 * q) && 32 * q + 32 <= |src| && WordApplied(op, b, c, q, WordAt(src, q))
    ensures Prefix(op, a, c, src, 32 * q + 32)
  {
  }

  lemma PrefixEnds(op: BoolOp, a: seq<bool>, b: seq<bool>, src: seq<bool>)
    requires |a| == |src|
    ensures Prefix(op, a, a, src, 0)
    ensures Prefix(op, a, b, src, |src|) ==> b == Pointwise(op, a, src)
  {
  }

  /** dst op= src, word by word (bit_block_and, bit_block_or, bit_block_sub, bit_block_xor). */
  method BlockOp(op: BoolOp, dst: array<bool>, src: seq<bool>)
    requires dst.Length == |src| == BLOCK_BITS
    modifies dst
    ensures dst[..] == Pointwise(op, old(dst[..]), src)
  {
    hide Prefix, WordApplied, WordAt, Pointwise;
    ghost var a := dst[..];
    PrefixEnds(op, a, a, src);
    for q := 0 to BLOCK_WORDS
      invariant Prefix(op, a, dst[..], src, 32 * q)
    {
      ghost var b := dst[..];
      WordOp(op, dst, q, WordAt(src, q));
      PrefixWord(op, a, b, dst[..], src, q);
    }
    PrefixEnds(op, a, dst[..], src);
  }

  /** A bit block holding `before op src`, before being what it held. */
  method CombineBits(op: BoolOp, before: seq<bool>, src: seq<bool>) returns (b: Block)
    requires |before| == |src| == BLOCK_BITS
    ensures b == BitBlk(Pointwise(op, before, src))
  {
    var a := new bool[BLOCK_BITS](i requires 0 <= i < BLOCK_BITS => before[i]);
    assert a[..] == before;
    BlockOp(op, a, src);
    b := BitBlk(a[..]);
  }

  /** The block r holds op of the contents of two plain blocks. */
  ghost predicate Combined(op: BoolOp, dst: Block, src: Block, r: Block)
    requires WellFormed(dst) && WellFormed(src)
  {
    WellFormed(r) && Content(r) == Pointwise(op, Content(dst), Content(src))
  }

  method AndPlain(dst: Block, src: Block) returns (r: Block)
    requires IsPlain(dst) && IsPlain(src)
    ensures IsPlain(r) && Combined(And, dst, src, r) && (dst.Null? ==> r.Null?)
  {
    if dst.BitBlk? {
      if src.Null? {
        r := Null;
      } else if src.Full? {
        r := dst;
      } else {
        r := CombineBits(And, dst.bits, src.bits);
      }
    } else if src.Null? {
      r := Null;
    } else if src.BitBlk? && dst.Full? {
      r := src;
    } else {
      r := dst;
    }
    assert Content(r) == Pointwise(And, Content(dst), Content(src));
  }

  method OrPlain(dst: Block, src: Block) returns (r: Block)
    requires IsPlain(dst) && IsPlain(src)
    ensures IsPlain(r) && Combined(Or, dst, src, r)
  {
    if dst.BitBlk? {
      if src.Full? {
        r := BitBlk(Constant(true));
      } else if src.Null? {
        r := dst;
      } else {
        r := CombineBits(Or, dst.bits, src.bits);
      }
    } else if src.Full? {
      r := Full;
    } else if src.BitBlk? && dst.Null? {
      r := src;
    } else {
      r := dst;
    }
    assert Content(r) == Pointwise(Or, Content(dst), Content(src));
  }

  method SubPlain(dst: Block, src: Block) returns (r: Block)
    requires IsPlain(dst) && IsPlain(src)
    ensures IsPlain(r) && Combined(Sub, dst, src, r) && (dst.Null? ==> r.Null?)
  {
    if src.Full? {
      r := Null;
    } else if src.Null? {
      r := dst;
    } else if dst.BitBlk? {
      r := CombineBits(Sub, dst.bits, src.bits);
    } else if dst.Full? {
      r := CombineBits(Sub, Constant(true), src.bits);
    } else {
      r := dst;
    }
    assert Content(r) == Pointwise(Sub, Content(dst), Content(src));
  }

  method XorPlain(dst: Block, src: Block) returns (r: Block)
    requires IsPlain(dst) && IsPlain(src)
    ensures IsPlain(r) && Combined(Xor, dst, src, r)
  {
    if (src.Full? && dst.Full?) || (src.Null? && dst.Null?) {
      r := Null;
    } else if src.Null? {
      r := dst;
    } else if dst.BitBlk? {
      r := CombineBits(Xor, dst.bits, Memory(src));
    } else if dst.Full? {
      r := CombineBits(Xor, Constant(true), src.bits);
    } else {
      r := src;
    }
    assert Content(r) == Pointwise(Xor, Content(dst), Content(src));
  }

  /** Two plain blocks combined, with every null and all-ones shortcut. */
  method PlainOperation(op: BoolOp, dst: Block, src: Block) returns (r: Block)
    requires IsPlain(dst) && IsPlain(src)
    ensures IsPlain(r) && Combined(op, dst, src, r)
    ensures dst.Null? && (op == And || op == Sub) ==> r.Null?
  {
    hide Combined, IsPlain;
    match op {
      case And => r := AndPlain(dst, src);
      case Or => r := OrPlain(dst, src);
      case Sub => r := SubPlain(dst, src);
      case Xor => r := XorPlain(dst, src);
    }
  }

  // ---------------------------------------------------------------- one bit

  /** gap_set_value on the memory of a block. */
  method SetInBuffer(buf: seq<GapWord>, pos: nat, val: bool) returns (buf': seq<GapWord>, changed: bool, newLen: nat)
    requires Valid(buf) && pos <= LAST && Length(buf) + 2 < |buf| && Length(buf) + 2 < 8192
    ensures GapEdit.Sets(buf, buf', pos, val) && newLen == Length(buf') == GapRuns.NewRuns(buf, pos, val) <= Length(buf) + 2
    ensures changed == (GapBit(buf, pos) != val) && (!changed ==> buf' == buf)
  {
    var a := new GapWord[|buf|](i requires 0 <= i < |buf| => buf[i]);
    assert a[..] == buf;
    GapRuns.NewRunsBound(buf, pos, val);
    changed, newLen := GapEdit.SetValue(a, pos, val);
    buf' := a[..];
  }

  /** A GAP block with bit pos set or cleared, moved to the next level or to bits when it got too long. */
  method SetInGapBlock(buf: seq<GapWord>, pos: nat, val: bool, threshold: nat, glen: seq<GapWord>) returns (b: Block, changed: bool)
    requires LevelTable(glen) && Fits(buf, glen) && pos <= LAST && threshold <= glen[Level(buf)] - 4
    ensures BlockOk(b, glen) && (b.GapBlk? || b.BitBlk?) && Content(b) == GapBits(buf)[pos := val]
    ensures changed == (GapBits(buf)[pos] != val)
    ensures b.GapBlk? ==> Level(b.buf) >= Level(buf) && Length(b.buf) == GapRuns.NewRuns(buf, pos, val) <= Length(buf) + 2
    ensures !changed || GapRuns.NewRuns(buf, pos, val) <= threshold ==> b.GapBlk? && Level(b.buf) == Level(buf)
    ensures changed && GapRuns.NewRuns(buf, pos, val) > threshold ==> b.BitBlk? || Level(b.buf) == Level(buf) + 1
  {
    var buf', newLen;
    buf', changed, newLen := SetInBuffer(buf, pos, val);
    assert GapBits(buf') == GapBits(buf)[pos := val];
    if changed && newLen > threshold {
      b := ExtendGap(buf', glen);
    } else {
      b := GapBlk(buf');
    }
  }

  // ---------------------------------------------------------------- combining any two blocks

  /** A GAP result is stored at the level it needs, or as bits when no level holds it (assign_gap_result). */
  method AssignGap(res: seq<GapWord>, glen: seq<GapWord>, current: Block) returns (r: Block)
    requires LevelTable(glen) && Valid(res) && (current.Null? || (current.GapBlk? && Fits(current.buf, glen)))
    ensures BlockOk(r, glen) && Content(r) == GapBits(res)
    ensures if CalcLevel(Length(res) + 1, glen) == -1 then r.BitBlk? else r.GapBlk?
    ensures r.GapBlk? ==> |r.buf| > 0 && Length(r.buf) == Length(res)
    ensures r.GapBlk? && current.GapBlk? && Length(res) + 1 <= glen[Level(current.buf)] - 4 ==> Level(r.buf) == Level(current.buf)
    ensures r.GapBlk? && (current.Null? || Length(res) + 1 > glen[Level(current.buf)] - 4) ==>
              forall k | 0 <= k < Level(r.buf) :: Length(res) + 1 > glen[k] - 4
  {
    var resLen := Length(res) + 1;
    var threshold := if current.Null? then 0 else glen[Level(current.buf)] as int - 4;
    var newLevel := CalcLevel(resLen, glen);
    if newLevel == -1 {
      r := NewBitBlock(res);
    } else {
      var level := if resLen > threshold then newLevel else Level(current.buf);
      AllocatedFits(glen, level, res);
      r := GapBlk(AllocateGap(glen, level, res));
    }
  }

  /** All-zero or all-one from the header and the first run (gap_is_all_zero, gap_is_all_one). */
  predicate AllSame(buf: seq<GapWord>, v: bool)
    requires |buf| > 1
  {
    Start(buf) == v && buf[1] == LAST
  }

  lemma AllSameBits(buf: seq<GapWord>, v: bool)
    requires Valid(buf)
    ensures |buf| > 1 && (AllSame(buf, v) <==> GapBits(buf) == Constant(v))
  {
    var g := View(buf);
    assert g.ends[0] == buf[1];
    RunValue(g, 0, 0);
    assert GapBits(buf)[0] == g.start;
    if g.ends[0] < LAST {
      RunValue(g, 1, g.ends[0] as int + 1);
      assert GapBits(buf)[g.ends[0] + 1] != g.start;
    }
  }

  /** Both operands are GAP. */
  method CombineGaps(op: BoolOp, blk: Block, arg: Block, glen: seq<GapWord>) returns (r: Block)
    requires LevelTable(glen) && blk.GapBlk? && arg.GapBlk? && BlockOk(blk, glen) && WellFormed(arg)
    ensures BlockOk(r, glen) && Combined(op, blk, arg, r) && (r.Null? <==> Content(r) == Constant(false))
  {
    var tmp := new GapWord[3 * EQUIV_LEN](i => 0);
    var len := GapMerge.GapOperation(op, blk.buf, arg.buf, tmp);
    AllSameBits(tmp[..], false);
    if AllSame(tmp[..], false) {
      r := Null;
    } else {
      r := AssignGap(tmp[..], glen, blk);
    }
  }

  /** A GAP block as a plain one, all-zero and all-one becoming Null and Full (gap_convert_to_bitset_smart). */
  method ToPlain(buf: seq<GapWord>) returns (b: Block)
    requires Valid(buf)
    ensures IsPlain(b) && Content(b) == GapBits(buf)
    ensures (b.Null? <==> GapBits(buf) == Constant(false)) && (b.Full? <==> GapBits(buf) == Constant(true))
  {
    AllSameBits(buf, false);
    AllSameBits(buf, true);
    if buf[1] == LAST {
      b := if Start(buf) then Full else Null;
    } else {
      b := NewBitBlock(buf);
    }
  }
}
