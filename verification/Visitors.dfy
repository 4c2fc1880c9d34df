/**
 The block functors of the blocks manager: optimisation, change of level table, inversion, zeroing.
 */
module Visitors {
  import opened BitString
  import opened Gap
  import opened BitBlock
  import opened Blocks
  import GapMerge
  import GapConvert

  /** opt_free_0 = 1, opt_free_01 = 2, opt_compress = 3. */
  type OptMode = m: int | 1 <= m <= 3 witness 1

  datatype Functor = Optimize(mode: OptMode) | Relevel(table: seq<GapWord>) | Invert | Zero

  /** The level table the blocks obey after the functor has been applied. */
  function TableAfter(f: Functor, glen: seq<GapWord>): seq<GapWord> {
    if f.Relevel? then f.table else glen
  }

  /** What a functor does to the bits of a block. */
  ghost function Effect(f: Functor, s: seq<bool>): (r: seq<bool>)
    ensures |r| == |s|
  {
    match f
    case Invert => seq(|s|, p requires 0 <= p < |s| => !s[p])
    case Zero => seq(|s|, p => false)
    case _ => s
  }

  /** The block for content s when all-zero and all-one blocks are to be null and full, and `other` holds for the rest. */
  ghost predicate Reduced(s: seq<bool>, r: Block, other: bool) {
    if s == Constant(false) then r.Null? else if s == Constant(true) then r.Full? else other
  }

  /** A GAP block of the given length and level. */
  ghost predicate GapOf(r: Block, len: int, level: int) {
    r.GapBlk? && |r.buf| > 0 && Length(r.buf) == len && Level(r.buf) == level
  }

  /** The kind of block a functor leaves. */
  ghost predicate Settled(f: Functor, b: Block, r: Block, glen: seq<GapWord>)
    requires WellFormed(b) && LevelTable(glen) && LevelTable(TableAfter(f, glen))
  {
    match f
    case Optimize(mode) =>
      if b.GapBlk? then Reduced(Content(b), r, r == b)
      else if !b.BitBlk? then r == b
      else if mode == 1 then (if b.bits == Constant(false) then r.Null? else r == b)
      else if mode == 2 then Reduced(b.bits, r, r == b)
      else if RunCount(b.bits) < glen[3] - 4 then
        Reduced(b.bits, r, GapOf(r, RunCount(b.bits), CalcLevel(RunCount(b.bits), glen)))
      else r == b
    case Relevel(table) =>
      if b.GapBlk? then
        var level := CalcLevel(Length(b.buf) + 1, table);
        Reduced(Content(b), r, if level == -1 then r.BitBlk? else GapOf(r, Length(b.buf), level))
      else r == b
    case Invert =>
      if b.Null? then r.Full? else if b.Full? then r.Null? else if b.BitBlk? then r.BitBlk?
      else GapOf(r, Length(b.buf), Level(b.buf))
    case Zero =>
      if b.Null? || b.Full? then r.Null? else if b.BitBlk? then r.BitBlk? else GapOf(r, 1, Level(b.buf))
  }

  /** Every word is 0, or every word is 0xffffffff (bit_is_all_zero, is_bits_one). */
  method AllWords(bits: seq<bool>, v: bool) returns (r: bool)
    requires |bits| == BLOCK_BITS
    ensures r <==> bits == Constant(v)
  {
    for q := 0 to BLOCK_WORDS
      invariant forall p | 0 <= p < 32 * q :: bits[p] == v
    {
      if !Uniform(WordAt(bits, q), v) {
        var i :| 0 <= i < 32 && WordAt(bits, q)[i] != v;
        assert bits[32 * q + i] != v;
        return false;
      }
      assert forall p | 32 * q <= p < 32 * q + 32 :: bits[p] == WordAt(bits, q)[p - 32 * q];
    }
    return true;
  }

  /** Tries to compress a bit block into a GAP block. */
  method Compress(bits: seq<bool>, glen: seq<GapWord>) returns (r: Block)
    requires LevelTable(glen) && |bits| == BLOCK_BITS
    ensures BlockOk(r, glen) && Content(r) == bits
    ensures if RunCount(bits) < glen[3] - 4
            then Reduced(bits, r, GapOf(r, RunCount(bits), CalcLevel(RunCount(bits), glen))) else r == BitBlk(bits)
  {
    var tmp := new GapWord[EQUIV_LEN](i => 0);
    var len := GapConvert.ConvertToGap(tmp, bits, glen[3] as int - 4);
    r := BitBlk(bits);
    if len > 0 {
      AllSameBits(tmp[..], false);
      AllSameBits(tmp[..], true);
      if AllSame(tmp[..], false) {
        r := Null;
      } else if AllSame(tmp[..], true) {
        r := Full;
      } else {
        var level := CalcLevel(len, glen);
        AllocatedFits(glen, level, tmp[..]);
        r := GapBlk(AllocateGap(glen, level, tmp[..]));
      }
    }
  }

  /** block_opt_func on a block that is not null. */
  method OptimizeBlock(mode: OptMode, b: Block, glen: seq<GapWord>) returns (r: Block)
    requires LevelTable(glen) && BlockOk(b, glen)
    ensures BlockOk(r, glen) && Content(r) == Content(b) && Settled(Optimize(mode), b, r, glen)
  {
    r := b;
    if b.GapBlk? {
      AllSameBits(b.buf, false);
      AllSameBits(b.buf, true);
      if AllSame(b.buf, false) {
        r := Null;
      } else if AllSame(b.buf, true) {
        r := Full;
      }
    } else if b.BitBlk? {
      if mode < 3 {
        var zero := AllWords(b.bits, false);
        if zero {
          r := Null;
        } else if mode == 2 {
          var one := AllWords(b.bits, true);
          if one {
            r := Full;
          }
        }
      } else {
        r := Compress(b.bits, glen);
      }
    }
  }

  /** gap_level_func: GAP blocks move to the level of the new table that holds them, or to bits. */
  method RelevelBlock(b: Block, table: seq<GapWord>) returns (r: Block)
    requires LevelTable(table) && WellFormed(b)
    ensures BlockOk(r, table) && Content(r) == Content(b) && Settled(Relevel(table), b, r, table)
  {
    r := b;
    if b.GapBlk? {
      AllSameBits(b.buf, false);
      AllSameBits(b.buf, true);
      if AllSame(b.buf, false) {
        r := Null;
      } else if AllSame(b.buf, true) {
        r := Full;
      } else {
        var level := CalcLevel(Length(b.buf) + 1, table);
        if level == -1 {
          r := NewBitBlock(b.buf);
        } else {
          AllocatedFits(table, level, b.buf);
          r := GapBlk(AllocateGap(table, level, b.buf));
        }
      }
    }
  }

  lemma InvertedGap(buf: seq<GapWord>, glen: seq<GapWord>)
    requires LevelTable(glen) && Fits(buf, glen)
    ensures |buf| > 0
    ensures var buf' := buf[0 := GapMerge.InvertHeader(buf[0])];
            && BlockOk(GapBlk(buf'), glen) && GapBits(buf') == Effect(Invert, GapBits(buf))
            && Length(buf') == Length(buf) && Level(buf') == Level(buf)
  {
    GapMerge.InvertedBuffer(buf, buf[0 := GapMerge.InvertHeader(buf[0])]);
  }

  /** Complements the bits of a block; a GAP block just flips its start bit. */
  method InvertBlock(b: Block, glen: seq<GapWord>) returns (r: Block)
    requires LevelTable(glen) && BlockOk(b, glen)
    ensures BlockOk(r, glen) && Content(r) == Effect(Invert, Content(b)) && Settled(Invert, b, r, glen)
  {
    hide Fits, Valid, GapBit;
    match b {
      case Null => r := Full;
      case Full => r := Null;
      case GapBlk(buf) =>
        InvertedGap(buf, glen);
        r := GapBlk(buf[0 := GapMerge.InvertHeader(buf[0])]);
      case BitBlk(bits) =>
        r := CombineBits(Xor, bits, Constant(true));
    }
    assert Content(r) == Effect(Invert, Content(b));
  }

  /** block_zero_func: empties a block without freeing its memory. */
  method ZeroBlock(b: Block, glen: seq<GapWord>) returns (r: Block)
    requires LevelTable(glen) && BlockOk(b, glen)
    ensures BlockOk(r, glen) && Content(r) == Effect(Zero, Content(b)) && Settled(Zero, b, r, glen)
  {
    match b {
      case Null => r := Null;
      case Full => r := Null;
      case GapBlk(buf) =>
        var buf' := buf[0 := Header(false, Level(buf), 1)][1 := LAST];
        HeaderFields(buf', false, Level(buf), 1);
        assert buf'[1..1] + [LAST] == [LAST];
        AllSameBits(buf', false);
        r := GapBlk(buf');
      case BitBlk(bits) =>
        r := BitBlk(Constant(false));
    }
    assert Content(r) == Effect(Zero, Content(b));
  }

  method Visit(f: Functor, b: Block, glen: seq<GapWord>) returns (r: Block)
    requires LevelTable(glen) && BlockOk(b, glen) && LevelTable(TableAfter(f, glen))
    ensures BlockOk(r, TableAfter(f, glen)) && Content(r) == Effect(f, Content(b)) && Settled(f, b, r, glen)
  {
    match f {
      case Optimize(mode) => r := OptimizeBlock(mode, b, glen);
      case Relevel(table) => r := RelevelBlock(b, table);
      case Invert => r := InvertBlock(b, glen);
      case Zero => r := ZeroBlock(b, glen);
    }
  }
}
