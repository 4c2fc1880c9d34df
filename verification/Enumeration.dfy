/**
 The enumerator: go_first and go_up visit the ones of a vector in increasing order.
 */
module Enumeration {
  import opened BitString
  import opened Gap
  import opened BitBlock
  import opened Blocks
  import opened Tree
  import opened Vector
  import opened BitSearch

  /**
   Where in its block the enumerator stands (block_descr).  In a plain block: a word, the list of
   its ones, the index in that list and the position of the word.  In a GAP block: the run and how
   much of it is left, in 16 bits.
   */
  datatype Descriptor =
    | BitDescr(ptr: nat, bits: seq<nat>, idx: nat, pos: nat)
    | GapDescr(ptr: nat, gapLen: GapWord)

  /** Run k is a run of ones holding off; left positions of it remain, modulo 2^16. */
  ghost predicate OnRun(g: Runs, k: nat, off: int, left: GapWord) {
    k < |g.ends| && g.start != Odd(k) && After(g, k) <= off <= g.ends[k] && left == Low16(g.ends[k] as int + 1 - off)
  }

  /** The descriptor of a position, for a block starting at base. */
  ghost predicate Describes(d: Descriptor, b: Block, base: nat, position: nat)
    requires WellFormed(b)
  {
    match d
    case BitDescr(ptr, bits, idx, pos) =>
      && (b.Full? || b.BitBlk?) && ptr < BLOCK_WORDS && bits == Positions(WordAt(Memory(b), ptr), 32)
      && idx < |bits| && pos == base + 32 * ptr && position == pos + bits[idx]
    case GapDescr(ptr, gapLen) =>
      b.GapBlk? && 1 <= ptr <= Length(b.buf) && OnRun(View(b.buf), ptr - 1, position - base, gapLen)
  }

  function Low16(n: nat): (r: GapWord)
    ensures n < 65536 ==> r == n
    ensures n == 65536 ==> r == 0
  {
    n % 65536
  }

  // ---------------------------------------------------------------- plain blocks

  lemma NibbleStep(w0: Word, w: Word, off: nat)
    requires off + 4 <= 32 && w == ShiftedBy(w0, off)
    ensures ShiftedBy(w, 4) == ShiftedBy(w0, off + 4)
    ensures Positions(w0, off + 4) == Positions(w0, off)
            + (if w[0] then [off] else []) + (if w[1] then [off + 1] else [])
            + (if w[2] then [off + 2] else []) + (if w[3] then [off + 3] else [])
  {
    assert ShiftedBy(w, 4) == ShiftedBy(w0, off + 4);
    assert w[0] == w0[off] && w[1] == w0[off + 1] && w[2] == w0[off + 2] && w[3] == w0[off + 3];
    hide ShiftedBy, Positions;
    PositionsStep(w0, off);
    PositionsStep(w0, off + 1);
    PositionsStep(w0, off + 2);
    PositionsStep(w0, off + 3);
  }

  lemma PositionsStep(w: Word, n: nat)
    requires n < 32
    ensures Positions(w, n + 1) == Positions(w, n) + if w[n] then [n] else []
  {
  }

  /** bit_list_4: the ones of a word, four bits at a time until the rest is zero. */
  method BitList(w0: Word) returns (bits: seq<nat>)
    ensures bits == Positions(w0, 32)
  {
    hide Positions, ShiftedBy;
    ShiftedNone(w0);
    var w := w0;
    var off := 0;
    bits := [];
    while !Uniform(w, false)
      invariant off <= 32 && off % 4 == 0 && w == ShiftedBy(w0, off) && bits == Positions(w0, off)
      decreases 32 - off
    {
      if off == 32 {
        ShiftedAll(w0);
        assert false;
      }
      NibbleStep(w0, w, off);
      if w[0] { bits := bits + [off]; }
      if w[1] { bits := bits + [off + 1]; }
      if w[2] { bits := bits + [off + 2]; }
      if w[3] { bits := bits + [off + 3]; }
      w := ShiftedBy(w, 4);
      off := off + 4;
    }
    ShiftedZero(w0, off);
  }

  lemma ShiftedNone(w: Word)
    ensures ShiftedBy(w, 0) == w && Positions(w, 0) == []
  {
  }

  lemma ShiftedAll(w: Word)
    ensures Uniform(ShiftedBy(w, 32), false)
  {
  }

  lemma ShiftedZero(w: Word, off: nat)
    requires off <= 32 && Uniform(ShiftedBy(w, off), false)
    ensures Positions(w, 32) == Positions(w, off)
  {
    forall p | off <= p < 32 ensures !w[p] {
      assert ShiftedBy(w, off)[p - off] == w[p];
    }
    PositionsZeros(w, off, 32);
  }

  lemma WordBits(data: seq<bool>, q: nat)
    requires 32 * q + 32 <= |data|
    ensures forall p | 32 * q <= p < 32 * q + 32 :: data[p] == WordAt(data, q)[p - 32 * q]
  {
  }

  /** From bit lo on: the first listed position that is not below lo is the first one. */
  lemma ListedFirst(w: Word, lo: nat, k: nat)
    requires var bits := Positions(w, 32);
             k <= |bits| && (forall i | 0 <= i < k :: bits[i] < lo) && forall i | k <= i < |bits| :: lo <= bits[i]
    requires lo <= 32
    ensures var bits := Positions(w, 32); if k < |bits| then FirstOne(w, lo, bits[k]) else NoOnes(w, lo, 32)
  {
    PositionsSorted(w, 32);
    hide Positions;
    var bits := Positions(w, 32);
    forall q | lo <= q < 32 && w[q] ensures k < |bits| && bits[k] <= q {
      var i :| 0 <= i < |bits| && bits[i] == q;
    }
  }

  /** What holds of the bits of word q holds of the block there. */
  lemma WordInBlock(data: seq<bool>, q: nat, lo: nat, p: nat)
    requires 32 * q + 32 <= |data|
    ensures FirstOne(WordAt(data, q), lo, p) ==> FirstOne(data, 32 * q + lo, 32 * q + p)
    ensures NoOnes(WordAt(data, q), lo, 32) ==> NoOnes(data, 32 * q + lo, 32 * q + 32)
  {
    WordBits(data, q);
    hide WordAt;
  }

  /** The list of a word's ones tells the first one of the block from there, or that the word has none. */
  lemma WordList(data: seq<bool>, q: nat)
    requires 32 * q + 32 <= |data|
    ensures var bits := Positions(WordAt(data, q), 32);
            && (if |bits| > 0 then FirstOne(data, 32 * q, 32 * q + bits[0]) else NoOnes(data, 32 * q, 32 * q + 32))
            && (bits == [] <==> Uniform(WordAt(data, q), false))
  {
    hide WordAt, Positions;
    var w := WordAt(data, q);
    var bits := Positions(w, 32);
    ListedFirst(w, 0, 0);
    WordInBlock(data, q, 0, if |bits| > 0 then bits[0] else 0);
  }

  lemma WordListNext(data: seq<bool>, q: nat, idx: nat)
    requires 32 * q + 32 <= |data| && idx < |Positions(WordAt(data, q), 32)|
    ensures var bits := Positions(WordAt(data, q), 32);
            var from := 32 * q + bits[idx] + 1;
            && bits[idx] < 32
            && if idx + 1 < |bits| then FirstOne(data, from, 32 * q + bits[idx + 1]) else NoOnes(data, from, 32 * q + 32)
  {
    hide WordAt, Positions;
    var w := WordAt(data, q);
    var bits := Positions(w, 32);
    PositionsSorted(w, 32);
    ListedFirst(w, bits[idx] + 1, idx + 1);
    WordInBlock(data, q, bits[idx] + 1, if idx + 1 < |bits| then bits[idx + 1] else 0);
  }

  /** The first word with a one, from word q0 on (search_in_bitblock and the word loop of go_up). */
  method SearchWords(data: seq<bool>, q0: nat, position0: nat, ghost base: nat) returns (found: bool, d: Descriptor, position: nat)
    requires |data| == BLOCK_BITS && q0 <= BLOCK_WORDS && base + BLOCK_BITS <= ID_MAX + 1 && position0 == Wrap32(base + 32 * q0)
    ensures found ==> base <= position && FirstOne(data, 32 * q0, position - base)
    ensures found ==> Describes(d, BitBlk(data), base, position)
    ensures !found ==> NoOnes(data, 32 * q0, BLOCK_BITS) && position == Wrap32(base + BLOCK_BITS)
  {
    hide WordAt, Positions, FirstOne, NoOnes, Wrap32, Uniform;
    position := position0;
    var q := q0;
    NoOnesStart(data, 32 * q0);
    while q < BLOCK_WORDS
      invariant q0 <= q <= BLOCK_WORDS && position == Wrap32(base + 32 * q) && NoOnes(data, 32 * q0, 32 * q)
    {
      var w := WordAt(data, q);
      WordList(data, q);
      if !Uniform(w, false) {
        var bits := BitList(w);
        d := BitDescr(q, bits, 0, position);
        NoOnesJoin(data, 32 * q0, 32 * q, 32 * q + bits[0]);
        FirstOneBound(data, 32 * q, 32 * q + bits[0]);
        position := position + bits[0];
        return true, d, position;
      }
      NoOnesJoin(data, 32 * q0, 32 * q, 32 * q + 32);
      position := Wrap32(position + 32);
      q := q + 1;
    }
    found, d := false, GapDescr(0, 0);
  }

  /** The rest of a plain block after the current one. */
  method NextInBits(data: seq<bool>, d0: Descriptor, position0: nat, ghost base: nat) returns (found: bool, d: Descriptor, position: nat)
    requires |data| == BLOCK_BITS && base + BLOCK_BITS <= ID_MAX + 1 && position0 < ID_MAX && d0.BitDescr?
    requires Describes(d0, BitBlk(data), base, position0)
    ensures found ==> base <= position && FirstOne(data, position0 - base + 1, position - base)
    ensures found ==> Describes(d, BitBlk(data), base, position)
    ensures !found ==> NoOnes(data, position0 - base + 1, BLOCK_BITS) && position == Wrap32(base + BLOCK_BITS)
  {
    hide WordAt, Positions, FirstOne, NoOnes, Wrap32;
    d := d0.(idx := d0.idx + 1);
    WordListNext(data, d.ptr, d0.idx);
    if d.idx < |d.bits| {
      FirstOneBound(data, position0 - base + 1, 32 * d.ptr + d.bits[d.idx]);
      return true, d, d.pos + d.bits[d.idx];
    }
    position := Wrap32(position0 + 1 + (31 - d.bits[d.idx - 1]));
    ghost var from, q := position0 - base + 1, d.ptr + 1;
    found, d, position := SearchWords(data, d.ptr + 1, position, base);
    NoOnesJoin(data, from, 32 * q, if found then position - base else BLOCK_BITS) by {
      if found {
        FirstOneBound(data, 32 * q, position - base);
      }
    }
  }

  // ---------------------------------------------------------------- GAP blocks

  /** Run k of ones starts at its first position, after zeros from lo on. */
  lemma RunStarts(g: Runs, k: nat, lo: nat)
    requires Canonical(g) && k < |g.ends| && g.start != Odd(k) && lo <= After(g, k)
    requires NoOnes(Bits(g), lo, After(g, k))
    ensures FirstOne(Bits(g), lo, After(g, k)) && OnRun(g, k, After(g, k), Low16(After(g, k + 1) - After(g, k)))
  {
    RunValue(g, k, After(g, k));
  }

  lemma RunOfZeros(g: Runs, k: nat)
    requires Canonical(g) && k < |g.ends| && g.start == Odd(k)
    ensures NoOnes(Bits(g), After(g, k), After(g, k + 1))
  {
    RunValue(g, k, After(g, k));
  }

  /** search_in_gapblock: the first run, or the second when the first is of zeros. */
  method SearchGap(buf: seq<GapWord>, base: nat) returns (found: bool, d: Descriptor, position: nat)
    requires Valid(buf) && base + BLOCK_BITS <= ID_MAX + 1
    ensures found ==> base <= position && FirstOne(GapBits(buf), 0, position - base)
    ensures found ==> d.GapDescr? && 1 <= d.ptr <= Length(buf) && OnRun(View(buf), d.ptr - 1, position - base, d.gapLen)
    ensures !found ==> NoOnes(GapBits(buf), 0, BLOCK_BITS) && position == Wrap32(base + BLOCK_BITS)
  {
    hide FirstOne, NoOnes, OnRun, Bits, BitAt, Low16, Wrap32;
    ghost var g := View(buf);
    assert forall i | 1 <= i <= Length(buf) :: buf[i] == g.ends[i - 1];
    position := base;
    var bitval, ptr := Start(buf), 1;
    NoOnesStart(Bits(g), 0);
    while true
      invariant 1 <= ptr <= 2 && ptr <= Length(buf) && bitval == (g.start != Odd(ptr - 1)) && (ptr == 2 ==> bitval)
      invariant position == Wrap32(base + After(g, ptr - 1)) && NoOnes(Bits(g), 0, After(g, ptr - 1))
      decreases 2 - ptr
    {
      var val := buf[ptr];
      if bitval {
        RunStarts(g, ptr - 1, 0);
        var gapLen := if ptr == 1 then Low16(val as int + 1) else val - buf[ptr - 1];
        return true, GapDescr(ptr, gapLen), position;
      }
      RunOfZeros(g, ptr - 1);
      position := Wrap32(position + (val as int + 1));
      if val == LAST {
        return false, GapDescr(0, 0), position;
      }
      bitval, ptr := !bitval, ptr + 1;
    }
  }

  /** One position on in a run leaves one less of it; after its last position the next one is in run k + 2. */
  lemma RunLeft(g: Runs, k: nat, off: int, left: GapWord)
    requires Canonical(g) && OnRun(g, k, off, left)
    ensures var left' := Low16(left as int + 65535);
            && (left' == 0 <==> off == g.ends[k])
            && (left' != 0 ==> OnRun(g, k, off + 1, left') && FirstOne(Bits(g), off + 1, off + 1))
  {
    RunValue(g, k, After(g, k));
  }

  /** The rest of a GAP block after the current one. */
  method NextInGap(buf: seq<GapWord>, d0: Descriptor, position0: nat, ghost base: nat) returns (found: bool, d: Descriptor, position: nat)
    requires Valid(buf) && base + BLOCK_BITS <= ID_MAX + 1 && base <= position0 < ID_MAX
    requires d0.GapDescr? && 1 <= d0.ptr <= Length(buf) && OnRun(View(buf), d0.ptr - 1, position0 - base, d0.gapLen)
    ensures found ==> base <= position && FirstOne(GapBits(buf), position0 - base + 1, position - base)
    ensures found ==> d.GapDescr? && 1 <= d.ptr <= Length(buf) && OnRun(View(buf), d.ptr - 1, position - base, d.gapLen)
    ensures !found ==> NoOnes(GapBits(buf), position0 - base + 1, BLOCK_BITS) && position == Wrap32(base + BLOCK_BITS)
  {
    hide FirstOne, NoOnes, OnRun, Bits, BitAt, Low16, Wrap32, Odd, Canonical;
    ghost var g, k := View(buf), d0.ptr - 1;
    assert forall i | 1 <= i <= Length(buf) :: buf[i] == g.ends[i - 1];
    RunLeft(g, k, position0 - base, d0.gapLen);
    position := position0 + 1;
    d := d0.(gapLen := Low16(d0.gapLen as int + 65535));
    if d.gapLen != 0 {
      return true, d, position;
    }
    AfterRun(g, k, position0 - base, d0.gapLen);
    if buf[d.ptr] == LAST {
      return false, d, position;
    }
    var prev, val := buf[d.ptr], buf[d.ptr + 1];
    position := Wrap32(position + (val - prev));
    if val == LAST {
      return false, GapDescr(d.ptr + 1, 0), position;
    }
    var val' := buf[d.ptr + 2];
    d := GapDescr(d.ptr + 2, val' - val);
    found := true;
  }

  /** After the last position of a run of ones come zeros to the end of the next run, then ones. */
  lemma AfterRun(g: Runs, k: nat, off: int, left: GapWord)
    requires Canonical(g) && OnRun(g, k, off, left) && off == g.ends[k]
    ensures 0 <= off <= LAST && |g.ends| > 0 && NoOnes(Bits(g), off + 1, After(g, k + 2))
    ensures off == LAST ==> After(g, k + 2) == MAX_BITS
    ensures off < LAST ==> k + 1 < |g.ends| && g.ends[k] < g.ends[k + 1] && After(g, k + 2) == g.ends[k + 1] as int + 1
    ensures off < LAST && g.ends[k + 1] < LAST ==>
              && k + 2 < |g.ends| && g.ends[k + 1] < g.ends[k + 2] && FirstOne(Bits(g), off + 1, After(g, k + 2))
              && OnRun(g, k + 2, After(g, k + 2), g.ends[k + 2] - g.ends[k + 1])
  {
    hide Bits, BitAt, Odd, FirstOne, NoOnes, Low16;
    OddNext(k);
    OddNext(k + 1);
    NoOnesStart(Bits(g), off + 1);
    if off < LAST {
      RunOfZeros(g, k + 1);
      if g.ends[k + 1] < LAST {
        RunStarts(g, k + 2, off + 1);
      }
    }
  }

  // ---------------------------------------------------------------- any block

  /** The first one of a block that is not null. */
  method SearchBlock(block: Block, base: nat) returns (found: bool, d: Descriptor, position: nat)
    requires WellFormed(block) && !block.Null? && base + BLOCK_BITS <= ID_MAX + 1
    ensures found ==> base <= position && FirstOne(Content(block), 0, position - base) && Describes(d, block, base, position)
    ensures !found ==> NoOnes(Content(block), 0, BLOCK_BITS) && position == Wrap32(base + BLOCK_BITS)
  {
    hide FirstOne, NoOnes, Wrap32, OnRun, Positions, Valid, GapBits;
    if block.GapBlk? {
      found, d, position := SearchGap(block.buf, base);
    } else {
      found, d, position := SearchWords(Memory(block), 0, base, base);
    }
  }

  /** The one after the current one in its block. */
  method NextInBlock(block: Block, d0: Descriptor, position0: nat, ghost base: nat) returns (found: bool, d: Descriptor, position: nat)
    requires WellFormed(block) && base + BLOCK_BITS <= ID_MAX + 1 && base <= position0 < ID_MAX && Describes(d0, block, base, position0)
    ensures found ==> base <= position && FirstOne(Content(block), position0 - base + 1, position - base)
    ensures found ==> Describes(d, block, base, position)
    ensures !found ==> NoOnes(Content(block), position0 - base + 1, BLOCK_BITS) && position == Wrap32(base + BLOCK_BITS)
  {
    hide FirstOne, NoOnes, Wrap32, OnRun, Positions, Valid, GapBits;
    if d0.GapDescr? {
      found, d, position := NextInGap(block.buf, d0, position0, base);
    } else {
      found, d, position := NextInBits(Memory(block), d0, position0, base);
    }
  }

  /** The position lies in the block it is described in. */
  lemma DescribedBound(d: Descriptor, b: Block, base: nat, position: nat)
    requires WellFormed(b) && Describes(d, b, base, position)
    ensures base <= position < base + BLOCK_BITS && !b.Null?
  {
    match d {
      case BitDescr(ptr, bits, idx, pos) =>
        PositionsSorted(WordAt(Memory(b), ptr), 32);
      case GapDescr(ptr, gapLen) =>
    }
  }

  class Enumerator {
    const bv: BVector
    var position: nat
    var block: Block
    var blockIdx: nat
    var descr: Descriptor

    /** Past the last one, or on a one with its block and descriptor. */
    ghost predicate Valid()
      reads this, bv
    {
      && bv.Valid()
      && (position == ID_MAX || (position in bv.Contents() && On()))
    }

    ghost predicate On()
      requires bv.TreeValid()
      reads this, bv
    {
      && blockIdx < ALL_BLOCKS && blockIdx / SUB_BLOCKS < |bv.tree| && block == BlockAt(bv.tree, blockIdx)
      && Describes(descr, block, BLOCK_BITS * blockIdx, position)
    }

    constructor (bv: BVector)
      requires bv.Valid()
      ensures this.bv == bv && Valid() && position == ID_MAX
    {
      this.bv := bv;
      this.position := ID_MAX;
      this.block, this.blockIdx, this.descr := Null, 0, GapDescr(0, 0);
    }

    /** Block blockIdx is searched; the search moves past it when it has no one. */
    method Probe(b: Block, ghost from: nat) returns (found: bool)
      requires bv.Valid() && blockIdx < ALL_BLOCKS && blockIdx / SUB_BLOCKS < |bv.tree| && b == BlockAt(bv.tree, blockIdx)
      requires position == Wrap32(BLOCK_BITS * blockIdx)
      requires from <= BLOCK_BITS * blockIdx && NoneIn(bv.Contents(), from, BLOCK_BITS * blockIdx)
      modifies this
      ensures found ==> blockIdx == old(blockIdx) && On() && LeastFrom(bv.Contents(), from, position)
      ensures !found ==> blockIdx == old(blockIdx) + 1 && position == Wrap32(BLOCK_BITS * blockIdx)
      ensures !found ==> NoneIn(bv.Contents(), from, BLOCK_BITS * blockIdx)
    {
      hide TreeOk, BlockAt, Members, Content, Describes, FirstOne, NoOnes, Wrap32, NoneIn, LeastFrom;
      ghost var base := BLOCK_BITS * blockIdx;
      block := b;
      if b.Null? {
        NullNoOnes(0);
        position := Wrap32(position + BLOCK_BITS);
        found := false;
      } else {
        found, descr, position := SearchBlock(b, position);
      }
      if found {
        FirstMember(bv.tree, from, blockIdx, 0, position - base);
      } else {
        NoMembers(bv.tree, from, blockIdx, 0, BLOCK_BITS);
        blockIdx := blockIdx + 1;
      }
    }

    /** Searches the blocks from entry j0 of sub-array i0 on, to the end of the top array. */
    method SearchFrom(i0: nat, j0: nat, ghost from: nat)
      requires bv.Valid() && i0 <= |bv.tree| && j0 < SUB_BLOCKS && blockIdx == SUB_BLOCKS * i0 + j0
      requires j0 == 0 || (i0 < |bv.tree| && bv.tree[i0].Present?)
      requires position == Wrap32(BLOCK_BITS * blockIdx)
      requires from <= BLOCK_BITS * blockIdx && NoneIn(bv.Contents(), from, BLOCK_BITS * blockIdx)
      modifies this
      ensures Valid()
      ensures if AnyFrom(bv.Contents(), from) then LeastFrom(bv.Contents(), from, position) else position == ID_MAX
    {
      hide TreeOk, BlockAt, Members, Content, Describes, FirstOne, NoOnes, Wrap32, NoneIn, TopSize, AnyFrom;
      EffectiveBound(bv.tree, bv.effTop, bv.glen);
      var i, j := i0, j0;
      while i < |bv.tree|
        invariant i <= |bv.tree| && 0 <= j < SUB_BLOCKS && blockIdx == SUB_BLOCKS * i + j
        invariant j == 0 || (i < |bv.tree| && bv.tree[i].Present?)
        invariant position == Wrap32(BLOCK_BITS * blockIdx)
        invariant from <= BLOCK_BITS * blockIdx && NoneIn(bv.Contents(), from, BLOCK_BITS * blockIdx)
      {
        if bv.tree[i].Missing? {
          NoMembersMissing(bv.tree, from, BLOCK_BITS * blockIdx, i);
          blockIdx := blockIdx + SUB_BLOCKS;
          position := Wrap32(position + SUB_BITS);
        } else {
          while j < SUB_BLOCKS
            invariant 0 <= j <= SUB_BLOCKS && blockIdx == SUB_BLOCKS * i + j
            invariant position == Wrap32(BLOCK_BITS * blockIdx)
            invariant from <= BLOCK_BITS * blockIdx && NoneIn(bv.Contents(), from, BLOCK_BITS * blockIdx)
          {
            SubEntry(bv.tree, bv.effTop, bv.glen, i, j);
            var found := Probe(bv.tree[i].blks[j], from);
            if found {
              LeastAny(bv.Contents(), from, position);
              return;
            }
            j := j + 1;
          }
        }
        i, j := i + 1, 0;
      }
      NoneBeyond(bv.tree, from);
      position := ID_MAX;
    }

    /** go_first. */
    method GoFirst()
      requires bv.Valid()
      modifies this
      ensures Valid()
      ensures if AnyFrom(bv.Contents(), 0) then LeastFrom(bv.Contents(), 0, position) else position == ID_MAX
    {
      hide TreeOk, Members, Describes;
      blockIdx, position := 0, 0;
      SearchFrom(0, 0, 0);
    }

    /** go_up: the rest of the current block, then the blocks after it. */
    method GoUp()
      requires Valid() && position != ID_MAX
      modifies this
      ensures Valid()
      ensures if AnyFrom(bv.Contents(), old(position) + 1) then LeastFrom(bv.Contents(), old(position) + 1, position)
              else position == ID_MAX
    {
      hide TreeOk, BlockAt, Members, Content, Describes, FirstOne, NoOnes, Wrap32, TopSize, AnyFrom;
      ghost var base, was := BLOCK_BITS * blockIdx, position;
      DescribedBound(descr, block, base, position);
      var found;
      found, descr, position := NextInBlock(block, descr, position, base);
      if found {
        FirstMember(bv.tree, was + 1, blockIdx, was + 1 - base, position - base);
        LeastAny(bv.Contents(), was + 1, position);
        return;
      }
      NoMembers(bv.tree, was + 1, blockIdx, was + 1 - base, BLOCK_BITS);
      InPresent(bv.tree, blockIdx);
      blockIdx := blockIdx + 1;
      SearchFrom(blockIdx / SUB_BLOCKS, blockIdx % SUB_BLOCKS, was + 1);
    }
  }

  lemma SubEntry(t: seq<SubArray>, effTop: nat, glen: seq<GapWord>, i: nat, j: nat)
    requires TreeOk(t, effTop, glen) && i < |t| && t[i].Present? && j < SUB_BLOCKS
    ensures j < |t[i].blks| && t[i].blks[j] == BlockAt(t, SUB_BLOCKS * i + j) && (SUB_BLOCKS * i + j) / SUB_BLOCKS == i
  {
  }

  lemma InPresent(t: seq<SubArray>, nb: nat)
    requires !BlockAt(t, nb).Null?
    ensures nb / SUB_BLOCKS < |t| && t[nb / SUB_BLOCKS].Present?
  {
  }

  /** All values an enumerator takes until it becomes invalid: the ones of the vector in increasing order. */
  method Enumerate(v: BVector) returns (list: seq<nat>)
    requires v.Valid()
    ensures forall i, j | 0 <= i < j < |list| :: list[i] < list[j]
    ensures forall n :: n in list <==> n in v.Contents()
  {
    hide TreeOk, Members, Describes;
    var e := new Enumerator(v);
    e.GoFirst();
    list := [];
    while e.position != ID_MAX
      invariant e.bv == v && e.Valid() && e.position <= ID_MAX
      invariant forall i, j | 0 <= i < j < |list| :: list[i] < list[j]
      invariant forall i | 0 <= i < |list| :: list[i] in v.Contents() && list[i] < e.position
      invariant forall n | n in v.Contents() && n < e.position :: n in list
      decreases ID_MAX - e.position
    {
      list := list + [e.position];
      e.GoUp();
    }
  }
}
