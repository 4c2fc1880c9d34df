/**
 Plain bit blocks and the bit-range operations on them.

 The memory of a block is modelled as the string of its bits, a whole number of 32-bit words long:
 word q is the 32 bits from 32 * q on, lowest bit first.  The code works word by word, with masks.
 */
module BitBlock {
  import opened BitString

  /** A 32-bit word as the vector of its bits. */
  type Word = w: seq<bool> | |w| == 32 witness seq(32, _ => false)

  const BLOCK_WORDS := 2048
  const BLOCK_BITS := 65536

  /** A whole number of words. */
  predicate WholeWords(n: nat) {
    n % 32 == 0
  }

  /** The word holding bit p (p >> set_word_shift). */
  function WordIndex(p: nat): (q: nat)
    ensures 32 * q <= p < 32 * q + 32
  {
    p / 32
  }

  lemma WordFits(n: nat, q: nat)
    requires WholeWords(n) && 32 * q < n
    ensures 32 * q + 32 <= n
  {
  }

  function WordAt(block: seq<bool>, q: nat): Word
    requires 32 * q + 32 <= |block|
  {
    block[32 * q..32 * q + 32]
  }

  /** All 32 bits have value v: the words 0 and 0xffffffff. */
  predicate Uniform(w: Word, v: bool) {
    forall i | 0 <= i < 32 :: w[i] == v
  }

  /** The operation applied bit by bit: `|`, `&`, `^` or `& ~`. */
  function Combine(op: BoolOp, v: Word, w: Word): Word
  {
    seq(32, i requires 0 <= i < 32 => Apply(op, v[i], w[i]))
  }

  function Ones(): Word
  {
    seq(32, i => true)
  }

  /** block_set_table::_left[k]: bits 0..k. */
  function Left(k: nat): Word
  {
    seq(32, i => i <= k)
  }

  /** block_set_table::_right[k]: bits k..31. */
  function Right(k: nat): Word
  {
    seq(32, i => k <= i)
  }

  /** 1 << k. */
  function One(k: nat): Word
  {
    seq(32, i => i == k)
  }

  /** c is b with op applied to word q and mask. */
  ghost predicate WordApplied(op: BoolOp, b: seq<bool>, c: seq<bool>, q: nat, mask: Word) {
    && |c| == |b|
    && forall p | 0 <= p < |b| :: c[p] == if 32 * q <= p < 32 * q + 32 then Apply(op, b[p], mask[p - 32 * q]) else b[p]
  }

  /** `dest[q] op= mask` on one word. */
  method WordOp(op: BoolOp, dest: array<bool>, q: nat, mask: Word)
    requires 32 * q + 32 <= dest.Length
    modifies dest
    ensures WordApplied(op, old(dest[..]), dest[..], q, mask)
  {
    forall p | 32 * q <= p < 32 * q + 32 {
      dest[p] := Apply(op, dest[p], mask[p - 32 * q]);
    }
  }

  /** b is a with op applied to the bits lo..hi-1 and a run of ones. */
  ghost predicate RangeApplied(op: BoolOp, a: seq<bool>, b: seq<bool>, lo: int, hi: int) {
    && |b| == |a|
    && forall p | 0 <= p < |a| :: b[p] == if lo <= p < hi then Apply(op, a[p], true) else a[p]
  }

  /** A word mask of the bits mid..hi-1 continues a range ending at mid. */
  lemma ExtendRange(op: BoolOp, a: seq<bool>, b: seq<bool>, c: seq<bool>, lo: int, mid: int, hi: int, q: nat, mask: Word)
    requires op != And && RangeApplied(op, a, b, lo, mid) && WordApplied(op, b, c, q, mask)
    requires lo <= mid <= hi && 32 * q <= mid && hi <= 32 * q + 32
    requires forall i | 0 <= i < 32 :: mask[i] == (mid <= 32 * q + i < hi)
    ensures RangeApplied(op, a, c, lo, hi)
  {
  }

  lemma NoRange(op: BoolOp, a: seq<bool>, lo: int)
    ensures RangeApplied(op, a, a, lo, lo)
  {
  }

  /** One word of the range: bits mid..hi-1, which are those of the mask. */
  method RangeWord(op: BoolOp, dest: array<bool>, q: nat, mask: Word, ghost a: seq<bool>, ghost lo: int, ghost mid: int, ghost hi: int)
    requires op != And && 32 * q + 32 <= dest.Length && RangeApplied(op, a, dest[..], lo, mid)
    requires lo <= mid <= hi && 32 * q <= mid && hi <= 32 * q + 32
    requires forall i | 0 <= i < 32 :: mask[i] == (mid <= 32 * q + i < hi)
    modifies dest
    ensures RangeApplied(op, a, dest[..], lo, hi)
  {
    hide RangeApplied, WordApplied;
    ghost var b := dest[..];
    WordOp(op, dest, q, mask);
    ExtendRange(op, a, b, dest[..], lo, mid, hi, q, mask);
  }

  /**
   Sets, clears or flips bitcount bits from bitpos on (or_bit_block, sub_bit_block, xor_bit_block,
   which differ in the word operation only).
   */
  method RangeOp(op: BoolOp, dest: array<bool>, bitpos: nat, bitcount: nat)
    requires op != And && WholeWords(dest.Length)
    requires bitcount > 0 && bitpos + bitcount <= dest.Length
    modifies dest
    ensures RangeApplied(op, old(dest[..]), dest[..], bitpos, bitpos + bitcount)
  {
    hide WholeWords, WordIndex, RangeApplied;
    ghost var a := dest[..];
    NoRange(op, a, bitpos);
    var nword := WordIndex(bitpos);
    var nbit := bitpos - 32 * nword;
    WordFits(dest.Length, nword);
    if bitcount == 1 {
      RangeWord(op, dest, nword, One(nbit), a, bitpos, bitpos, bitpos + 1);
      return;
    }
    var count := bitcount;
    if nbit != 0 {
      var margin := nbit + count;
      if margin < 32 {
        RangeWord(op, dest, nword, Combine(And, Right(nbit), Left(margin - 1)), a, bitpos, bitpos, bitpos + bitcount);
        return;
      }
      RangeWord(op, dest, nword, Right(nbit), a, bitpos, bitpos, 32 * nword + 32);
      count := count - (32 - nbit);
      nword := nword + 1;
    }
    while count >= 32
      invariant 0 <= count && bitpos <= 32 * nword && 32 * nword + count == bitpos + bitcount
      invariant RangeApplied(op, a, dest[..], bitpos, 32 * nword)
    {
      WordFits(dest.Length, nword);
      RangeWord(op, dest, nword, Ones(), a, bitpos, 32 * nword, 32 * nword + 32);
      count, nword := count - 32, nword + 1;
    }
    if count != 0 {
      WordFits(dest.Length, nword);
      RangeWord(op, dest, nword, Left(count - 1), a, bitpos, 32 * nword, bitpos + bitcount);
    }
  }
}
