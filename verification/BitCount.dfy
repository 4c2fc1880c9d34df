/**
 Counting in bit blocks: bit_block_calc_count, bit_block_calc_count_range, bit_count_change32.
 */
module BitCount {
  import opened BitString
  import opened BitBlock

  /** The number of ones in a word (BM_INCWORD_BITCOUNT adds it). */
  function Pop(w: Word): nat {
    Count(w, 0, 32)
  }

  lemma {:induction false} CountOrAnd(v: Word, w: Word, n: nat)
    requires n <= 32
    ensures Count(Combine(Or, v, w), 0, n) + Count(Combine(And, v, w), 0, n) == Count(v, 0, n) + Count(w, 0, n)
  {
    if n > 0 {
      CountOrAnd(v, w, n - 1);
    }
  }

  /** One more word adds its population. */
  lemma CountWord(block: seq<bool>, lo: nat, q: nat)
    requires lo <= 32 * q && 32 * q + 32 <= |block|
    ensures Count(block, lo, 32 * q + 32) == Count(block, lo, 32 * q) + Pop(WordAt(block, q))
  {
    CountSplit(block, lo, 32 * q, 32 * q + 32);
    CountCopy(block, 32 * q, WordAt(block, q), 32);
  }

  /**
   Counts the ones of a block, collecting words with no bit in common in an accumulator that is
   counted only on a collision.
   */
  method CalcCount(block: seq<bool>) returns (count: nat)
    requires |block| >= 64 && WholeWords(|block|)
    ensures count == Count(block, 0, |block|)
  {
    hide Combine;
    count := 0;
    var acc := WordAt(block, 0);
    CountWord(block, 0, 0);
    for q := 1 to |block| / 32
      invariant count + Pop(acc) == Count(block, 0, 32 * q)
    {
      var w := WordAt(block, q);
      var common := Combine(And, acc, w);
      CountWord(block, 0, q);
      CountOrAnd(acc, w, 32);
      acc := Combine(Or, acc, w);
      if Uniform(common, false) {
        CountConstant(common, 0, 32, false);
      } else {
        count := count + Pop(acc);
        acc := common;
      }
    }
    count := count + Pop(acc);
  }

  /** w >> 1. */
  function ShiftRight(w: Word): Word
  {
    seq(32, i requires 0 <= i < 32 => i < 31 && w[i + 1])
  }

  lemma {:induction false} CountGray(w: Word, n: nat)
    requires n <= 31
    ensures Count(Combine(Xor, w, ShiftRight(w)), 0, n) == Changes(w, n + 1)
  {
    if n > 0 {
      CountGray(w, n - 1);
    }
  }

  /** The population of w ^ (w >> 1) is the number of changes in w plus the top bit of w. */
  lemma PopGray(w: Word)
    ensures Pop(Combine(Xor, w, ShiftRight(w))) == Changes(w, 32) + (if w[31] then 1 else 0)
  {
    CountGray(w, 31);
  }

  lemma UniformZero(w: Word)
    requires Uniform(w, false)
    ensures Pop(w) == 0 && Changes(w, 32) == 0 && !w[0] && !w[31]
  {
    CountConstant(w, 0, 32, false);
    ChangesConstant(w, 1, 32);
  }

  /** What word q adds to both counts, and what its two border bits and its Gray code say. */
  lemma ChangeStep(block: seq<bool>, q: nat)
    requires 32 * q + 32 <= |block|
    ensures var w := WordAt(block, q);
            && Count(block, 0, 32 * q + 32) == Count(block, 0, 32 * q) + Pop(w)
            && Changes(block, 32 * q + 32)
               == Changes(block, 32 * q) + (if q > 0 && w[0] != block[32 * q - 1] then 1 else 0) + Changes(w, 32)
            && Pop(Combine(Xor, w, ShiftRight(w))) == Changes(w, 32) + (if w[31] then 1 else 0)
            && (Uniform(w, false) ==> Pop(w) == 0 && Changes(w, 32) == 0 && !w[0] && !w[31])
            && w[31] == block[32 * q + 31]
  {
    var w := WordAt(block, q);
    CountWord(block, 0, q);
    ChangesAppend(block, 32 * q, w);
    PopGray(w);
    if Uniform(w, false) {
      UniformZero(w);
    }
  }

  /** Counts the ones and the runs of a block in one pass. */
  method CountChange(block: seq<bool>) returns (bitCount: nat, gapCount: int)
    requires |block| > 0 && WholeWords(|block|)
    ensures bitCount == Count(block, 0, |block|)
    ensures gapCount == RunCount(block)
  {
    hide Changes, Pop, Count, Combine, ShiftRight, Uniform, WordAt;
    NothingCounted(block, 0);
    var w := WordAt(block, 0);
    bitCount := Pop(w);
    gapCount := 1 + Pop(Combine(Xor, w, ShiftRight(w))) - (if w[31] then 1 else 0);
    var prev := w[31];
    ChangeStep(block, 0);
    for q := 1 to |block| / 32
      invariant prev == block[32 * q - 1]
      invariant bitCount == Count(block, 0, 32 * q) && gapCount == 1 + Changes(block, 32 * q)
    {
      w := WordAt(block, q);
      ChangeStep(block, q);
      gapCount := gapCount + 1;
      if Uniform(w, false) {
        gapCount := gapCount - (if !prev then 1 else 0);
        prev := false;
      } else {
        bitCount := bitCount + Pop(w);
        gapCount := gapCount + Pop(Combine(Xor, w, ShiftRight(w)));
        gapCount := gapCount - (if w[31] then 1 else 0);
        gapCount := gapCount - (if prev == w[0] then 1 else 0);
        prev := w[31];
      }
    }
  }

  /** Masking a word to the bits lo..hi-1 leaves those ones to count. */
  lemma {:induction false} CountMasked(w: Word, m: Word, lo: nat, hi: nat, n: nat)
    requires lo <= hi <= 32 && n <= 32 && forall i | 0 <= i < 32 :: m[i] == (lo <= i < hi)
    ensures Count(Combine(And, w, m), 0, n)
         == if n <= lo then 0 else Count(w, lo, if n <= hi then n else hi)
  {
    if n > 0 {
      CountMasked(w, m, lo, hi, n - 1);
    }
  }

  lemma PopMasked(block: seq<bool>, q: nat, m: Word, lo: nat, hi: nat)
    requires 32 * q + 32 <= |block| && lo < hi <= 32 && forall i | 0 <= i < 32 :: m[i] == (lo <= i < hi)
    ensures Pop(Combine(And, WordAt(block, q), m)) == Count(block, 32 * q + lo, 32 * q + hi)
  {
    var w := WordAt(block, q);
    assert forall i | 0 <= i < 32 :: block[32 * q + i] == w[i];
    hide WordAt, Combine;
    CountMasked(w, m, lo, hi, 32);
    CountSplit(w, 0, lo, hi);
    CountCopy(block, 32 * q, w, lo);
    CountCopy(block, 32 * q, w, hi);
    CountSplit(block, 32 * q, 32 * q + lo, 32 * q + hi);
  }

  /** The three masked counts of a range inside one word. */
  lemma PopRange(block: seq<bool>, q: nat, lo: nat, hi: nat)
    requires 32 * q + 32 <= |block| && lo < hi <= 32
    ensures var w := WordAt(block, q); var n := Count(block, 32 * q + lo, 32 * q + hi);
            && Pop(Combine(And, w, Combine(And, Right(lo), Left(hi - 1)))) == n
            && (hi == 32 ==> Pop(Combine(And, w, Right(lo))) == n)
            && (lo == 0 ==> Pop(Combine(And, w, Left(hi - 1))) == n)
            && (hi == lo + 1 ==> (if w[lo] then 1 else 0) == n)
  {
    PopMasked(block, q, Combine(And, Right(lo), Left(hi - 1)), lo, hi);
    if hi == 32 {
      PopMasked(block, q, Right(lo), lo, hi);
    }
    if lo == 0 {
      PopMasked(block, q, Left(hi - 1), lo, hi);
    }
  }

  /** Counts the ones in positions left..right, both included. */
  method CalcCountRange(block: seq<bool>, left: nat, right: nat) returns (count: nat)
    requires WholeWords(|block|) && left <= right < |block|
    ensures count == Count(block, left, right + 1)
  {
    hide Pop, Combine, WordAt, Right, Left, Count, WholeWords, WordIndex;
    NothingCounted(block, left);
    var nword := WordIndex(left);
    var nbit := left - 32 * nword;
    WordFits(|block|, nword);
    if left == right {
      PopRange(block, nword, nbit, nbit + 1);
      return if WordAt(block, nword)[nbit] then 1 else 0;
    }
    count := 0;
    var bitcount := right - left + 1;
    if nbit != 0 {
      var margin := nbit + (right - left);
      if margin < 32 {
        PopRange(block, nword, nbit, margin + 1);
        return Pop(Combine(And, WordAt(block, nword), Combine(And, Right(nbit), Left(margin))));
      }
      PopRange(block, nword, nbit, 32);
      count := Pop(Combine(And, WordAt(block, nword), Right(nbit)));
      bitcount := bitcount - (32 - nbit);
      nword := nword + 1;
    }
    while bitcount >= 32
      invariant 0 <= bitcount && left <= 32 * nword && 32 * nword + bitcount == right + 1
      invariant count == Count(block, left, 32 * nword)
    {
      WordFits(|block|, nword);
      CountWord(block, left, nword);
      count := count + Pop(WordAt(block, nword));
      nword, bitcount := nword + 1, bitcount - 32;
    }
    if bitcount != 0 {
      WordFits(|block|, nword);
      PopRange(block, nword, 0, bitcount);
      CountSplit(block, left, 32 * nword, right + 1);
      count := count + Pop(Combine(And, WordAt(block, nword), Left(bitcount - 1)));
    }
  }
}
