/**
 Lexicographic comparison of blocks, from bit 0 on: bitcmp, gapcmp and the mixed cases.
 */
module BlockCompare {
  import opened BitString
  import opened Gap
  import opened BitBlock
  import opened Blocks
  import Visitors

  /** Two's complement: bits up to the lowest one stay, the bits above it are complemented. */
  function Negate(w: Word): Word {
    seq(32, i requires 0 <= i < 32 => w[i] != (exists j | 0 <= j < i :: w[j]))
  }

  function Power2(n: nat): (r: nat)
    ensures r > 0
  {
    if n == 0 then 1 else 2 * Power2(n - 1)
  }

  /** The unsigned value of the low n bits. */
  function Value(w: seq<bool>, n: nat): nat
    requires n <= |w|
  {
    if n == 0 then 0 else Value(w, n - 1) + (if w[n - 1] then Power2(n - 1) else 0)
  }

  /** Negate is subtraction from 2^n on the low n bits. */
  lemma {:induction false} NegateIsMinus(w: Word, n: nat)
    requires n <= 32
    ensures Value(w, n) + Value(Negate(w), n) == if exists j | 0 <= j < n :: w[j] then Power2(n) else 0
  {
    if n > 0 {
      NegateIsMinus(w, n - 1);
      assert (exists j | 0 <= j < n :: w[j]) <==> w[n - 1] || exists j | 0 <= j < n - 1 :: w[j];
    }
  }

  /** diff & -diff isolates the lowest one. */
  lemma LowestOne(d: Word, k: nat)
    requires k < 32 && d[k] && forall j | 0 <= j < k :: !d[j]
    ensures forall i | 0 <= i < 32 :: Combine(And, d, Negate(d))[i] == (i == k)
  {
  }

  lemma FirstOne(d: Word) returns (k: nat)
    requires !Uniform(d, false)
    ensures k < 32 && d[k] && forall j | 0 <= j < k :: !d[j]
  {
    k := 0;
    while !d[k]
      invariant k < 32 && forall j | 0 <= j < k :: !d[j]
      decreases 32 - k
    {
      if k == 31 {
        assert Uniform(d, false);
      }
      k := k + 1;
    }
  }

  /** One word: 0 when equal, else whether the lowest differing bit is the first word's. */
  method WordCmp(w1: Word, w2: Word) returns (r: int)
    ensures r == Lex(w1, w2, 0)
  {
    var diff := Combine(Xor, w1, w2);
    assert forall i | 0 <= i < 32 :: w1[i] != w2[i] <==> diff[i];
    if Uniform(diff, false) {
      LexSkip(w1, w2, 0, 32);
      return 0;
    }
    ghost var k := FirstOne(diff);
    LowestOne(diff, k);
    LexSkip(w1, w2, 0, k);
    var low := Combine(And, w1, Combine(And, diff, Negate(diff)));
    r := if Uniform(low, false) then -1 else 1;
    assert low[k] == w1[k];
  }

  lemma LexWord(s: seq<bool>, t: seq<bool>, q: nat)
    requires |s| == |t| && 32 * q + 32 <= |s|
    ensures var r := Lex(WordAt(s, q), WordAt(t, q), 0);
            Lex(s, t, 32 * q) == if r != 0 then r else Lex(s, t, 32 * q + 32)
  {
    var v, w := WordAt(s, q), WordAt(t, q);
    LexMeaning(v, w, 0);
    if Lex(v, w, 0) == 0 {
      assert forall i | 32 * q <= i < 32 * q + 32 :: s[i] == v[i - 32 * q] && t[i] == w[i - 32 * q];
      LexSkip(s, t, 32 * q, 32 * q + 32);
    } else {
      var m :| 0 <= m < 32 && v[m] != w[m] && v[m] == (Lex(v, w, 0) == 1) && Agree(v, w, 0, m);
      assert forall i | 32 * q <= i < 32 * q + m :: s[i] == v[i - 32 * q] && t[i] == w[i - 32 * q];
      LexSkip(s, t, 32 * q, 32 * q + m);
    }
  }

  /** bitcmp. */
  method BitCmp(s: seq<bool>, t: seq<bool>) returns (r: int)
    requires |s| == |t| == BLOCK_BITS
    ensures r == Lex(s, t, 0)
  {
    hide Lex, WordAt;
    for q := 0 to BLOCK_WORDS
      invariant Lex(s, t, 0) == Lex(s, t, 32 * q)
    {
      r := WordCmp(WordAt(s, q), WordAt(t, q));
      LexWord(s, t, q);
      if r != 0 {
        return;
      }
    }
    LexEnd(s, t);
    r := 0;
  }

  lemma LexEnd(s: seq<bool>, t: seq<bool>)
    requires |s| == |t|
    ensures Lex(s, t, |s|) == 0
  {
  }

  /** Equal runs before run k, and run k ending earlier in g1: the next position decides. */
  lemma RunDiffers(g1: Runs, g2: Runs, k: nat)
    requires Canonical(g1) && Canonical(g2) && g1.start == g2.start && k < |g1.ends| && k < |g2.ends|
    requires (forall i | 0 <= i < k :: g1.ends[i] == g2.ends[i]) && g1.ends[k] < g2.ends[k]
    ensures Lex(Bits(g1), Bits(g2), 0) == if g1.start != Odd(k) then -1 else 1
    ensures Lex(Bits(g2), Bits(g1), 0) == if g1.start != Odd(k) then 1 else -1
  {
    hide Lex, Odd, RunOf;
    var e := g1.ends[k] as int + 1;
    SameBefore(g1, g2, k);
    LexSkip(Bits(g1), Bits(g2), 0, e);
    LexSkip(Bits(g2), Bits(g1), 0, e);
    BitOfRun(g1, e, k + 1);
    BitOfRun(g2, e, k);
    OddNext(k);
    LexHere(Bits(g1), Bits(g2), e);
  }

  lemma LexHere(s: seq<bool>, t: seq<bool>, e: nat)
    requires |s| == |t| && e < |s| && s[e] != t[e]
    ensures Lex(s, t, e) == (if s[e] then 1 else -1) && Lex(t, s, e) == (if t[e] then 1 else -1)
  {
  }

  lemma SameBefore(g1: Runs, g2: Runs, k: nat)
    requires Canonical(g1) && Canonical(g2) && g1.start == g2.start && k < |g1.ends| && k < |g2.ends|
    requires (forall i | 0 <= i < k :: g1.ends[i] == g2.ends[i]) && g1.ends[k] < g2.ends[k]
    ensures forall p: nat | p <= g1.ends[k] :: Bits(g1)[p] == Bits(g2)[p]
  {
    hide Odd;
    forall p: nat | p <= g1.ends[k] ensures Bits(g1)[p] == Bits(g2)[p] {
      BitOfRun(g2, p, RunOf(g1, p));
    }
  }

  lemma StartDiffers(g1: Runs, g2: Runs)
    requires Canonical(g1) && Canonical(g2) && g1.start != g2.start
    ensures Lex(Bits(g1), Bits(g2), 0) == if g1.start then 1 else -1
  {
    BitOfRun(g1, 0, 0);
    BitOfRun(g2, 0, 0);
  }

  lemma SameRuns(g1: Runs, g2: Runs)
    requires Canonical(g1) && Canonical(g2) && g1.start == g2.start && |g1.ends| <= |g2.ends|
    requires forall i | 0 <= i < |g1.ends| :: g1.ends[i] == g2.ends[i]
    ensures Lex(Bits(g1), Bits(g2), 0) == 0
  {
    assert g1.ends == g2.ends;
    LexMeaning(Bits(g1), Bits(g1), 0);
  }

  /** gapcmp. */
  method GapCmp(buf1: seq<GapWord>, buf2: seq<GapWord>) returns (r: int)
    requires Valid(buf1) && Valid(buf2)
    ensures r == Lex(GapBits(buf1), GapBits(buf2), 0)
  {
    hide Lex, Bits, GapBit, BitAt;
    ghost var g1, g2 := View(buf1), View(buf2);
    assert forall i | 1 <= i <= |g1.ends| :: buf1[i] == g1.ends[i - 1];
    assert forall i | 1 <= i <= |g2.ends| :: buf2[i] == g2.ends[i - 1];
    var bit1, bit2 := Start(buf1), Start(buf2);
    var k := 1;
    while k <= Length(buf1)
      invariant 1 <= k <= |g1.ends| + 1 && k <= |g2.ends| + 1 && (k <= |g1.ends| ==> k <= |g2.ends|)
      invariant forall i | 0 <= i < k - 1 :: g1.ends[i] == g2.ends[i]
      invariant bit1 == (g1.start != Odd(k - 1)) && bit2 == (g2.start != Odd(k - 1)) && (k > 1 ==> bit1 == bit2)
    {
      if bit1 != bit2 {
        StartDiffers(g1, g2);
        return if bit1 then 1 else -1;
      }
      if buf1[k] != buf2[k] {
        if buf1[k] < buf2[k] {
          RunDiffers(g1, g2, k - 1);
        } else {
          RunDiffers(g2, g1, k - 1);
        }
        return if bit1 then (if buf1[k] < buf2[k] then -1 else 1) else (if buf1[k] < buf2[k] then 1 else -1);
      }
      k, bit1, bit2 := k + 1, !bit1, !bit2;
    }
    SameRuns(g1, g2);
    r := 0;
  }

  /** Against a null block the other one decides: any one in it makes it greater. */
  lemma LexZeros(s: seq<bool>)
    requires |s| == BLOCK_BITS
    ensures Lex(Constant(false), s, 0) == if s == Constant(false) then 0 else -1
    ensures Lex(s, Constant(false), 0) == if s == Constant(false) then 0 else 1
  {
    LexMeaning(Constant(false), s, 0);
    LexMeaning(s, Constant(false), 0);
  }

  method HasNoOnes(b: Block) returns (r: bool)
    requires WellFormed(b) && !b.Null?
    ensures r <==> Content(b) == Constant(false)
  {
    if b.GapBlk? {
      AllSameBits(b.buf, false);
      r := AllSame(b.buf, false);
    } else {
      r := Visitors.AllWords(Memory(b), false);
    }
  }

  /** Two blocks of any kinds, compared the way bvector::compare does. */
  method CompareBlocks(blk: Block, arg: Block) returns (r: int)
    requires WellFormed(blk) && WellFormed(arg)
    ensures r == Lex(Content(blk), Content(arg), 0)
  {
    hide Lex, Constant, GapBits, Valid;
    if (blk.Null? && arg.Null?) || (blk.Full? && arg.Full?) {
      LexSame(Content(blk));
      return 0;
    }
    if blk.Null? || arg.Null? {
      LexZeros(Content(if blk.Null? then arg else blk));
      var none := HasNoOnes(if blk.Null? then arg else blk);
      return if none then 0 else if blk.Null? then -1 else 1;
    }
    if blk.GapBlk? && arg.GapBlk? {
      r := GapCmp(blk.buf, arg.buf);
    } else if blk.GapBlk? {
      var tmp := NewBitBlock(blk.buf);
      r := BitCmp(tmp.bits, Memory(arg));
    } else if arg.GapBlk? {
      var tmp := NewBitBlock(arg.buf);
      r := BitCmp(Memory(blk), tmp.bits);
    } else {
      r := BitCmp(Memory(blk), Memory(arg));
    }
  }

  lemma LexSame(s: seq<bool>)
    ensures Lex(s, s, 0) == 0
  {
    LexMeaning(s, s, 0);
  }
}
