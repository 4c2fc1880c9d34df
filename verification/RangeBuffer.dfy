/**
 The small GAP buffer holding one range: gap_init_range_block.
 */
module RangeBuffer {
  import opened Gap
  import opened Blocks

  /** value on positions from..to, its complement elsewhere. */
  function InitRange(from: GapWord, to: GapWord, value: bool): (buf: seq<GapWord>)
    requires from <= to
  {
    if from == 0 then
      if to == LAST then [Header(value, 0, 1), LAST]
      else [Header(value, 0, 2), to, LAST]
    else if to == LAST then [Header(!value, 0, 2), from - 1, LAST]
    else [Header(!value, 0, 3), from - 1, to, LAST]
  }

  lemma InitRangeBits(from: GapWord, to: GapWord, value: bool)
    requires from <= to
    ensures var buf := InitRange(from, to, value);
            && WellFormed(GapBlk(buf))
            && forall p | 0 <= p <= LAST :: GapBits(buf)[p] == ((from <= p <= to) == value)
  {
    var buf := InitRange(from, to, value);
    var n := if from == 0 then (if to == LAST then 1 else 2) else (if to == LAST then 2 else 3);
    HeaderFields(buf, if from == 0 then value else !value, 0, n);
    var g := View(buf);
    assert g.ends == buf[1..n] + [LAST];
    assert Odd(1) && !Odd(2);
    forall p | 0 <= p <= LAST ensures BitAt(g, p) == ((from <= p <= to) == value) {
      BitOfRun(g, p, if p < from then 0 else if p <= to then (if from == 0 then 0 else 1) else n - 1);
    }
  }
}
