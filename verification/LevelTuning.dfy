/**
 Choosing a table of GAP capacities for the block lengths at hand: gap_overhead, improve_gap_levels.
 */
module LevelTuning {
  import opened Gap
  import opened Sequences
  import Blocks

  /** The first capacity of the table that a length fits with four words to spare, or -1. */
  function FirstFit(len: int, table: seq<GapWord>): (c: int)
    ensures c == -1 || (c in table && len + 4 <= c)
  {
    if table == [] then -1
    else
      var c := FirstFit(len, table[..|table| - 1]);
      if c != -1 then c else if len + 4 <= table[|table| - 1] then table[|table| - 1] else -1
  }

  /** gap_calc_level finds that capacity. */
  lemma LevelIsFirstFit(len: int, table: seq<GapWord>)
    requires |table| == 4
    ensures FirstFit(len, table) == var level := Blocks.CalcLevel(len, table); if level == -1 then -1 else table[level]
  {
    assert table[..3][..2] == table[..2] && table[..2][..1] == table[..1] && table[..1][..0] == [];
    assert FirstFit(len, table[..1]) == if len + 4 <= table[0] then table[0] else -1;
    var c2 := FirstFit(len, table[..2]);
    assert c2 == if len + 4 <= table[0] then table[0] else if len + 4 <= table[1] then table[1] else -1;
  }

  ghost predicate AllFit(lengths: seq<GapWord>, table: seq<GapWord>) {
    forall k | 0 <= k < |lengths| :: FirstFit(lengths[k], table) != -1
  }

  /** Unused words, every block having the first capacity it fits. */
  function Overhead(lengths: seq<GapWord>, n: nat, table: seq<GapWord>): (o: int)
    requires n <= |lengths|
  {
    if n == 0 then 0 else Overhead(lengths, n - 1, table) + (FirstFit(lengths[n - 1], table) - lengths[n - 1])
  }

  /** The capacities the lengths are given. */
  function Capacities(lengths: seq<GapWord>, table: seq<GapWord>): (c: seq<int>)
    requires |table| == 4
  {
    seq(|lengths|, k requires 0 <= k < |lengths| =>
      var level := Blocks.CalcLevel(lengths[k], table); if level == -1 then -1 else table[level] as int)
  }

  /** Capacities are lengths plus overhead, and the overhead is at least four words a block. */
  lemma {:induction false} OverheadMeaning(lengths: seq<GapWord>, n: nat, table: seq<GapWord>)
    requires |table| == 4 && AllFit(lengths, table) && n <= |lengths|
    ensures Overhead(lengths, n, table) + Total(lengths[..n]) == Total(Capacities(lengths, table)[..n])
    ensures Overhead(lengths, n, table) >= 4 * n
  {
    hide FirstFit, Blocks.CalcLevel;
    if n > 0 {
      OverheadMeaning(lengths, n - 1, table);
      TotalNext(lengths, n - 1);
      TotalNext(Capacities(lengths, table), n - 1);
      LevelIsFirstFit(lengths[n - 1], table);
    }
  }

  /** gap_overhead: what the capacities add up to beyond the lengths. */
  method GapOverhead(lengths: seq<GapWord>, table: seq<GapWord>) returns (o: int)
    requires |table| == 4 && AllFit(lengths, table)
    ensures o == Overhead(lengths, |lengths|, table)
    ensures o + Total(lengths) == Total(Capacities(lengths, table)) && o >= 4 * |lengths|
  {
    hide FirstFit, Blocks.CalcLevel;
    o := 0;
    for k := 0 to |lengths|
      invariant o == Overhead(lengths, k, table)
    {
      LevelIsFirstFit(lengths[k], table);
      var level := Blocks.CalcLevel(lengths[k], table);
      o := o + (table[level] as int - lengths[k]);
    }
    OverheadMeaning(lengths, |lengths|, table);
    assert lengths[..|lengths|] == lengths && Capacities(lengths, table)[..|lengths|] == Capacities(lengths, table);
  }

  /** The largest length. */
  method MaxLength(lengths: seq<GapWord>) returns (m: GapWord)
    ensures forall k | 0 <= k < |lengths| :: lengths[k] <= m
    ensures m == 0 || m in lengths
  {
    m := 0;
    for i := 0 to |lengths|
      invariant forall k | 0 <= k < i :: lengths[k] <= m
      invariant m == 0 || m in lengths
    {
      if lengths[i] > m {
        m := lengths[i];
      }
    }
  }

  /** A table whose last capacity is large enough for all holds them all. */
  lemma LastFits(lengths: seq<GapWord>, table: seq<GapWord>)
    requires |table| > 0 && forall k | 0 <= k < |lengths| :: lengths[k] as int + 4 <= table[|table| - 1]
    ensures AllFit(lengths, table)
  {
  }

  // ---------------------------------------------------------------- the search

  ghost predicate Roomy(lengths: seq<GapWord>) {
    forall k | 0 <= k < |lengths| :: lengths[k] as int + 4 <= 65535
  }

  /** The overhead with level i made to hold length j. */
  ghost function Tried(lengths: seq<GapWord>, table: seq<GapWord>, i: nat, j: nat): int
    requires Roomy(lengths) && i < |table| && j < |lengths|
  {
    Overhead(lengths, |lengths|, table[i := lengths[j] as int + 4])
  }

  /** Some length is not worse for level i than what the table has. */
  ghost predicate Gains(lengths: seq<GapWord>, table: seq<GapWord>, i: nat)
    requires Roomy(lengths) && i < |table|
  {
    exists j | 0 <= j < |lengths| :: Tried(lengths, table, i, j) <= Overhead(lengths, |lengths|, table)
  }

  /** Length j is the last of the best ones for level i. */
  ghost predicate LastBest(lengths: seq<GapWord>, table: seq<GapWord>, i: nat, j: nat)
    requires Roomy(lengths) && i < |table|
  {
    && j < |lengths|
    && (forall k | 0 <= k < |lengths| :: Tried(lengths, table, i, j) <= Tried(lengths, table, i, k))
    && (forall k | j < k < |lengths| :: Tried(lengths, table, i, j) < Tried(lengths, table, i, k))
  }

  /** What the search on level i makes of a table. */
  ghost predicate Searched(lengths: seq<GapWord>, table: seq<GapWord>, i: nat, table': seq<GapWord>)
    requires Roomy(lengths) && i < |table|
  {
    if Gains(lengths, table, i)
    then exists j: nat :: LastBest(lengths, table, i, j) && table' == table[i := lengths[j] as int + 4]
    else table' == table
  }

  /** The search on level i has come to length n. */
  ghost predicate Trying(lengths: seq<GapWord>, t0: seq<GapWord>, i: nat, n: nat, m: int, improved: bool, opt: GapWord, best: nat)
    requires Roomy(lengths) && i < |t0| && n <= |lengths|
  {
    && (forall k | 0 <= k < n :: m <= Tried(lengths, t0, i, k))
    && m <= Overhead(lengths, |lengths|, t0)
    && if improved
       then && best < n && opt == lengths[best] as int + 4 && m == Tried(lengths, t0, i, best)
            && forall k | best < k < n :: m < Tried(lengths, t0, i, k)
       else && m == Overhead(lengths, |lengths|, t0) && forall k | 0 <= k < n :: m < Tried(lengths, t0, i, k)
  }

  lemma TryingDone(lengths: seq<GapWord>, t0: seq<GapWord>, i: nat, m: int, improved: bool, opt: GapWord, best: nat)
    requires Roomy(lengths) && i < |t0| && Trying(lengths, t0, i, |lengths|, m, improved, opt, best)
    ensures improved <==> Gains(lengths, t0, i)
    ensures Searched(lengths, t0, i, if improved then t0[i := opt] else t0)
    ensures m == Overhead(lengths, |lengths|, if improved then t0[i := opt] else t0)
  {
    hide Overhead;
    if improved {
      assert LastBest(lengths, t0, i, best);
      assert Tried(lengths, t0, i, best) <= Overhead(lengths, |lengths|, t0);
    }
  }

  /** Tries every length for level i, keeping the last one that is not worse than the best so far. */
  method TryLevel(lengths: seq<GapWord>, table: array<GapWord>, i: nat, minOverhead: int) returns (m: int, improved: bool)
    requires table.Length == 4 && i < 3 && forall k | 0 <= k < |lengths| :: lengths[k] as int + 4 <= table[3]
    requires minOverhead == Overhead(lengths, |lengths|, table[..])
    modifies table
    ensures Searched(lengths, old(table[..]), i, table[..]) && (improved <==> Gains(lengths, old(table[..]), i))
    ensures forall k | 0 <= k < 4 && k != i :: table[k] == old(table[k])
    ensures m == Overhead(lengths, |lengths|, table[..]) <= minOverhead
    ensures forall j | 0 <= j < |lengths| :: m <= Tried(lengths, old(table[..]), i, j)
    ensures !improved ==> table[..] == old(table[..])
  {
    hide FirstFit, Overhead, Searched, Gains, Capacities;
    ghost var t0 := table[..];
    ghost var best: nat := 0;
    var saved := table[i];
    var opt: GapWord := 0;
    m, improved := minOverhead, false;
    for j := 0 to |lengths|
      invariant forall k | 0 <= k < 4 && k != i :: table[k] == t0[k]
      invariant Trying(lengths, t0, i, j, m, improved, opt, best)
    {
      table[i] := lengths[j] + 4;
      assert table[..] == t0[i := lengths[j] as int + 4];
      LastFits(lengths, table[..]);
      var ov := GapOverhead(lengths, table[..]);
      assert ov == Tried(lengths, t0, i, j);
      if ov <= m {
        m, opt, improved, best := ov, lengths[j] + 4, true, j;
      }
    }
    table[i] := if improved then opt else saved;
    TryingDone(lengths, t0, i, m, improved, opt, best);
    assert table[..] == if improved then t0[i := opt] else t0;
  }

  /** Levels 2 down to i have been searched, one after the other. */
  ghost predicate SearchedFrom(lengths: seq<GapWord>, start: seq<GapWord>, i: nat, table: seq<GapWord>, improved: bool)
    requires Roomy(lengths) && |start| == 4 && i <= 3
    decreases 3 - i
  {
    if i == 3 then table == start && !improved
    else exists mid: seq<GapWord> ::
           && |mid| == 4 && Searched(lengths, mid, i, table)
           && if Gains(lengths, mid, i)
              then improved && (SearchedFrom(lengths, start, i + 1, mid, true) || SearchedFrom(lengths, start, i + 1, mid, false))
              else SearchedFrom(lengths, start, i + 1, mid, improved)
  }

  // ---------------------------------------------------------------- tidying up

  /** Equal neighbours removed. */
  function Compact(s: seq<GapWord>): (r: seq<GapWord>)
    ensures |r| <= |s| && (|s| > 0 ==> |r| > 0 && r[|r| - 1] == s[|s| - 1])
  {
    if |s| <= 1 then s
    else if s[|s| - 1] == s[|s| - 2] then Compact(s[..|s| - 1])
    else Compact(s[..|s| - 1]) + [s[|s| - 1]]
  }

  /** Every element of s is found in r, in order, and r moves on by one element at a time. */
  ghost predicate Tracks(at: seq<nat>, s: seq<GapWord>, r: seq<GapWord>) {
    && |at| == |s| && (forall k | 0 <= k < |s| :: at[k] < |r| && r[at[k]] == s[k])
    && (forall k | 1 <= k < |s| :: at[k] == at[k - 1] || at[k] == at[k - 1] + 1)
    && if s == [] then r == [] else at[0] == 0 && at[|s| - 1] == |r| - 1
  }

  ghost predicate NoEqualNeighbours(r: seq<GapWord>) {
    forall k | 1 <= k < |r| :: r[k - 1] != r[k]
  }

  ghost predicate SameElements(s: seq<GapWord>, r: seq<GapWord>) {
    forall x :: x in s <==> x in r
  }

  /** r is s with every stretch of equal elements made one element. */
  ghost predicate CollapsesTo(s: seq<GapWord>, r: seq<GapWord>) {
    NoEqualNeighbours(r) && SameElements(s, r) && exists at: seq<nat> :: Tracks(at, s, r)
  }

  lemma CollapseShort(s: seq<GapWord>)
    requires |s| <= 1
    ensures CollapsesTo(s, s)
  {
    assert Tracks(seq(|s|, _ => 0), s, s);
  }

  lemma CollapseSame(t: seq<GapWord>, r: seq<GapWord>, x: GapWord)
    requires CollapsesTo(t, r) && |t| > 0 && x == t[|t| - 1]
    ensures CollapsesTo(t + [x], r)
  {
    var at: seq<nat> :| Tracks(at, t, r);
    assert Tracks(at + [|r| - 1], t + [x], r);
  }

  lemma CollapseNext(t: seq<GapWord>, r: seq<GapWord>, x: GapWord)
    requires CollapsesTo(t, r) && |t| > 0 && x != t[|t| - 1]
    ensures CollapsesTo(t + [x], r + [x])
  {
    var at: seq<nat> :| Tracks(at, t, r);
    assert Tracks(at + [|r|], t + [x], r + [x]);
  }

  lemma {:induction false} CompactCollapses(s: seq<GapWord>)
    ensures CollapsesTo(s, Compact(s))
  {
    hide CollapsesTo;
    if |s| <= 1 {
      CollapseShort(s);
    } else {
      var t, x := s[..|s| - 1], s[|s| - 1];
      CompactCollapses(t);
      assert s == t + [x];
      if x == t[|t| - 1] {
        CollapseSame(t, Compact(t), x);
      } else {
        CollapseNext(t, Compact(t), x);
      }
    }
  }

  /** First fit does not see the difference. */
  lemma {:induction false} FirstFitCompact(len: int, s: seq<GapWord>)
    ensures FirstFit(len, Compact(s)) == FirstFit(len, s)
  {
    if |s| > 1 {
      var t := s[..|s| - 1];
      FirstFitCompact(len, t);
      if s[|s| - 1] == s[|s| - 2] {
        assert t[|t| - 1] == s[|s| - 1];
      } else {
        var r := Compact(s);
        assert r[..|r| - 1] == Compact(t);
      }
    }
  }

  /** Nor does it get to capacities behind one that fits. */
  lemma {:induction false} FirstFitAppend(len: int, s: seq<GapWord>, t: seq<GapWord>)
    requires FirstFit(len, s) != -1
    ensures FirstFit(len, s + t) == FirstFit(len, s)
    decreases |t|
  {
    if |t| == 0 {
      assert s + t == s;
    } else {
      FirstFitAppend(len, s, t[..|t| - 1]);
      assert (s + t)[..|s + t| - 1] == s + t[..|t| - 1];
    }
  }

  lemma {:induction false} SameOverhead(lengths: seq<GapWord>, n: nat, s: seq<GapWord>, t: seq<GapWord>)
    requires n <= |lengths| && forall k | 0 <= k < n :: FirstFit(lengths[k], s) == FirstFit(lengths[k], t)
    ensures Overhead(lengths, n, s) == Overhead(lengths, n, t)
  {
    hide FirstFit;
    if n > 0 {
      SameOverhead(lengths, n - 1, s, t);
    }
  }

  /** Equal neighbours are removed and the end is filled up with the largest buffer length. */
  ghost predicate Tidied(s: seq<GapWord>, t: seq<GapWord>) {
    |t| == |s| && exists n: nat :: n <= |t| && CollapsesTo(s, t[..n]) && t[..n] == Compact(s) && Filled(t, n)
  }

  ghost predicate Filled(t: seq<GapWord>, n: nat) {
    forall k | n <= k < |t| :: t[k] == Blocks.MAX_BUFF_LEN
  }

  lemma TidiedSame(lengths: seq<GapWord>, s: seq<GapWord>, t: seq<GapWord>)
    requires AllFit(lengths, s) && Tidied(s, t)
    ensures AllFit(lengths, t) && Overhead(lengths, |lengths|, t) == Overhead(lengths, |lengths|, s)
  {
    var n: nat :| n <= |t| && CollapsesTo(s, t[..n]) && t[..n] == Compact(s) && Filled(t, n);
    assert t == Compact(s) + t[n..];
    forall k | 0 <= k < |lengths| ensures FirstFit(lengths[k], t) == FirstFit(lengths[k], s) != -1 {
      assert FirstFit(lengths[k], s) != -1;
      FirstFitCompact(lengths[k], s);
      FirstFitAppend(lengths[k], Compact(s), t[n..]);
    }
    SameOverhead(lengths, |lengths|, t, s);
  }

  lemma CompactStep(s: seq<GapWord>, i: nat)
    requires i < |s|
    ensures Compact(s[..i + 1]) == if i > 0 && s[i] == s[i - 1] then Compact(s[..i]) else Compact(s[..i]) + [s[i]]
  {
    assert s[..i + 1][..i] == s[..i];
  }

  /** The two last loops of improve_gap_levels, in place. */
  method Tidy(table: array<GapWord>)
    requires table.Length == 4
    modifies table
    ensures Tidied(old(table[..]), table[..])
  {
    hide Compact, Tidied;
    ghost var s := table[..];
    var val, res := table[0], 0;
    CompactStep(s, 0);
    assert s[..0] == [] && table[..1] == Compact(s[..1]) by {
      EmptyCompact();
    }
    for i := 0 to 4
      invariant 0 <= res <= i && res < 4 && (i > 0 ==> res < i) && val == table[res] == s[if i == 0 then 0 else i - 1]
      invariant forall k | i <= k < 4 :: table[k] == s[k]
      invariant table[..res + 1] == Compact(s[..if i == 0 then 1 else i])
    {
      CompactStep(s, i);
      ghost var before := table[..res + 1];
      if val != table[i] {
        val := table[i];
        res := res + 1;
        table[res] := val;
        assert table[..res + 1] == before + [val];
      }
    }
    assert s[..4] == s;
    Fill(table, res + 1, s);
  }

  lemma EmptyCompact()
    ensures Compact([]) == []
  {
  }

  method Fill(table: array<GapWord>, from: nat, ghost s: seq<GapWord>)
    requires from <= table.Length == |s| && table[..from] == Compact(s)
    modifies table
    ensures Tidied(s, table[..])
  {
    for k := from to table.Length
      invariant table[..from] == Compact(s)
      invariant forall i | from <= i < k :: table[i] == Blocks.MAX_BUFF_LEN
    {
      table[k] := Blocks.MAX_BUFF_LEN;
    }
    CompactCollapses(s);
    assert table[..][..from] == table[..from];
    assert Filled(table[..], from);
  }

  /** The largest length, 0 for no lengths. */
  ghost predicate Largest(lengths: seq<GapWord>, m: GapWord) {
    (m == 0 || m in lengths) && forall k | 0 <= k < |lengths| :: lengths[k] <= m
  }

  lemma LargestUnique(lengths: seq<GapWord>, m: GapWord)
    requires Largest(lengths, m)
    ensures forall max: GapWord | Largest(lengths, max) :: max == m
  {
  }

  /** The outcome of improve_gap_levels, table being the one it was given and max the largest length. */
  ghost predicate Improves(lengths: seq<GapWord>, max: GapWord, table: seq<GapWord>, table': seq<GapWord>, improved: bool)
    requires Roomy(lengths) && |table| == 4 && max <= 65530
  {
    if max < 5 || |lengths| <= 4 then
      improved && table' == [max + 4, Blocks.MAX_BUFF_LEN, Blocks.MAX_BUFF_LEN, Blocks.MAX_BUFF_LEN]
    else
      var start := table[3 := max + 5];
      && (exists found: seq<GapWord> :: SearchedFrom(lengths, start, 0, found, improved) && Tidied(found, table'))
      && Overhead(lengths, |lengths|, table') <= Overhead(lengths, |lengths|, start)
      && (forall j | 0 <= j < |lengths| :: Overhead(lengths, |lengths|, table') <= Tried(lengths, start, 2, j))
      && (!improved ==> Tidied(start, table'))
  }

  /**
   improve_gap_levels.  Every length fits the new table.  With more than four blocks, one of at least five words,
   it is the tidied outcome of searching the levels in turn, and its overhead is not above that of the old table
   with the last capacity made sufficient.
   */
  method ImproveGapLevels(lengths: seq<GapWord>, table: array<GapWord>) returns (improved: bool)
    requires table.Length == 4 && forall k | 0 <= k < |lengths| :: lengths[k] <= 65530
    modifies table
    ensures AllFit(lengths, table[..])
    ensures forall max: GapWord | Largest(lengths, max) :: max <= 65530 && Improves(lengths, max, old(table[..]), table[..], improved)
  {
    hide FirstFit, Overhead, Tidied, SearchedFrom, Searched, Gains, Tried;
    var maxLen := MaxLength(lengths);
    LargestUnique(lengths, maxLen);
    if maxLen < 5 || |lengths| <= 4 {
      table[0] := maxLen + 4;
      for i := 1 to 4
        invariant table[0] == maxLen + 4 && forall k | 1 <= k < i :: table[k] == Blocks.MAX_BUFF_LEN
      {
        table[i] := Blocks.MAX_BUFF_LEN;
      }
      FirstLevelFits(lengths, table[..]);
      improved := true;
      return;
    }
    table[3] := maxLen + 5;
    ghost var start := table[..];
    assert start == old(table[..])[3 := maxLen + 5];
    improved := SearchLevels(lengths, table);
    LastFits(lengths, table[..]);
    ghost var found := table[..];
    Tidy(table);
    TidiedSame(lengths, found, table[..]);
  }

  /** Searches levels 2, 1 and 0. */
  method SearchLevels(lengths: seq<GapWord>, table: array<GapWord>) returns (improved: bool)
    requires table.Length == 4 && Roomy(lengths) && forall k | 0 <= k < |lengths| :: lengths[k] as int + 4 <= table[3]
    modifies table
    ensures table[3] == old(table[3]) && SearchedFrom(lengths, old(table[..]), 0, table[..], improved)
    ensures Overhead(lengths, |lengths|, table[..]) <= Overhead(lengths, |lengths|, old(table[..]))
    ensures forall j | 0 <= j < |lengths| :: Overhead(lengths, |lengths|, table[..]) <= Tried(lengths, old(table[..]), 2, j)
    ensures !improved ==> table[..] == old(table[..])
  {
    hide FirstFit, Overhead, SearchedFrom, Searched, Gains, Tried, Capacities;
    ghost var start := table[..];
    LastFits(lengths, table[..]);
    var m := GapOverhead(lengths, table[..]);
    improved := false;
    SearchStart(lengths, start);
    for i := 3 downto 0
      invariant table[3] == start[3] && SearchedFrom(lengths, start, i, table[..], improved)
      invariant m == Overhead(lengths, |lengths|, table[..]) <= Overhead(lengths, |lengths|, start)
      invariant i < 3 ==> forall j | 0 <= j < |lengths| :: m <= Tried(lengths, start, 2, j)
      invariant (i == 3 || !improved) ==> table[..] == start
    {
      var imp;
      ghost var mid, was := table[..], improved;
      m, imp := TryLevel(lengths, table, i, m);
      improved := improved || imp;
      SearchStep(lengths, start, i, mid, was, table[..], imp);
    }
  }

  lemma SearchStart(lengths: seq<GapWord>, start: seq<GapWord>)
    requires Roomy(lengths) && |start| == 4
    ensures SearchedFrom(lengths, start, 3, start, false)
  {
  }

  lemma SearchStep(lengths: seq<GapWord>, start: seq<GapWord>, i: nat, mid: seq<GapWord>, was: bool, table: seq<GapWord>, imp: bool)
    requires Roomy(lengths) && |start| == |mid| == 4 && i < 3 && SearchedFrom(lengths, start, i + 1, mid, was)
    requires Searched(lengths, mid, i, table) && (imp <==> Gains(lengths, mid, i))
    ensures SearchedFrom(lengths, start, i, table, was || imp)
  {
  }

  lemma FirstLevelFits(lengths: seq<GapWord>, table: seq<GapWord>)
    requires |table| == 4 && forall k | 0 <= k < |lengths| :: lengths[k] as int + 4 <= table[0]
    ensures AllFit(lengths, table)
  {
    forall k | 0 <= k < |lengths| ensures FirstFit(lengths[k], table) != -1 {
      LevelIsFirstFit(lengths[k], table);
    }
  }
}
