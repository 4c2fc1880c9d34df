/**
 Reading and editing one bit of a GAP buffer in place: gap_bfind, gap_test, gap_set_value.
 */
module GapEdit {
  import opened Gap
  import opened GapRuns

  /** Binary search for the run holding pos, with the value of that run (gap_bfind). */
  method FindRun(buf: seq<GapWord>, pos: nat) returns (k: nat, isSet: bool)
    requires Valid(buf) && pos <= LAST
    ensures 1 <= k <= Length(buf) && k == RunOf(View(buf), pos) + 1
    ensures pos <= buf[k] && (k == 1 || buf[k - 1] < pos)
    ensures isSet == GapBit(buf, pos)
  {
    ghost var g := View(buf);
    var start, end := 1, 1 + Length(buf);
    while start != end
      invariant 1 <= start <= end <= 1 + |g.ends|
      invariant forall i | 0 <= i < start - 1 :: g.ends[i] < pos
      invariant forall i | end - 1 <= i < |g.ends| :: pos <= g.ends[i]
      decreases end - start
    {
      var curr := (start + end) / 2;
      assert buf[curr] == g.ends[curr - 1];
      if buf[curr] < pos {
        start := curr + 1;
      } else {
        end := curr;
      }
    }
    k := start;
    OddMod(start - 1);
    isSet := Start(buf) != ((start - 1) % 2 == 1);
    BitOfRun(g, pos, k - 1);
  }

  /** Tests one bit (gap_test): short buffers are scanned run by run, longer ones searched. */
  method Test(buf: seq<GapWord>, pos: nat) returns (isSet: bool)
    requires Valid(buf) && pos <= LAST
    ensures isSet == GapBit(buf, pos)
  {
    if Length(buf) < 10 {
      ghost var g := View(buf);
      isSet := Start(buf);
      var k := 1;
      while buf[k] < pos
        invariant 1 <= k <= Length(buf) && isSet == (g.start != Odd(k - 1))
        invariant k == 1 || buf[k - 1] < pos
        decreases Length(buf) - k
      {
        k := k + 1;
        isSet := !isSet;
      }
      assert g.ends[k - 1] == buf[k] && (k > 1 ==> g.ends[k - 2] == buf[k - 1]);
      BitOfRun(g, pos, k - 1);
    } else {
      var k;
      k, isSet := FindRun(buf, pos);
    }
  }

  /** t is s with bit pos flipped and no other. */
  ghost predicate Flips(s: Runs, t: Runs, pos: nat)
    requires Shaped(s) && Shaped(t)
  {
    forall p | 0 <= p <= LAST :: BitAt(t, p) == (BitAt(s, p) != (p == pos))
  }

  /** Bit 0 gets a run of its own in front. */
  lemma FlipFirstInsert(s: Runs, t: Runs)
    requires Canonical(s) && s.ends[0] > 0
    requires t == Runs(!s.start, [0] + s.ends)
    ensures Canonical(t) && Flips(s, t, 0)
  {
    forall p | 0 <= p <= LAST ensures BitAt(t, p) == (BitAt(s, p) != (p == 0)) {
      BitOfRun(t, p, if p == 0 then 0 else RunOf(s, p) + 1);
    }
  }

  /** Bit 0 was a run of its own and joins the next one. */
  lemma FlipFirstDelete(s: Runs, t: Runs)
    requires Canonical(s) && s.ends[0] == 0
    requires t == Runs(!s.start, s.ends[1..])
    ensures Canonical(t) && Flips(s, t, 0)
  {
    assert s.ends == [0] + t.ends;
    FlipFirstInsert(t, s);
  }

  /** The end of run k goes from pos - 1 to pos. */
  lemma FlipEndRight(s: Runs, t: Runs, pos: nat, k: nat)
    requires Canonical(s) && k + 1 < |s.ends| && s.ends[k] + 1 == pos < s.ends[k + 1]
    requires t == Runs(s.start, s.ends[k := pos])
    ensures Canonical(t) && Flips(s, t, pos)
  {
    AdjacentCanonical(t);
    forall p | 0 <= p <= LAST ensures BitAt(t, p) == (BitAt(s, p) != (p == pos)) {
      BitOfRun(t, p, if p == pos then k else RunOf(s, p));
    }
  }

  /** The end of run k goes from pos to pos - 1. */
  lemma FlipEndLeft(s: Runs, t: Runs, pos: nat, k: nat)
    requires Canonical(s) && k + 1 < |s.ends| && s.ends[k] == pos > 0 && (k == 0 || s.ends[k - 1] + 1 < pos)
    requires t == Runs(s.start, s.ends[k := pos - 1])
    ensures Canonical(t) && Flips(s, t, pos)
  {
    AdjacentCanonical(t);
    assert s.ends == t.ends[k := pos];
    FlipEndRight(t, s, pos, k);
  }

  /** Position 65535 leaves the last run and gets a run of its own. */
  lemma FlipLastInsert(s: Runs, t: Runs)
    requires Canonical(s) && (|s.ends| == 1 || s.ends[|s.ends| - 2] + 1 < LAST)
    requires t == Runs(s.start, s.ends[..|s.ends| - 1] + [LAST - 1, LAST])
    ensures Canonical(t) && Flips(s, t, LAST)
  {
    AdjacentCanonical(t);
    assert s.ends == t.ends[..|t.ends| - 2] + [LAST];
    FlipLastDelete(t, s);
  }

  /** Position 65535 was a run of its own and joins the run before it. */
  lemma FlipLastDelete(s: Runs, t: Runs)
    requires Canonical(s) && |s.ends| > 1 && s.ends[|s.ends| - 2] + 1 == LAST
    requires t == Runs(s.start, s.ends[..|s.ends| - 2] + [LAST])
    ensures Canonical(t) && Flips(s, t, LAST)
  {
    forall p | 0 <= p <= LAST ensures BitAt(t, p) == (BitAt(s, p) != (p == LAST)) {
      BitOfRun(t, p, if p == LAST then |s.ends| - 2 else RunOf(s, p));
    }
  }

  /** t is s with run k cut in three around pos. */
  ghost predicate Split(s: Runs, t: Runs, pos: nat, k: nat) {
    && k < |s.ends| && 0 < pos < s.ends[k] && (k == 0 || s.ends[k - 1] + 1 < pos)
    && t.start == s.start && |t.ends| == |s.ends| + 2
    && (forall i | 0 <= i < k :: t.ends[i] == s.ends[i])
    && t.ends[k] == pos - 1 && t.ends[k + 1] == pos
    && (forall i | k + 2 <= i < |t.ends| :: t.ends[i] == s.ends[i - 2])
  }

  lemma FlipSplitAt(s: Runs, t: Runs, pos: nat, k: nat, p: nat)
    requires Canonical(s) && Split(s, t, pos, k) && Canonical(t) && p <= LAST
    ensures BitAt(t, p) == (BitAt(s, p) != (p == pos))
  {
    var r := RunOf(s, p);
    BitOfRun(t, p, if r < k || (r == k && p < pos) then r else if p == pos then k + 1 else r + 2);
  }

  lemma FlipSplit(s: Runs, t: Runs, pos: nat, k: nat)
    requires Canonical(s) && Split(s, t, pos, k)
    ensures Canonical(t) && Flips(s, t, pos)
  {
    AdjacentCanonical(t);
    forall p | 0 <= p <= LAST ensures BitAt(t, p) == (BitAt(s, p) != (p == pos)) {
      FlipSplitAt(s, t, pos, k, p);
    }
  }

  /** The one-bit run around pos disappears and its neighbours become one run: a split undone. */
  lemma FlipMerge(s: Runs, t: Runs, pos: nat, k: nat)
    requires Canonical(s) && Split(t, s, pos, k)
    ensures Canonical(t) && Flips(s, t, pos)
  {
    forall i | 1 <= i < |t.ends| ensures t.ends[i - 1] < t.ends[i] {
      assert t.ends[i] == s.ends[if i < k then i else i + 2];
      assert t.ends[i - 1] == s.ends[if i - 1 < k then i - 1 else i + 1];
    }
    AdjacentCanonical(t);
    FlipSplit(t, s, pos, k);
  }

  /** Runs ending at body's words and then at 65535, with bit pos of s flipped. */
  ghost predicate Flipped(s: Runs, body: seq<GapWord>, pos: nat)
    requires Canonical(s)
  {
    var t := Runs(s.start != (pos == 0), body + [LAST]);
    |t.ends| <= |s.ends| + 2 && Canonical(t) && Flips(s, t, pos)
  }

  /** b, after closing up run ends curr - 1 and curr of a, holds the merged runs. */
  lemma MergedWords(a: seq<GapWord>, b: seq<GapWord>, pos: nat, curr: nat)
    requires Valid(a) && 1 < curr < Length(a) && a[curr - 1] == pos - 1 && a[curr] == pos
    requires |b| == |a| && forall i | 1 <= i < curr - 1 :: b[i] == a[i]
    requires forall i | curr - 1 <= i < Length(a) - 2 :: b[i] == a[i + 2]
    ensures Flipped(View(a), b[1..Length(a) - 2], pos)
  {
    var s := View(a);
    var t := Runs(s.start, b[1..Length(a) - 2] + [LAST]);
    assert forall i | 0 <= i < |s.ends| :: s.ends[i] == a[i + 1];
    assert forall i | 0 <= i < |t.ends| - 1 :: t.ends[i] == b[i + 1];
    assert s.ends[curr - 2] == pos - 1 && s.ends[curr - 1] == pos < s.ends[curr];
    assert curr == 2 || s.ends[curr - 3] < s.ends[curr - 2];
    assert Split(t, s, pos, curr - 2);
    FlipMerge(s, t, pos, curr - 2);
  }

  /** b, after opening up two words in run curr of a, holds the split runs. */
  lemma SplitWords(a: seq<GapWord>, b: seq<GapWord>, pos: nat, curr: nat)
    requires Valid(a) && 1 <= curr <= Length(a) && 0 < pos < a[curr] && (curr == 1 || a[curr - 1] + 1 < pos)
    requires |b| == |a| && Length(a) + 2 < |a| && b[curr] == pos - 1 && b[curr + 1] == pos
    requires forall i | 1 <= i < curr :: b[i] == a[i]
    requires forall i | curr + 2 <= i <= Length(a) + 1 :: b[i] == a[i - 2]
    ensures Flipped(View(a), b[1..Length(a) + 2], pos)
  {
    var s := View(a);
    var t := Runs(s.start, b[1..Length(a) + 2] + [LAST]);
    assert Split(s, t, pos, curr - 1);
    FlipSplit(s, t, pos, curr - 1);
  }

  /** The do-while copy closing up the words from src on down to dst; it always copies once. */
  method CloseUp(buf: array<GapWord>, dst0: nat, src0: nat, end: nat)
    requires 1 <= dst0 < src0 <= end < buf.Length
    modifies buf
    ensures forall i | 0 <= i < dst0 :: buf[i] == old(buf[i])
    ensures forall i | dst0 <= i && i + (src0 - dst0) < end :: buf[i] == old(buf[i + (src0 - dst0)])
  {
    var dst, src := dst0, src0;
    buf[dst] := buf[src];
    dst, src := dst + 1, src + 1;
    while src < end
      invariant dst0 < dst && src - dst == src0 - dst0 && (src <= end || src == src0 + 1)
      invariant forall i | 0 <= i < dst0 :: buf[i] == old(buf[i])
      invariant forall i | dst0 <= i < dst && i + (src0 - dst0) < end :: buf[i] == old(buf[i + (src0 - dst0)])
      invariant forall i | dst <= i < buf.Length :: buf[i] == old(buf[i])
    {
      buf[dst] := buf[src];
      dst, src := dst + 1, src + 1;
    }
  }

  /** The run ends are the words after the header, the last of them 65535. */
  lemma RunEnds(a: seq<GapWord>)
    requires Valid(a)
    ensures var s := View(a);
            && |s.ends| == Length(a) >= 1 && s.ends[|s.ends| - 1] == LAST && a[Length(a)] == LAST
            && (forall i | 0 <= i < |s.ends| :: s.ends[i] == a[i + 1]) && (forall i | 1 <= i < Length(a) :: a[i] < LAST)
  {
  }

  /** b has the ends of a one word further up, behind a first run of one bit. */
  lemma FirstInsertedWords(a: seq<GapWord>, b: seq<GapWord>)
    requires Valid(a) && a[1] != 0 && |b| == |a| && Length(a) + 1 < |a| && b[1] == 0
    requires forall i | 1 <= i < Length(a) :: b[i + 1] == a[i]
    ensures Flipped(View(a), b[1..Length(a) + 1], 0)
  {
    hide Canonical, BitAt, Flips;
    RunEnds(a);
    var s := View(a);
    assert b[1..Length(a) + 1] + [LAST] == [0] + s.ends;
    FlipFirstInsert(s, Runs(!s.start, b[1..Length(a) + 1] + [LAST]));
  }

  /** b has the ends of a without the first, which was 0. */
  lemma FirstDeletedWords(a: seq<GapWord>, b: seq<GapWord>)
    requires Valid(a) && a[1] == 0 && |b| == |a|
    requires forall i | 1 <= i < Length(a) - 1 :: b[i] == a[i + 1]
    ensures Length(a) > 1 && Flipped(View(a), b[1..Length(a) - 1], 0)
  {
    hide Canonical, BitAt, Flips;
    RunEnds(a);
    var s := View(a);
    assert s.ends[0] == a[1];
    assert b[1..Length(a) - 1] + [LAST] == s.ends[1..];
    FlipFirstDelete(s, Runs(!s.start, b[1..Length(a) - 1] + [LAST]));
  }

  /** The end before run curr moved up to pos; with pos being 65535 the last run is gone. */
  lemma LeftBorderWords(a: seq<GapWord>, pos: nat, curr: nat)
    requires Valid(a) && 1 < curr <= Length(a) && a[curr - 1] as int + 1 == pos <= a[curr] && (pos == a[curr] ==> curr == Length(a))
    ensures Flipped(View(a), a[curr - 1 := pos][1..if pos == a[curr] then Length(a) - 1 else Length(a)], pos)
  {
    hide Canonical, BitAt, Flips;
    RunEnds(a);
    var s := View(a);
    if pos == a[curr] {
      var body := a[curr - 1 := pos][1..Length(a) - 1];
      assert body + [LAST] == s.ends[..curr - 2] + [LAST];
      FlipLastDelete(s, Runs(s.start, body + [LAST]));
    } else {
      var body := a[curr - 1 := pos][1..Length(a)];
      assert body + [LAST] == s.ends[curr - 2 := pos];
      FlipEndRight(s, Runs(s.start, body + [LAST]), pos, curr - 2);
    }
  }

  /** The end of run curr moved down from pos; with pos being 65535 a last run is added. */
  lemma RightBorderWords(a: seq<GapWord>, pos: nat, curr: nat)
    requires Valid(a) && 1 <= curr <= Length(a) && a[curr] == pos > 0 && (curr == Length(a) ==> Length(a) + 1 < |a|)
    requires curr > 1 ==> a[curr - 1] as int + 1 < pos
    ensures Flipped(View(a), a[curr := pos - 1][1..if curr == Length(a) then Length(a) + 1 else Length(a)], pos)
  {
    hide Canonical, BitAt, Flips;
    RunEnds(a);
    var s := View(a);
    if curr == Length(a) {
      var body := a[curr := pos - 1][1..Length(a) + 1];
      assert body + [LAST] == s.ends[..curr - 1] + [LAST - 1, LAST];
      FlipLastInsert(s, Runs(s.start, body + [LAST]));
    } else {
      var body := a[curr := pos - 1][1..Length(a)];
      assert body + [LAST] == s.ends[curr - 1 := pos - 1];
      FlipEndLeft(s, Runs(s.start, body + [LAST]), pos, curr - 1);
    }
  }

  /** What the words around run curr say about pos in it. */
  lemma AroundRun(a: seq<GapWord>, pos: nat, curr: nat)
    requires Valid(a) && 1 <= curr && Holds(View(a), curr - 1, pos)
    ensures curr <= Length(a) < |a| && a[1] <= LAST && pos <= a[curr]
    ensures curr > 1 ==> a[curr - 1] < pos
    ensures a[curr] == LAST ==> curr == Length(a)
    ensures curr == Length(a) ==> a[curr] == LAST
  {
    var s := View(a);
    assert a[curr] == s.ends[curr - 1] && a[Length(a)] == s.ends[Length(a) - 1];
  }

  /** Rewrites the run ends for a flip of bit 0; the last end is left to the caller. */
  method FlipFirst(buf: array<GapWord>) returns (end: nat)
    requires Valid(buf[..]) && (buf.Length > 1 && buf[1] != 0 ==> Length(buf[..]) + 1 < buf.Length)
    modifies buf
    ensures 1 <= end < buf.Length && end <= old(Length(buf[..])) + 2 && buf[0] == old(buf[0])
    ensures Flipped(old(View(buf[..])), buf[1..end], 0)
  {
    hide Canonical, Flipped;
    ghost var a := buf[..];
    BeyondFirst(a);
    end := buf[0] / 8;
    if buf[1] != 0 {
      forall i | 1 <= i < end { buf[i + 1] := buf[i]; }
      buf[1] := 0;
      end := end + 1;
      FirstInsertedWords(a, buf[..]);
    } else {
      CloseUp(buf, 1, 2, end);
      end := end - 1;
      FirstDeletedWords(a, buf[..]);
    }
    assert buf[1..end] == buf[..][1..end];
  }

  lemma BeyondFirst(a: seq<GapWord>)
    requires Valid(a)
    ensures 1 <= Length(a) < |a| && (a[1] == 0 ==> Length(a) > 1)
  {
    assert a[1] == View(a).ends[0];
  }

  /** Moves the end of the run before pos to pos, or merges when that run's neighbour is [pos, pos]. */
  method FlipLeftBorder(buf: array<GapWord>, pos: nat, curr: nat) returns (end: nat)
    requires Valid(buf[..]) && 1 < curr && Holds(View(buf[..]), curr - 1, pos) && buf[curr - 1] + 1 == pos
    modifies buf
    ensures 1 <= end < buf.Length && end <= old(Length(buf[..])) + 2 && buf[0] == old(buf[0])
    ensures Flipped(old(View(buf[..])), buf[1..end], pos)
  {
    hide Canonical, Flipped, Holds;
    ghost var a := buf[..];
    AroundRun(a, pos, curr);
    end := buf[0] / 8;
    buf[curr - 1] := pos;
    if buf[curr - 1] == buf[curr] && curr != end {
      CloseUp(buf, curr - 1, curr + 1, end);
      end := end - 2;
      MergedWords(a, buf[..], pos, curr);
    } else {
      LeftBorderWords(a, pos, curr);
      if buf[curr - 1] == buf[curr] {
        end := end - 1;
      }
      assert buf[..] == a[curr - 1 := pos as GapWord];
    }
    assert buf[1..end] == buf[..][1..end];
  }

  /** Moves the end of the run of pos, which is pos itself, one to the left. */
  method FlipRightBorder(buf: array<GapWord>, pos: nat, curr: nat) returns (end: nat)
    requires Valid(buf[..]) && (curr == Length(buf[..]) ==> curr + 1 < buf.Length)
    requires 0 < pos && 1 <= curr && Holds(View(buf[..]), curr - 1, pos)
    requires buf[curr] == pos && !(curr > 1 && buf[curr - 1] as int + 1 == pos)
    modifies buf
    ensures 1 <= end < buf.Length && end <= old(Length(buf[..])) + 2 && buf[0] == old(buf[0])
    ensures Flipped(old(View(buf[..])), buf[1..end], pos)
  {
    hide Canonical, Flipped, Holds;
    ghost var a := buf[..];
    AroundRun(a, pos, curr);
    RightBorderWords(a, pos, curr);
    end := buf[0] / 8;
    buf[curr] := pos - 1;
    if curr == end {
      end := end + 1;
    }
    assert buf[..] == a[curr := (pos - 1) as GapWord];
    assert buf[1..end] == buf[..][1..end];
  }

  /** Cuts run curr in three around pos, moving the later ends up by two words. */
  method SplitRun(buf: array<GapWord>, pos: nat, curr: nat) returns (end: nat)
    requires Valid(buf[..]) && Length(buf[..]) + 2 < buf.Length
    requires 0 < pos && 1 <= curr && Holds(View(buf[..]), curr - 1, pos)
    requires buf[curr] != pos && !(curr > 1 && buf[curr - 1] + 1 == pos)
    modifies buf
    ensures 1 <= end < buf.Length && end <= old(Length(buf[..])) + 2 && buf[0] == old(buf[0])
    ensures Flipped(old(View(buf[..])), buf[1..end], pos)
  {
    end := buf[0] / 8;
    forall i | curr <= i <= end { buf[i + 2] := buf[i]; }
    buf[curr] := pos - 1;
    buf[curr + 1] := pos;
    end := end + 2;
    SplitWords(old(buf[..]), buf[..], pos, curr);
    assert buf[..][1..end] == buf[1..end];
  }

  /** b is a with bit pos set to val and nothing else changed. */
  ghost predicate Sets(a: seq<GapWord>, b: seq<GapWord>, pos: nat, val: bool)
    requires Valid(a)
  {
    && Valid(b) && |b| == |a| && Level(b) == Level(a)
    && forall p | 0 <= p <= LAST :: GapBit(b, p) == if p == pos then val else GapBit(a, p)
  }

  lemma SetsSame(a: seq<GapWord>, pos: nat)
    requires Valid(a) && pos <= LAST
    ensures Sets(a, a, pos, GapBit(a, pos))
  {
  }

  lemma FlippedSets(a: seq<GapWord>, b: seq<GapWord>, pos: nat, end: nat)
    requires Valid(a) && pos <= LAST && |b| == |a| && 1 <= end < |b| && end < 8192
    requires Flipped(View(a), b[1..end], pos)
    requires b[0] == Header(Start(a) != (pos == 0), Level(a), end) && b[end] == LAST
    ensures Sets(a, b, pos, !GapBit(a, pos)) && Length(b) == end
  {
    HeaderFields(b, Start(a) != (pos == 0), Level(a), end);
  }

  /** Runs with bit pos flipped are as many as the flipped bits have. */
  lemma FlipsRuns(a: seq<GapWord>, t: Runs, pos: nat)
    requires Valid(a) && pos <= LAST && Canonical(t) && Flips(View(a), t, pos)
    ensures NewRuns(a, pos, !GapBit(a, pos)) == |t.ends|
  {
    hide BitAt;
    assert Bits(t) == GapBits(a)[pos := !GapBit(a, pos)];
    RunsAreEnds(t);
  }

  lemma FlippedRuns(a: seq<GapWord>, body: seq<GapWord>, pos: nat)
    requires Valid(a) && pos <= LAST && Flipped(View(a), body, pos)
    ensures NewRuns(a, pos, !GapBit(a, pos)) == |body| + 1
  {
    FlipsRuns(a, Runs(View(a).start != (pos == 0), body + [LAST]), pos);
  }

  /** The three edits that need more words: a first run of one bit, a last one, a run cut in three. */
  lemma FirstNeeds(a: seq<GapWord>)
    requires Valid(a) && a[1] != 0
    ensures NewRuns(a, 0, !GapBit(a, 0)) == Length(a) + 1
  {
    hide Canonical, BitAt, Flips;
    RunEnds(a);
    var s := View(a);
    FlipFirstInsert(s, Runs(!s.start, [0] + s.ends));
    FlipsRuns(a, Runs(!s.start, [0] + s.ends), 0);
  }

  lemma LastNeeds(a: seq<GapWord>)
    requires Valid(a) && (Length(a) > 1 ==> a[Length(a) - 1] as int + 1 < LAST)
    ensures NewRuns(a, LAST, !GapBit(a, LAST)) == Length(a) + 1
  {
    hide Canonical, BitAt, Flips;
    RunEnds(a);
    var s := View(a);
    var t := Runs(s.start, s.ends[..|s.ends| - 1] + [LAST - 1, LAST]);
    FlipLastInsert(s, t);
    FlipsRuns(a, t, LAST);
  }

  lemma CutIsSplit(s: Runs, pos: GapWord, k: nat, t: Runs)
    requires k < |s.ends| && 0 < pos < s.ends[k] && (k == 0 || s.ends[k - 1] as int + 1 < pos)
    requires t == Runs(s.start, s.ends[..k] + ([pos - 1, pos] + s.ends[k..]))
    ensures Split(s, t, pos, k)
  {
    var rest := [pos - 1, pos] + s.ends[k..];
    forall i | k + 2 <= i < |t.ends| ensures t.ends[i] == s.ends[i - 2] {
      assert t.ends[i] == rest[i - k] == s.ends[k..][i - k - 2];
    }
    assert t.ends[k] == rest[0] && t.ends[k + 1] == rest[1];
  }

  lemma SplitNeeds(a: seq<GapWord>, pos: nat, curr: nat)
    requires Valid(a) && 1 <= curr <= Length(a) && 0 < pos < a[curr] && (curr == 1 || a[curr - 1] as int + 1 < pos)
    ensures NewRuns(a, pos, !GapBit(a, pos)) == Length(a) + 2
  {
    hide Canonical, BitAt, Flips, Split, NewRuns;
    var s := View(a);
    assert |s.ends| == Length(a) && s.ends[curr - 1] == a[curr] && (curr > 1 ==> s.ends[curr - 2] == a[curr - 1]);
    var t := Runs(s.start, s.ends[..curr - 1] + ([pos - 1, pos] + s.ends[curr - 1..]));
    CutIsSplit(s, pos, curr - 1, t);
    FlipSplit(s, t, pos, curr - 1);
    FlipsRuns(a, t, pos);
  }

  /** The edit of the run ends, by where pos lies in run curr; the last end is left to the caller. */
  method FlipEnds(buf: array<GapWord>, pos: nat, curr: nat) returns (end: nat)
    requires Valid(buf[..]) && pos <= LAST && 1 <= curr && Holds(View(buf[..]), curr - 1, pos)
    requires NewRuns(buf[..], pos, !GapBit(buf[..], pos)) < buf.Length
    modifies buf
    ensures 1 <= end < buf.Length && end <= old(Length(buf[..])) + 2 && buf[0] == old(buf[0])
    ensures Flipped(old(View(buf[..])), buf[1..end], pos)
  {
    hide Canonical, BitAt, Holds, Flipped, Flips, View, NewRuns, GapBit;
    ghost var a := buf[..];
    AroundRun(a, pos, curr);
    if pos == 0 {
      if buf[1] != 0 {
        FirstNeeds(a);
      }
      end := FlipFirst(buf);
    } else if curr > 1 && buf[curr - 1] as int + 1 == pos {
      end := FlipLeftBorder(buf, pos, curr);
    } else if buf[curr] == pos {
      if curr == Length(a) {
        LastNeeds(a);
      }
      end := FlipRightBorder(buf, pos, curr);
    } else {
      SplitNeeds(a, pos, curr);
      end := SplitRun(buf, pos, curr);
    }
  }

  /**
   Sets or clears bit pos in place (gap_set_value).  The buffer and the 13 bits of the header need room for
   the runs there are afterwards.
   */
  method SetValue(buf: array<GapWord>, pos: nat, val: bool) returns (changed: bool, newLen: nat)
    requires Valid(buf[..]) && pos <= LAST
    requires NewRuns(buf[..], pos, val) < buf.Length && NewRuns(buf[..], pos, val) < 8192
    modifies buf
    ensures Sets(old(buf[..]), buf[..], pos, val)
    ensures newLen == Length(buf[..]) == old(NewRuns(buf[..], pos, val)) <= old(Length(buf[..])) + 2
    ensures changed == (old(GapBit(buf[..], pos)) != val)
    ensures !changed ==> buf[..] == old(buf[..])
  {
    hide Canonical, BitAt, Holds, Flipped, Flips, Sets, View, NewRuns;
    NewRunsBound(buf[..], pos, val);
    var curr, isSet := FindRun(buf[..], pos);
    var end := buf[0] / 8;
    if isSet == val {
      SetsSame(buf[..], pos);
      return false, end;
    }
    changed := true;
    var header := buf[0];
    HoldsRun(buf[..], pos, curr);
    end := FlipEnds(buf, pos, curr);
    ghost var body := buf[1..end];
    FlippedRuns(old(buf[..]), body, pos);
    buf[0] := Header((header % 2 == 1) != (pos == 0), header / 2 % 4, end);
    buf[end] := LAST;
    newLen := end;
    assert buf[..][1..end] == body;
    FlippedSets(old(buf[..]), buf[..], pos, end);
  }

  lemma HoldsRun(a: seq<GapWord>, pos: nat, curr: nat)
    requires Valid(a) && pos <= LAST && 1 <= curr && curr == RunOf(View(a), pos) + 1
    ensures Holds(View(a), curr - 1, pos)
  {
  }
}
