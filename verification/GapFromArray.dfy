/**
 Building a GAP buffer from a sorted array and appending to it: gap_set_array, gap_add_value.
 */
module GapFromArray {
  import opened BitString
  import opened Gap
  import opened GapConvert
  import GapArray
  import GapEdit
  import GapRuns

  ghost predicate Increasing(arr: seq<GapWord>) {
    forall i, j | 0 <= i < j < |arr| :: arr[i] < arr[j]
  }

  /** The bit string with ones exactly at the positions in arr. */
  ghost function Marks(arr: seq<GapWord>): (s: seq<bool>)
    ensures |s| == MAX_BITS
  {
    seq(MAX_BITS, p => p in arr)
  }

  /** The runs up to value n - 1 (bit_array_compute_gaps). */
  function ComputeGaps(arr: seq<GapWord>, n: nat): (c: nat)
    requires 1 <= n <= |arr|
  {
    if n == 1 then (if arr[0] > 0 then 2 else 1)
    else ComputeGaps(arr, n - 1) + (if arr[n - 1] != arr[n - 2] as int + 1 then 2 else 0)
  }

  /** All runs: a run of zeros follows the last value unless that is 65535. */
  function ArrayRuns(arr: seq<GapWord>): (c: nat)
    requires |arr| > 0
  {
    ComputeGaps(arr, |arr|) + (if arr[|arr| - 1] == LAST then 0 else 1)
  }

  lemma {:induction false} ComputeGapsGrows(arr: seq<GapWord>, m: nat, n: nat)
    requires 1 <= m <= n <= |arr|
    ensures ComputeGaps(arr, m) <= ComputeGaps(arr, n)
  {
    if m < n {
      ComputeGapsGrows(arr, m, n - 1);
    }
  }

  lemma MarksFirst(arr: seq<GapWord>)
    requires Increasing(arr) && |arr| > 0
    ensures forall p | 0 <= p < arr[0] :: !Marks(arr)[p]
    ensures Marks(arr)[arr[0]]
  {
  }

  lemma MarksBetween(arr: seq<GapWord>, i: nat)
    requires Increasing(arr) && 0 < i < |arr|
    ensures arr[i - 1] < arr[i] && Marks(arr)[arr[i]]
    ensures forall p | arr[i - 1] < p < arr[i] :: !Marks(arr)[p]
  {
  }

  lemma MarksLast(arr: seq<GapWord>)
    requires Increasing(arr) && |arr| > 0
    ensures forall p | arr[|arr| - 1] < p <= LAST :: !Marks(arr)[p]
  {
  }

  /** The scan stands after a one at acc, with the runs before it in ends. */
  lemma ScanFirst(arr: seq<GapWord>)
    requires Increasing(arr) && |arr| > 0
    ensures var ends: seq<GapWord> := if arr[0] > 0 then [arr[0] - 1] else [];
            Scanned(Marks(arr), arr[0] == 0, ends, true, arr[0] as int + 1)
  {
    hide Scanned, Marks;
    var s := Marks(arr);
    MarksFirst(arr);
    ScanStart(s);
    if arr[0] > 0 {
      ScanSame(s, false, [], false, 0, arr[0]);
      ScanChange(s, false, [], false, arr[0], arr[0] as int + 1);
      assert [] + [arr[0] - 1] == [arr[0] - 1];
    } else {
      ScanSame(s, true, [], true, 0, 1);
    }
  }

  /** Value i of the array continues the run of ones, or closes it and the run of zeros after it. */
  lemma ScanValue(arr: seq<GapWord>, i: nat, start: bool, ends: seq<GapWord>)
    requires Increasing(arr) && 0 < i < |arr| && Scanned(Marks(arr), start, ends, true, arr[i - 1] as int + 1)
    ensures arr[i - 1] < arr[i]
    ensures var ends' := if arr[i] == arr[i - 1] as int + 1 then ends else ends + [arr[i - 1]] + [arr[i] - 1];
            Scanned(Marks(arr), start, ends', true, arr[i] as int + 1)
  {
    hide Scanned, Marks;
    var s := Marks(arr);
    MarksBetween(arr, i);
    if arr[i] == arr[i - 1] as int + 1 {
      ScanSame(s, start, ends, true, arr[i - 1] as int + 1, arr[i] as int + 1);
    } else {
      ScanChange(s, start, ends, true, arr[i - 1] as int + 1, arr[i]);
      ScanChange(s, start, ends + [arr[i - 1]], false, arr[i], arr[i] as int + 1);
    }
  }

  /** After the last value: a run of zeros to the end, if there is room for one. */
  lemma ScanLast(arr: seq<GapWord>, start: bool, ends: seq<GapWord>)
    requires Increasing(arr) && |arr| > 0 && Scanned(Marks(arr), start, ends, true, arr[|arr| - 1] as int + 1)
    ensures var acc := arr[|arr| - 1];
            if acc == LAST then Scanned(Marks(arr), start, ends, true, MAX_BITS)
            else Scanned(Marks(arr), start, ends + [acc], false, MAX_BITS)
  {
    hide Scanned, Marks;
    MarksLast(arr);
    var acc := arr[|arr| - 1];
    if acc != LAST {
      ScanChange(Marks(arr), start, ends, true, acc as int + 1, MAX_BITS);
    }
  }

  lemma WrittenOne(d: seq<GapWord>, d': seq<GapWord>, ends: seq<GapWord>, e: GapWord)
    requires Written(d, ends) && |ends| + 1 < |d| && d' == d[|ends| + 1 := e]
    ensures Written(d', ends + [e])
  {
  }

  /** Appends a run end. */
  method Put(buf: array<GapWord>, e: GapWord, ghost ends: seq<GapWord>, pcurr: nat) returns (pcurr': nat)
    requires Written(buf[..], ends) && pcurr == |ends| + 1 < buf.Length
    modifies buf
    ensures Written(buf[..], ends + [e]) && pcurr' == pcurr + 1 && buf[0] == old(buf[0])
  {
    buf[pcurr] := e;
    WrittenOne(old(buf[..]), buf[..], ends, e);
    pcurr' := pcurr + 1;
  }

  /** gap_set_array: the buffer of the positions in a strictly increasing array; returns its length in words. */
  method SetArray(buf: array<GapWord>, arr: seq<GapWord>) returns (words: nat)
    requires |arr| > 0 && Increasing(arr) && ArrayRuns(arr) < buf.Length && ArrayRuns(arr) < 8192
    modifies buf
    ensures Valid(buf[..]) && GapBits(buf[..]) == Marks(arr)
    ensures words == Length(buf[..]) + 1 && Level(buf[..]) == old(Level(buf[..]))
  {
    hide Scanned, Marks, Written, Increasing, Valid, GapBits;
    var level := buf[0] / 2 % 4;
    var start := arr[0] == 0;
    ghost var ends: seq<GapWord> := [];
    var pcurr := 1;
    WrittenNone(buf[..]);
    ComputeGapsGrows(arr, 1, |arr|);
    ScanFirst(arr);
    if arr[0] != 0 {
      pcurr := Put(buf, arr[0] - 1, ends, pcurr);
      ends := ends + [arr[0] - 1];
    }
    assert ends == if arr[0] > 0 then [arr[0] - 1] else [];
    var prev, acc := arr[0], arr[0];
    for i := 1 to |arr|
      invariant prev == acc == arr[i - 1] && buf.Length > 0
      invariant Scanned(Marks(arr), start, ends, true, acc as int + 1)
      invariant Written(buf[..], ends) && pcurr == |ends| + 1 == ComputeGaps(arr, i)
    {
      ComputeGapsGrows(arr, i + 1, |arr|);
      ScanValue(arr, i, start, ends);
      var curr := arr[i];
      if curr == prev as int + 1 {
        acc := acc + 1;
      } else {
        pcurr := Put(buf, acc, ends, pcurr);
        pcurr := Put(buf, curr - 1, ends + [acc], pcurr);
        ends := ends + [acc] + [curr - 1];
        acc := curr;
      }
      prev := curr;
    }
    ScanLast(arr, start, ends);
    if acc != LAST {
      pcurr := Put(buf, acc, ends, pcurr);
      ends := ends + [acc];
    }
    words := Close(buf, pcurr, start, level, Marks(arr), ends, acc == LAST);
  }

  lemma WrittenNone(d: seq<GapWord>)
    requires |d| > 0
    ensures Written(d, [])
  {
  }

  /** The last run end and the header. */
  method Close(buf: array<GapWord>, pcurr: nat, start: bool, level: nat, ghost s: seq<bool>, ghost ends: seq<GapWord>, ghost bitval: bool)
    returns (words: nat)
    requires Scanned(s, start, ends, bitval, MAX_BITS) && Written(buf[..], ends)
    requires pcurr == |ends| + 1 < buf.Length && pcurr < 8192 && level < 4
    modifies buf
    ensures Valid(buf[..]) && GapBits(buf[..]) == s && Level(buf[..]) == level && words == Length(buf[..]) + 1
  {
    hide Scanned, Valid, GapBits;
    buf[pcurr] := LAST;
    buf[0] := Header(start, level, pcurr);
    ScanDone(buf[..], s, start, ends, bitval, level);
    words := pcurr + 1;
  }

  // ---------------------------------------------------------------- against single insertions

  /** Same bits, same level: the same words, as far as the buffer is used. */
  lemma SameWords(a: seq<GapWord>, b: seq<GapWord>)
    requires Valid(a) && Valid(b) && GapBits(a) == GapBits(b) && Level(a) == Level(b)
    ensures a[..Length(a) + 1] == b[..Length(b) + 1]
  {
    hide Canonical, Bits, BitAt;
    CanonicalUnique(View(a), View(b));
    assert |View(a).ends| == Length(a) && |View(b).ends| == Length(b);
    SameHeader(a, b);
    forall i | 0 <= i <= Length(a) ensures a[i] == b[i] {
      if i > 0 {
        assert a[i] == View(a).ends[i - 1] && b[i] == View(b).ends[i - 1];
      }
    }
  }

  lemma SameHeader(a: seq<GapWord>, b: seq<GapWord>)
    requires |a| > 0 && |b| > 0 && Length(a) == Length(b) && Level(a) == Level(b) && Start(a) == Start(b)
    ensures a[0] == b[0]
  {
    HeaderParts(a[0]);
    HeaderParts(b[0]);
  }

  lemma HeaderParts(h: int)
    ensures h == 8 * (h / 8) + 2 * (h / 2 % 4) + h % 2
  {
    var q := h / 2;
    assert h == 2 * q + h % 2;
    assert q == 4 * (q / 4) + q % 4;
    assert q / 4 == h / 8;
  }

  /** The scan up to value n - 1 meets ComputeGaps runs. */
  lemma {:induction false} ScanRuns(arr: seq<GapWord>, n: nat) returns (ends: seq<GapWord>)
    requires Increasing(arr) && 1 <= n <= |arr|
    ensures Scanned(Marks(arr), arr[0] == 0, ends, true, arr[n - 1] as int + 1) && |ends| + 1 == ComputeGaps(arr, n)
    decreases n
  {
    hide Scanned, Marks, Increasing;
    if n == 1 {
      ScanFirst(arr);
      ends := if arr[0] > 0 then [arr[0] - 1] else [];
    } else {
      ends := ScanRuns(arr, n - 1);
      ScanValue(arr, n - 1, arr[0] == 0, ends);
      if arr[n - 1] != arr[n - 2] as int + 1 {
        ends := ends + [arr[n - 2]] + [arr[n - 1] - 1];
      }
    }
  }

  lemma ScannedChanges(s: seq<bool>, start: bool, ends: seq<GapWord>, bitval: bool, n: nat)
    requires Scanned(s, start, ends, bitval, n)
    ensures n <= |s| && |ends| == Changes(s, n)
  {
  }

  /** The runs of the set are as many as ArrayRuns says. */
  lemma RunsOfMarks(arr: seq<GapWord>)
    requires Increasing(arr) && |arr| > 0
    ensures RunCount(Marks(arr)) == ArrayRuns(arr)
  {
    hide Scanned, Marks, Increasing;
    var ends := ScanRuns(arr, |arr|);
    ScanLast(arr, arr[0] == 0, ends);
    var acc := arr[|arr| - 1];
    ScannedChanges(Marks(arr), arr[0] == 0, if acc == LAST then ends else ends + [acc], acc == LAST, MAX_BITS);
  }

  /** The most runs there are while the values are set one by one: at the end, or before the last value. */
  function TransientRuns(arr: seq<GapWord>): nat
    requires |arr| > 0
  {
    var before := if |arr| > 1 then ComputeGaps(arr, |arr| - 1) + 1 else 0;
    if ArrayRuns(arr) < before then before else ArrayRuns(arr)
  }

  lemma PrefixRuns(arr: seq<GapWord>, i: nat)
    requires Increasing(arr) && 1 <= i <= |arr|
    ensures Increasing(arr[..i]) && RunCount(Marks(arr[..i])) == ArrayRuns(arr[..i]) <= TransientRuns(arr)
  {
    hide Marks, RunCount;
    RunsOfMarks(arr[..i]);
    if i == |arr| {
      assert arr[..i] == arr;
    } else {
      SamePrefixGaps(arr, i, i);
      ComputeGapsGrows(arr, i, |arr| - 1);
    }
  }

  /** Setting value i makes the runs of the next prefix. */
  lemma NextRuns(b: seq<GapWord>, arr: seq<GapWord>, i: nat)
    requires Increasing(arr) && i < |arr| && Valid(b) && GapBits(b) == Marks(arr[..i])
    ensures GapRuns.NewRuns(b, arr[i], true) <= TransientRuns(arr)
  {
    assert Marks(arr[..i])[arr[i] := true] == Marks(arr[..i + 1]) by {
      assert arr[..i + 1] == arr[..i] + [arr[i]];
    }
    PrefixRuns(arr, i + 1);
  }

  lemma {:induction false} SamePrefixGaps(arr: seq<GapWord>, i: nat, n: nat)
    requires 1 <= n <= i <= |arr|
    ensures ComputeGaps(arr[..i], n) == ComputeGaps(arr, n)
  {
    if n > 1 {
      SamePrefixGaps(arr, i, n - 1);
    }
  }

  lemma SetsMark(a: seq<GapWord>, b: seq<GapWord>, arr: seq<GapWord>, v: GapWord)
    requires Valid(a) && GapBits(a) == Marks(arr) && GapEdit.Sets(a, b, v, true)
    ensures GapBits(b) == Marks(arr + [v])
  {
    assert forall p | 0 <= p <= LAST :: GapBit(a, p) == GapBits(a)[p];
  }

  lemma NoMarks(b: seq<GapWord>)
    requires |b| > 1 && b[0] == Header(false, 0, 1) && b[1] == LAST
    ensures Valid(b) && GapBits(b) == Marks([]) && Level(b) == 0 && Length(b) == 1
  {
    HeaderFields(b, false, 0, 1);
    assert b[1..1] + [LAST] == [LAST];
    RunValue(View(b), 0, 0);
  }

  /** The values of arr set one by one from the empty buffer, by gap_set_value. */
  method SetOneByOne(buf: array<GapWord>, arr: seq<GapWord>)
    requires |arr| > 0 && Increasing(arr) && TransientRuns(arr) < buf.Length && TransientRuns(arr) < 8192
    modifies buf
    ensures Valid(buf[..]) && GapBits(buf[..]) == Marks(arr) && Level(buf[..]) == 0
  {
    hide Marks, Valid, GapBits, GapEdit.Sets, Increasing, TransientRuns, GapRuns.NewRuns;
    AtLeastOne(arr);
    buf[0], buf[1] := Header(false, 0, 1), LAST;
    NoMarks(buf[..]);
    assert arr[..0] == [];
    for i := 0 to |arr|
      invariant Valid(buf[..]) && GapBits(buf[..]) == Marks(arr[..i]) && Level(buf[..]) == 0
    {
      ghost var was := buf[..];
      NextRuns(was, arr, i);
      var _, _ := GapEdit.SetValue(buf, arr[i], true);
      SetsMark(was, buf[..], arr[..i], arr[i]);
      SetsLevel(was, buf[..], arr[i]);
      assert arr[..i] + [arr[i]] == arr[..i + 1];
    }
    assert arr[..|arr|] == arr;
  }

  lemma AtLeastOne(arr: seq<GapWord>)
    requires |arr| > 0
    ensures 1 <= ArrayRuns(arr) <= TransientRuns(arr)
  {
    ComputeGapsGrows(arr, 1, |arr|);
  }

  lemma SetsLevel(a: seq<GapWord>, b: seq<GapWord>, v: GapWord)
    requires Valid(a) && GapEdit.Sets(a, b, v, true)
    ensures Valid(b) && Level(b) == Level(a)
  {
  }

  /** gap_set_array gives, word for word, what repeated gap_set_value gives. */
  method SetArrayOrOneByOne(arr: seq<GapWord>) returns (a: seq<GapWord>, b: seq<GapWord>, words: nat)
    requires |arr| > 0 && Increasing(arr) && TransientRuns(arr) < 8192
    ensures words <= |a| && words <= |b| && a[..words] == b[..words]
    ensures Valid(a) && GapBits(a) == Marks(arr)
  {
    hide Marks, Valid, GapBits, Increasing;
    var x := new GapWord[ArrayRuns(arr) + 1](i => 0);
    var y := new GapWord[TransientRuns(arr) + 1](i => 0);
    words := SetArray(x, arr);
    SetOneByOne(y, arr);
    a, b := x[..], y[..];
    SameWords(a, b);
    UsedWords(a);
    UsedWords(b);
  }

  lemma UsedWords(b: seq<GapWord>)
    requires Valid(b)
    ensures |b| > 0 && Length(b) < |b|
  {
  }

  /** The ones of Marks(arr), listed, are arr. */
  lemma {:induction false} PositionsOfMarks(arr: seq<GapWord>, n: nat, k: nat)
    requires Increasing(arr) && n <= MAX_BITS && k <= |arr|
    requires (forall i | 0 <= i < k :: arr[i] < n) && forall i | k <= i < |arr| :: arr[i] >= n
    ensures Positions(Marks(arr), n) == arr[..k]
    decreases n
  {
    if n > 0 {
      if k > 0 && arr[k - 1] == n - 1 {
        PositionsOfMarks(arr, n - 1, k - 1);
        assert arr[..k] == arr[..k - 1] + [n - 1];
      } else {
        assert n - 1 !in arr;
        PositionsOfMarks(arr, n - 1, k);
      }
    }
  }

  lemma ListedMarks(dest: seq<GapWord>, n: nat, arr: seq<GapWord>)
    requires Increasing(arr) && GapArray.Listed(dest, n, Marks(arr), MAX_BITS)
    ensures n <= |dest| && dest[..n] == arr
  {
    PositionsOfMarks(arr, MAX_BITS, |arr|);
    assert arr[..|arr|] == arr;
  }

  lemma CountMarks(arr: seq<GapWord>)
    requires Increasing(arr)
    ensures Count(Marks(arr), 0, MAX_BITS) == |arr|
  {
    PositionsOfMarks(arr, MAX_BITS, |arr|);
    PositionsCount(Marks(arr), MAX_BITS);
    assert arr[..|arr|] == arr;
  }

  /**
   gap_convert_to_arr gives back the array that gap_set_array was given, unless it holds all 65536 positions:
   then the 16-bit count it returns is 0.
   */
  method ArrayRoundTrip(arr: seq<GapWord>) returns (back: seq<GapWord>)
    requires |arr| > 0 && Increasing(arr) && ArrayRuns(arr) < 8192
    ensures |arr| <= 65536 && (back == arr <==> |arr| < 65536)
    ensures |arr| == 65536 ==> back == []
  {
    hide Marks, Valid, GapBits, Increasing, GapArray.Listed;
    var buf := new GapWord[ArrayRuns(arr) + 1](i => 0);
    var dest := new GapWord[|arr| + 1](i => 0);
    var _ := SetArray(buf, arr);
    CountMarks(arr);
    GapArray.ShownBits(buf[..], false);
    var n := GapArray.ToArray(dest, buf[..], |arr| + 1, false);
    ListedMarks(dest[..], |arr|, arr);
    back := dest[..n];
  }

  /** The array of all positions: one run of ones. */
  lemma AllPositions() returns (arr: seq<GapWord>)
    ensures |arr| == 65536 && Increasing(arr) && ArrayRuns(arr) == 1
  {
    arr := seq(65536, i requires 0 <= i < 65536 => i as GapWord);
    AllPositionsGaps(arr, 65536);
  }

  lemma {:induction false} AllPositionsGaps(arr: seq<GapWord>, n: nat)
    requires 1 <= n <= |arr| && forall i | 0 <= i < |arr| :: arr[i] == i
    ensures ComputeGaps(arr, n) == 1
  {
    if n > 1 {
      AllPositionsGaps(arr, n - 1);
    }
  }

  // ---------------------------------------------------------------- appending

  /** No one at pos or above: pos is in the last run, which is of zeros. */
  lemma AboveAll(g: Runs, pos: nat)
    requires Canonical(g) && pos <= LAST && forall p | pos <= p <= LAST :: !BitAt(g, p)
    ensures var k := |g.ends| - 1;
            Holds(g, k, pos) && g.start == Odd(k) && (pos == 0 ==> k == 0 && !g.start)
  {
    var k := RunOf(g, pos);
    BitOfRun(g, LAST, |g.ends| - 1);
    BitOfRun(g, pos, k);
    OddNext(k);
    if k < |g.ends| - 1 {
      BitOfRun(g, g.ends[k] as int + 1, k + 1);
      assert false;
    }
  }

  /**
   gap_add_value: sets a bit above all others, looking at the end of the buffer only.  The branches
   for deleting and merging runs in the middle are never taken.
   */
  method AddValue(buf: array<GapWord>, pos: GapWord) returns (end: nat)
    requires Valid(buf[..]) && forall p | pos <= p <= LAST :: !GapBit(buf[..], p)
    requires GapRuns.NewRuns(buf[..], pos, true) < buf.Length && GapRuns.NewRuns(buf[..], pos, true) < 8192
    modifies buf
    ensures GapEdit.Sets(old(buf[..]), buf[..], pos, true) && end == Length(buf[..])
  {
    hide Canonical, BitAt, GapEdit.Flipped, GapEdit.Flips, GapEdit.Sets, GapRuns.NewRuns;
    NothingAbove(buf[..], pos);
    AboveAll(View(buf[..]), pos);
    var header := buf[0];
    end := AddEnds(buf, pos);
    ghost var body := buf[1..end];
    GapEdit.FlippedRuns(old(buf[..]), body, pos);
    buf[0] := Header((header % 2 == 1) != (pos == 0), header / 2 % 4, end);
    buf[end] := LAST;
    assert buf[..][1..end] == body;
    GapEdit.FlippedSets(old(buf[..]), buf[..], pos, end);
  }

  lemma NothingAbove(b: seq<GapWord>, pos: GapWord)
    requires Valid(b) && forall p | pos <= p <= LAST :: !GapBit(b, p)
    ensures forall p | pos <= p <= LAST :: !BitAt(View(b), p)
  {
    forall p | pos <= p <= LAST ensures !BitAt(View(b), p) {
      assert !GapBit(b, p);
    }
  }

  /** The run ends of gap_add_value; the last one is left to the caller. */
  method AddEnds(buf: array<GapWord>, pos: GapWord) returns (end: nat)
    requires Valid(buf[..]) && Holds(View(buf[..]), Length(buf[..]) - 1, pos)
    requires pos == 0 ==> Length(buf[..]) == 1
    requires GapRuns.NewRuns(buf[..], pos, !GapBit(buf[..], pos)) < buf.Length
    modifies buf
    ensures 1 <= end < buf.Length && end <= old(Length(buf[..])) + 2 && buf[0] == old(buf[0])
    ensures GapEdit.Flipped(old(View(buf[..])), buf[1..end], pos)
  {
    hide Canonical, BitAt, GapEdit.Flipped, GapRuns.NewRuns;
    ghost var a := buf[..];
    LastEnd(a, pos);
    end := buf[0] / 8;
    var curr := end;
    if pos == 0 {
      if buf[1] == 0 {
        assert false;
      }
      GapEdit.FirstNeeds(a);
      buf[1] := 0;
      end := end + 1;
      GapEdit.FirstInsertedWords(a, buf[..]);
    } else if buf[curr - 1] as int + 1 == pos && curr > 1 {
      GapEdit.LeftBorderWords(a, pos, curr);
      buf[curr - 1] := pos;
      if buf[curr - 1] == buf[curr] {
        end := end - 1;
      }
      assert buf[..] == a[curr - 1 := pos as GapWord];
    } else if buf[curr] == pos {
      GapEdit.LastNeeds(a);
      GapEdit.RightBorderWords(a, pos, curr);
      buf[curr] := pos - 1;
      end := end + 1;
      assert buf[..] == a[curr := (pos - 1) as GapWord];
    } else {
      GapEdit.SplitNeeds(a, pos, curr);
      buf[curr] := pos - 1;
      buf[curr + 1] := pos;
      end := end + 2;
      GapEdit.SplitWords(a, buf[..], pos, curr);
    }
    assert buf[1..end] == buf[..][1..end];
  }

  lemma LastEnd(a: seq<GapWord>, pos: GapWord)
    requires Valid(a) && Holds(View(a), Length(a) - 1, pos)
    ensures Length(a) >= 1 && a[Length(a)] == LAST && pos <= a[Length(a)]
    ensures Length(a) > 1 ==> a[Length(a) - 1] < pos
  {
  }

  /** gap_add_value gives, word for word, what gap_set_value gives. */
  method AddOrSetValue(buf: seq<GapWord>, pos: GapWord) returns (a: seq<GapWord>, b: seq<GapWord>, end: nat)
    requires Valid(buf) && forall p | pos <= p <= LAST :: !GapBit(buf, p)
    requires GapRuns.NewRuns(buf, pos, true) < |buf| && GapRuns.NewRuns(buf, pos, true) < 8192
    ensures end < |a| && end < |b| && a[..end + 1] == b[..end + 1]
    ensures GapEdit.Sets(buf, a, pos, true)
  {
    hide Valid, GapBits, GapEdit.Sets, GapRuns.NewRuns;
    var x := new GapWord[|buf|](i requires 0 <= i < |buf| => buf[i]);
    var y := new GapWord[|buf|](i requires 0 <= i < |buf| => buf[i]);
    assert x[..] == buf && y[..] == buf;
    end := AddValue(x, pos);
    var _, _ := GapEdit.SetValue(y, pos, true);
    a, b := x[..], y[..];
    SetsBits(buf, a, b, pos);
    SameWords(a, b);
    UsedWords(a);
    UsedWords(b);
  }

  lemma SetsBits(buf: seq<GapWord>, a: seq<GapWord>, b: seq<GapWord>, pos: GapWord)
    requires Valid(buf) && GapEdit.Sets(buf, a, pos, true) && GapEdit.Sets(buf, b, pos, true)
    ensures Valid(a) && Valid(b) && GapBits(a) == GapBits(b) && Level(a) == Level(b)
  {
    assert forall p | 0 <= p <= LAST :: GapBit(a, p) == GapBit(b, p);
  }
}
