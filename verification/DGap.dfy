/**
 Delta coding of GAP buffers: gap_2_dgap and dgap_2_gap.
 */
module DGap {
  import opened Gap
  import opened Sequences

  /** Unsigned 16-bit sum and difference. */
  function Add16(x: GapWord, y: int): (r: GapWord)
    requires -65536 <= y
    ensures 0 <= x + y < 65536 ==> r == x + y
  {
    (x + y + 65536) % 65536
  }

  /** Element k of the delta sequence (k from 1): the first end plus one, then the differences. */
  function Delta(buf: seq<GapWord>, k: nat): (d: GapWord)
    requires 1 <= k < |buf|
  {
    if k == 1 then Add16(buf[1], 1) else Add16(buf[k], -(buf[k - 1] as int))
  }

  /** The first n elements. */
  function Deltas(buf: seq<GapWord>, n: nat): (d: seq<GapWord>)
    requires n < |buf|
    ensures |d| == n
  {
    seq(n, i requires 0 <= i < n => Delta(buf, i + 1))
  }

  /** The number of elements written: all but the last, yet at least two. */
  function DeltaCount(buf: seq<GapWord>): nat
    requires |buf| > 0
  {
    if Length(buf) <= 3 then 2 else Length(buf) - 1
  }

  /** Equal in 16 bits. */
  ghost predicate Same16(a: int, b: int) {
    a % 65536 == b % 65536
  }

  lemma Add16Same(x: GapWord, y: int)
    requires -65536 <= y
    ensures Same16(Add16(x, y), x + y)
  {
    assert x + y + 65536 == 65536 * ((x + y + 65536) / 65536) + (x + y + 65536) % 65536;
  }

  lemma Same16Sum(a: int, a': int, b: int, b': int)
    requires Same16(a, a') && Same16(b, b')
    ensures Same16(a + b, a' + b')
  {
    var p, q := a / 65536 - a' / 65536, b / 65536 - b' / 65536;
    assert a == a' + 65536 * p && b == b' + 65536 * q;
    assert a + b == (a' + b') + 65536 * (p + q);
  }

  lemma Same16Twice(a: int, b: int, c: int)
    ensures Same16(a, a)
    ensures Same16(a, b) ==> Same16(b, a)
    ensures Same16(a, b) && Same16(b, c) ==> Same16(a, c)
  {
  }

  /** Added up, the first k elements are run end k plus one, in 16 bits. */
  lemma {:induction false} TotalOfDeltas(buf: seq<GapWord>, n: nat, k: nat)
    requires 1 <= k <= n < |buf|
    ensures Same16(Total(Deltas(buf, n)[..k]), buf[k] as int + 1)
  {
    hide Same16, Add16;
    var d := Deltas(buf, n);
    TotalNext(d, k - 1);
    assert d[k - 1] == Delta(buf, k);
    if k == 1 {
      assert d[..0] == [];
      Add16Same(buf[1], 1);
    } else {
      TotalOfDeltas(buf, n, k - 1);
      var step := -(buf[k - 1] as int);
      Add16Same(buf[k], step);
      Same16Sum(Total(d[..k - 1]), buf[k - 1] as int + 1, d[k - 1], buf[k] + step);
    }
  }

  /** As many words as there are ends but the last, at least two; the first k add up to end k plus one, in 16 bits. */
  ghost predicate Encodes(buf: seq<GapWord>, d: seq<GapWord>)
    requires |buf| > 0
  {
    && |d| == (if Length(buf) <= 3 then 2 else Length(buf) - 1) < |buf|
    && forall k | 1 <= k <= |d| :: Same16(Total(d[..k]), buf[k] as int + 1)
  }

  lemma DeltasEncode(buf: seq<GapWord>)
    requires |buf| >= 3 && InBuffer(buf)
    ensures Encodes(buf, Deltas(buf, DeltaCount(buf)))
  {
    hide Same16;
    var d := Deltas(buf, DeltaCount(buf));
    forall k | 1 <= k <= |d| ensures Same16(Total(d[..k]), buf[k] as int + 1) {
      TotalOfDeltas(buf, DeltaCount(buf), k);
    }
  }

  lemma DeltasNext(buf: seq<GapWord>, n: nat)
    requires n + 1 < |buf|
    ensures Deltas(buf, n + 1) == Deltas(buf, n) + [Delta(buf, n + 1)]
  {
  }

  /** for_each_dgap: the first end plus one, then differences, of which one is written in any case. */
  method WriteDeltas(buf: seq<GapWord>) returns (d: seq<GapWord>)
    requires |buf| >= 3 && InBuffer(buf)
    ensures d == Deltas(buf, DeltaCount(buf))
  {
    hide Deltas, Add16;
    DeltasNext(buf, 0);
    DeltasNext(buf, 1);
    var pend := Length(buf);
    var prev := buf[1];
    d := [Add16(prev, 1)];
    var pcurr := 2;
    d := d + [Add16(buf[pcurr], -(prev as int))];
    prev := buf[pcurr];
    pcurr := pcurr + 1;
    while pcurr < pend
      invariant 3 <= pcurr && (pcurr <= pend || pcurr == 3) && prev == buf[pcurr - 1]
      invariant d == Deltas(buf, pcurr - 1)
    {
      DeltasNext(buf, pcurr - 1);
      d := d + [Add16(buf[pcurr], -(prev as int))];
      prev := buf[pcurr];
      pcurr := pcurr + 1;
    }
  }

  /**
   gap_2_dgap, with the header copied in front when copyHead is set.  The word after the first run end
   is read even in a buffer of one run, so the buffer has three words.
   */
  method ToDGap(buf: seq<GapWord>, copyHead: bool) returns (dgap: seq<GapWord>)
    requires |buf| >= 3 && Valid(buf)
    ensures dgap == (if copyHead then [buf[0]] else []) + Deltas(buf, DeltaCount(buf))
    ensures Encodes(buf, if copyHead then dgap[1..] else dgap)
  {
    hide Deltas, Encodes, Canonical;
    var d := WriteDeltas(buf);
    DeltasEncode(buf);
    dgap := (if copyHead then [buf[0]] else []) + d;
    assert d == if copyHead then dgap[1..] else dgap;
  }

  /** Run end k is the total of the first k elements, less one, in 16 bits. */
  lemma {:induction false} SumsTotal(d: seq<GapWord>, n: nat, k: nat)
    requires 1 <= k <= n <= |d|
    ensures Same16(Sums(d, n)[k - 1] as int + 1, Total(d[..k]))
    decreases n, k
  {
    hide Same16, Add16;
    if k < n {
      SumsTotal(d, n - 1, k);
    } else {
      TotalNext(d, n - 1);
      if n == 1 {
        assert d[..0] == [];
        FirstTotal(d[0]);
      } else {
        var prev := Sums(d, n - 1)[n - 2];
        SumsTotal(d, n - 1, n - 1);
        Add16Same(d[n - 1], prev);
        Same16Twice(d[n - 1], d[n - 1], d[n - 1]);
        Same16Sum(prev as int + 1, Total(d[..n - 1]), d[n - 1], d[n - 1]);
        Same16Twice(1, 1, 1);
        Same16Sum(Add16(d[n - 1], prev), d[n - 1] as int + prev, 1, 1);
        Same16Twice(Add16(d[n - 1], prev) as int + 1, d[n - 1] as int + prev + 1, Total(d[..n]));
        assert d[..n] == d[..n - 1 + 1];
      }
    }
  }

  lemma FirstTotal(x: GapWord)
    ensures Same16((if x == 0 then 65535 else x - 1) as int + 1, x)
  {
  }

  /** The run ends but the last: the first element less one, then sums in 16 bits. */
  method SumUp(dgap: seq<GapWord>, first: nat, len: nat) returns (ends: seq<GapWord>)
    requires first < |dgap| && first + len <= |dgap|
    ensures ends == Sums(dgap[first..], if len <= 1 then 1 else len)
  {
    hide Add16;
    ghost var d := dgap[first..];
    var pcurr, pend := first, first + len;
    ends := [if dgap[pcurr] == 0 then 65535 else dgap[pcurr] - 1];
    pcurr := pcurr + 1;
    while pcurr < pend
      invariant first + 1 <= pcurr && (pcurr <= pend || pcurr == first + 1)
      invariant ends == Sums(d, pcurr - first)
    {
      var prev := ends[|ends| - 1];
      assert d[pcurr - first] == dgap[pcurr];
      ends := ends + [Add16(dgap[pcurr], prev)];
      pcurr := pcurr + 1;
    }
  }

  /** dgap_2_gap: the header is gapHeader, or the first word of dgap when gapHeader is 0. */
  method FromDGap(dgap: seq<GapWord>, gapHeader: GapWord) returns (buf: seq<GapWord>)
    requires |dgap| > 0
    requires var header := if gapHeader == 0 then dgap[0] else gapHeader;
             header / 8 >= 1 && (if gapHeader == 0 then 2 else 1) <= |dgap|
             && header / 8 + (if gapHeader == 0 then 0 else -1) <= |dgap|
    ensures var header := if gapHeader == 0 then dgap[0] else gapHeader;
            var d := if gapHeader == 0 then dgap[1..] else dgap;
            var n := if header / 8 <= 2 then 1 else header / 8 - 1;
            && buf == [header] + Sums(d, n) + [65535]
            && forall k | 1 <= k <= n :: Same16(buf[k] as int + 1, Total(d[..k]))
  {
    hide Same16, Sums, Total;
    var header := if gapHeader == 0 then dgap[0] else gapHeader;
    var first := if gapHeader == 0 then 1 else 0;
    ghost var d := dgap[first..];
    assert gapHeader != 0 ==> d == dgap;
    var ends := SumUp(dgap, first, header / 8 - 1);
    buf := [header] + ends + [65535];
    forall k | 1 <= k <= |ends| ensures Same16(buf[k] as int + 1, Total(d[..k])) {
      SumsTotal(d, |ends|, k);
      assert buf[k] == ends[k - 1];
    }
  }

  /** The run ends that n deltas stand for. */
  function Sums(d: seq<GapWord>, n: nat): (r: seq<GapWord>)
    requires 1 <= n <= |d|
    ensures |r| == n
  {
    if n == 1 then [if d[0] == 0 then 65535 else d[0] - 1]
    else Sums(d, n - 1) + [Add16(d[n - 1], Sums(d, n - 1)[n - 2])]
  }

  lemma DeltaUndone(buf: seq<GapWord>, k: nat)
    requires 1 <= k < |buf| && (k > 1 ==> buf[k - 1] < buf[k])
    ensures if k == 1 then (if Delta(buf, 1) == 0 then 65535 else Delta(buf, 1) - 1) == buf[1]
            else Add16(Delta(buf, k), buf[k - 1]) == buf[k]
  {
  }

  /** The sums of the deltas of increasing ends are the ends. */
  lemma {:induction false} SumsOfDeltas(buf: seq<GapWord>, d: seq<GapWord>, n: nat)
    requires 1 <= n <= |d| && n < |buf| && forall i | 0 <= i < n :: d[i] == Delta(buf, i + 1)
    requires forall i | 2 <= i <= n :: buf[i - 1] < buf[i]
    ensures Sums(d, n) == buf[1..n + 1]
  {
    hide Delta, Add16;
    DeltaUndone(buf, n);
    assert d[n - 1] == Delta(buf, n - 1 + 1);
    if n > 1 {
      SumsOfDeltas(buf, d, n - 1);
      assert buf[1..n][n - 2] == buf[n - 1];
      assert buf[1..n + 1] == buf[1..n] + [buf[n]];
    }
  }

  /** Delta coding is undone, header and every run end, although the last end is not coded. */
  method DGapRoundTrip(buf: seq<GapWord>, copyHead: bool) returns (back: seq<GapWord>)
    requires |buf| >= 3 && Valid(buf)
    ensures |back| > Length(buf) && back[..Length(buf) + 1] == buf[..Length(buf) + 1]
    ensures Valid(back) && View(back) == View(buf)
  {
    hide Sums, Deltas, Canonical;
    AtLeastOneRun(buf);
    var dgap := ToDGap(buf, copyHead);
    assert (if copyHead then dgap[1..] else dgap) == Deltas(buf, DeltaCount(buf));
    back := FromDGap(dgap, if copyHead then 0 else buf[0]);
    Decoded(buf, if copyHead then dgap[1..] else dgap, back);
  }

  lemma AtLeastOneRun(buf: seq<GapWord>)
    requires Valid(buf)
    ensures Length(buf) >= 1
  {
  }

  lemma Decoded(buf: seq<GapWord>, d: seq<GapWord>, back: seq<GapWord>)
    requires |buf| >= 3 && Valid(buf) && d == Deltas(buf, DeltaCount(buf))
    requires back == [buf[0]] + Sums(d, if Length(buf) <= 2 then 1 else Length(buf) - 1) + [65535]
    ensures |back| > Length(buf) && back[..Length(buf) + 1] == buf[..Length(buf) + 1]
    ensures Valid(back) && View(back) == View(buf)
  {
    hide Sums, Add16, Delta;
    assert forall i | 1 <= i <= Length(buf) :: buf[i] == View(buf).ends[i - 1];
    var n := if Length(buf) <= 2 then 1 else Length(buf) - 1;
    SumsOfDeltas(buf, d, n);
    assert back == [buf[0]] + buf[1..n + 1] + [65535];
    forall i | 0 <= i <= Length(buf) ensures back[i] == buf[i] {
    }
    assert View(back).ends == View(buf).ends;
  }
}
