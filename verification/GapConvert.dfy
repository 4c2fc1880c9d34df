/**
 Compressing a bit block to a GAP buffer: bit_convert_to_gap.
 */
module GapConvert {
  import opened BitString
  import opened Gap
  import opened BitBlock

  /** Positions below n are scanned: ends closes all runs but the current one, which has value bitval. */
  ghost predicate Scanned(s: seq<bool>, start: bool, ends: seq<GapWord>, bitval: bool, n: nat) {
    && Traces(start, ends, s) && n <= |s|
    && bitval == (start != Odd(|ends|))
    && (if n == 0 then ends == [] && start == s[0] else Next(ends) < n)
    && (forall p | Next(ends) <= p < n :: s[p] == bitval)
    && |ends| == Changes(s, n)
  }

  lemma ScanSame(s: seq<bool>, start: bool, ends: seq<GapWord>, bitval: bool, n: nat, m: nat)
    requires Scanned(s, start, ends, bitval, n) && n < m <= |s| && forall p | n <= p < m :: s[p] == bitval
    ensures Scanned(s, start, ends, bitval, m)
  {
    hide Traces;
    if n == 0 {
      ChangesConstant(s, 1, m);
    } else {
      ChangesConstant(s, n, m);
    }
  }

  lemma ScanChange(s: seq<bool>, start: bool, ends: seq<GapWord>, bitval: bool, n: nat, m: nat)
    requires Scanned(s, start, ends, bitval, n) && n < m <= |s| && forall p | n <= p < m :: s[p] != bitval
    ensures n > 0 && Scanned(s, start, ends + [n - 1], !bitval, m)
  {
    assert n > 0;
    TraceNewRun(start, ends, n - 1, s);
    hide Traces;
    assert Changes(s, n + 1) == Changes(s, n) + 1;
    ChangesConstant(s, n + 1, m);
  }

  /** The words of dest after word 0 are ends. */
  ghost predicate Written(dest: seq<GapWord>, ends: seq<GapWord>) {
    |ends| < |dest| && forall i | 0 <= i < |ends| :: dest[i + 1] == ends[i]
  }

  /** Takes in positions n..m-1, all of value next; closes the current run when the value changes. */
  method TakeIn(dest: array<GapWord>, destLen: nat, r: nat, bitval: bool, n: nat, m: nat, next: bool,
                ghost s: seq<bool>, ghost start: bool, ghost ends: seq<GapWord>)
    returns (ok: bool, r': nat, ghost ends': seq<GapWord>)
    requires Scanned(s, start, ends, bitval, n) && n < m <= |s| && forall p | n <= p < m :: s[p] == next
    requires r == |ends| + 1 < destLen <= dest.Length && Written(dest[..], ends)
    modifies dest
    ensures ok ==> Scanned(s, start, ends', next, m)
    ensures ok ==> r' == |ends'| + 1 < destLen && Written(dest[..], ends')
    ensures !ok ==> RunCount(s) >= destLen
  {
    ends', r', ok := ends, r, true;
    if bitval != next {
      ScanChange(s, start, ends, bitval, n, m);
      hide Scanned, Traces;
      dest[r'] := n - 1;
      r' := r' + 1;
      ends' := ends + [n - 1];
      if r' >= destLen {
        ChangesMonotone(s, m, |s|);
        ok := false;
      }
    } else {
      ScanSame(s, start, ends, bitval, n, m);
    }
  }

  /** The last run is closed at 65535: the buffer is complete. */
  lemma ScanDone(d: seq<GapWord>, s: seq<bool>, start: bool, ends: seq<GapWord>, bitval: bool, level: nat)
    requires Scanned(s, start, ends, bitval, MAX_BITS) && |ends| + 1 < 8192 && |ends| + 1 < |d| && Written(d, ends)
    requires level < 4 && d[0] == Header(start, level, |ends| + 1) && d[|ends| + 1] == LAST
    ensures Valid(d) && Level(d) == level && Length(d) == RunCount(s) == |ends| + 1 && GapBits(d) == s
  {
    TraceNewRun(start, ends, LAST, s);
    TraceDone(start, ends + [LAST], s);
    HeaderFields(d, start, level, |ends| + 1);
    assert d[1..|ends| + 1] == ends;
  }

  /** Takes in one word: at once when it is all zeros or all ones, else bit by bit. */
  method TakeInWord(dest: array<GapWord>, destLen: nat, r0: nat, bitval0: bool, n: nat, val: Word,
                    ghost s: seq<bool>, ghost start: bool, ghost ends0: seq<GapWord>)
    returns (ok: bool, r: nat, bitval: bool, ghost ends: seq<GapWord>)
    requires Scanned(s, start, ends0, bitval0, n) && n + 32 <= |s| && val == s[n..n + 32]
    requires r0 == |ends0| + 1 < destLen <= dest.Length && Written(dest[..], ends0)
    modifies dest
    ensures ok ==> Scanned(s, start, ends, bitval, n + 32)
    ensures ok ==> r == |ends| + 1 < destLen && Written(dest[..], ends)
    ensures !ok ==> RunCount(s) >= destLen
  {
    hide Scanned, RunCount;
    r, bitval, ends := r0, bitval0, ends0;
    if Uniform(val, false) || Uniform(val, true) {
      var next := val[0];
      assert forall p | n <= p < n + 32 :: s[p] == val[p - n];
      ok, r, ends := TakeIn(dest, destLen, r, bitval, n, n + 32, next, s, start, ends);
      bitval := next;
    } else {
      ok := true;
      for i := 0 to 32
        invariant ok && Scanned(s, start, ends, bitval, n + i)
        invariant r == |ends| + 1 < destLen && Written(dest[..], ends)
      {
        ok, r, ends := TakeIn(dest, destLen, r, bitval, n + i, n + i + 1, val[i], s, start, ends);
        if !ok {
          return;
        }
        bitval := val[i];
      }
    }
  }

  lemma ScanStart(src: seq<bool>)
    requires |src| == MAX_BITS
    ensures Scanned(src, src[0], [], src[0], 0)
  {
  }

  /**
   Converts a bit block to a GAP buffer of fewer than destLen words after the header; returns the
   number of runs, or 0 when there are too many.
   */
  method ConvertToGap(dest: array<GapWord>, src: seq<bool>, destLen: nat) returns (len: nat)
    requires |src| == MAX_BITS && 2 <= destLen <= dest.Length && destLen <= 8192
    modifies dest
    ensures len == if RunCount(src) < destLen then RunCount(src) else 0
    ensures len > 0 ==> Valid(dest[..]) && Level(dest[..]) == 0 && Length(dest[..]) == len
    ensures len > 0 ==> GapBits(dest[..]) == src
  {
    var start := src[0];
    var bitval := start;
    var r := 1;
    var ok;
    ghost var ends: seq<GapWord> := [];
    ScanStart(src);
    hide Scanned, RunCount;
    for q := 0 to 2048
      invariant Scanned(src, start, ends, bitval, 32 * q)
      invariant r == |ends| + 1 < destLen && Written(dest[..], ends)
    {
      ok, r, bitval, ends := TakeInWord(dest, destLen, r, bitval, 32 * q, WordAt(src, q), src, start, ends);
      if !ok {
        return 0;
      }
    }
    dest[r] := LAST;
    len := r;
    dest[0] := Header(start, 0, len);
    ScanDone(dest[..], src, start, ends, bitval, 0);
  }
}
