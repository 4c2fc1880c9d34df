/**
 Run-length ("GAP") buffers of 65536 bits: representation, canonical form, denotation.

 A buffer is an array of 16-bit words.  Word 0 is a header packing the value of the first run
 (bit 0), a capacity level (bits 1-2) and the number of runs (bits 3-15).  Words 1..length are
 the last positions of the runs, strictly increasing, the last of them being 65535.
 */
module Gap {
  const MAX_BITS := 65536
  const LAST := 65535

  /** gap_word_t: an unsigned 16-bit word. */
  type GapWord = x: int | 0 <= x <= 65535

  /** The content of a buffer: the first run's value and the last position of every run. */
  datatype Runs = Runs(start: bool, ends: seq<GapWord>)

  ghost predicate Shaped(g: Runs) {
    |g.ends| > 0 && g.ends[|g.ends| - 1] == LAST
  }

  ghost predicate Canonical(g: Runs) {
    Shaped(g) && forall i, j | 0 <= i < j < |g.ends| :: g.ends[i] < g.ends[j]
  }

  /** Run k holds position p. */
  ghost predicate Holds(g: Runs, k: nat, p: nat) {
    k < |g.ends| && p <= g.ends[k] && (k == 0 || g.ends[k - 1] < p)
  }

  predicate Odd(k: nat) {
    k > 0 && !Odd(k - 1)
  }

  lemma OddNext(k: nat)
    ensures Odd(k + 1) == !Odd(k)
  {
  }

  lemma {:induction false} OddMod(k: nat)
    ensures Odd(k) <==> k % 2 == 1
  {
    if k > 0 {
      OddMod(k - 1);
    }
  }

  lemma {:induction false} RunExists(g: Runs, k: nat, p: nat)
    requires Shaped(g) && p <= LAST && k < |g.ends| && (k == 0 || g.ends[k - 1] < p)
    ensures exists r: nat :: Holds(g, r, p)
    decreases |g.ends| - k
  {
    if p <= g.ends[k] {
      assert Holds(g, k, p);
    } else {
      RunExists(g, k + 1, p);
    }
  }

  /** A run holding position p. */
  ghost function RunOf(g: Runs, p: nat): (k: nat)
    requires Shaped(g) && p <= LAST
    ensures Holds(g, k, p)
  {
    RunExists(g, 0, p);
    var k: nat :| Holds(g, k, p);
    k
  }

  /** The bit at position p: runs alternate, beginning with the start value. */
  ghost predicate BitAt(g: Runs, p: nat)
    requires Shaped(g) && p <= LAST
  {
    g.start != Odd(RunOf(g, p))
  }

  /** All 65536 bits. */
  ghost function Bits(g: Runs): (s: seq<bool>)
    requires Shaped(g)
    ensures |s| == MAX_BITS && forall p | 0 <= p <= LAST :: s[p] == BitAt(g, p)
  {
    seq(MAX_BITS, p requires 0 <= p < MAX_BITS => BitAt(g, p))
  }

  /** In canonical runs the run holding a position is unique, so it settles the bit. */
  lemma BitOfRun(g: Runs, p: nat, k: nat)
    requires Canonical(g) && p <= LAST && Holds(g, k, p)
    ensures RunOf(g, p) == k
    ensures BitAt(g, p) == (g.start != Odd(k))
  {
  }

  /** The first position after run k - 1, or after all runs. */
  ghost function After(g: Runs, k: nat): int {
    if k == 0 then 0 else if k <= |g.ends| then g.ends[k - 1] as int + 1 else MAX_BITS
  }

  /** The positions of run k, which follow those below lo, all have its value. */
  lemma RunValue(g: Runs, k: nat, lo: nat)
    requires Canonical(g) && k < |g.ends| && lo == if k == 0 then 0 else g.ends[k - 1] + 1
    ensures lo <= g.ends[k]
    ensures forall p | lo <= p <= g.ends[k] :: BitAt(g, p) == (g.start != Odd(k))
  {
    forall p | lo <= p <= g.ends[k] ensures BitAt(g, p) == (g.start != Odd(k)) {
      BitOfRun(g, p, k);
    }
  }

  /** A set of positions has at most one canonical form. */
  lemma CanonicalUnique(a: Runs, b: Runs)
    requires Canonical(a) && Canonical(b) && Bits(a) == Bits(b)
    ensures a == b
  {
    BitOfRun(a, 0, 0);
    BitOfRun(b, 0, 0);
    SameRunsTo(a, b, if |a.ends| <= |b.ends| then |a.ends| else |b.ends|);
  }

  lemma {:induction false} SameRunsTo(a: Runs, b: Runs, n: nat)
    requires Canonical(a) && Canonical(b) && Bits(a) == Bits(b) && a.start == b.start
    requires n <= |a.ends| && n <= |b.ends|
    ensures forall k | 0 <= k < n :: a.ends[k] == b.ends[k]
  {
    if n > 0 {
      SameRunsTo(a, b, n - 1);
      EndNotEarlier(a, b, n - 1);
      EndNotEarlier(b, a, n - 1);
    }
  }

  lemma EndNotEarlier(a: Runs, b: Runs, n: nat)
    requires Canonical(a) && Canonical(b) && Bits(a) == Bits(b) && a.start == b.start
    requires n < |a.ends| && n < |b.ends|
    requires forall k | 0 <= k < n :: a.ends[k] == b.ends[k]
    ensures a.ends[n] >= b.ends[n]
  {
    if a.ends[n] < b.ends[n] {
      var p := a.ends[n] + 1;
      BitOfRun(a, p, n + 1);
      BitOfRun(b, p, n);
      assert false;
    }
  }

  lemma {:induction false} AdjacentOrdered(g: Runs, i: nat, j: nat)
    requires forall k | 1 <= k < |g.ends| :: g.ends[k - 1] < g.ends[k]
    requires i < j < |g.ends|
    ensures g.ends[i] < g.ends[j]
  {
    if i + 1 < j {
      AdjacentOrdered(g, i, j - 1);
    }
  }

  /** Neighbouring run ends being ordered is enough. */
  lemma AdjacentCanonical(g: Runs)
    requires Shaped(g) && forall k | 1 <= k < |g.ends| :: g.ends[k - 1] < g.ends[k]
    ensures Canonical(g)
  {
    forall i, j | 0 <= i < j < |g.ends| ensures g.ends[i] < g.ends[j] {
      AdjacentOrdered(g, i, j);
    }
  }

  // ---------------------------------------------------------------- building runs left to right

  /** The first position that no run of ends covers yet. */
  function Next(ends: seq<GapWord>): (p: nat) {
    if |ends| == 0 then 0 else ends[|ends| - 1] as int + 1
  }

  /** Ordered runs that agree with want as far as they go. */
  ghost predicate Traces(start: bool, ends: seq<GapWord>, want: seq<bool>) {
    && |want| == MAX_BITS
    && (forall i, j | 0 <= i < j < |ends| :: ends[i] < ends[j])
    && forall k: nat, p: nat | Holds(Runs(start, ends), k, p) :: want[p] == (start != Odd(k))
  }

  lemma TraceDone(start: bool, ends: seq<GapWord>, want: seq<bool>)
    requires Traces(start, ends, want) && Next(ends) == MAX_BITS
    ensures Canonical(Runs(start, ends)) && Bits(Runs(start, ends)) == want
  {
    var g := Runs(start, ends);
    forall p | 0 <= p <= LAST ensures BitAt(g, p) == want[p] {
      BitOfRun(g, p, RunOf(g, p));
    }
  }

  /** One more run up to e, want being its value all over it. */
  lemma TraceNewRun(start: bool, ends: seq<GapWord>, e: GapWord, want: seq<bool>)
    requires Traces(start, ends, want) && Next(ends) <= e
    requires forall p | Next(ends) <= p <= e :: want[p] == (start != Odd(|ends|))
    ensures Traces(start, ends + [e], want)
  {
    forall k: nat, p: nat | Holds(Runs(start, ends + [e]), k, p) ensures want[p] == (start != Odd(k)) {
      assert k < |ends| ==> Holds(Runs(start, ends), k, p);
    }
  }

  /** The last run grows up to e, want being its value all the way. */
  lemma TraceGrow(start: bool, ends: seq<GapWord>, e: GapWord, want: seq<bool>)
    requires Traces(start, ends, want) && |ends| > 0 && Next(ends) <= e
    requires forall p | Next(ends) <= p <= e :: want[p] == (start != Odd(|ends| - 1))
    ensures Traces(start, ends[|ends| - 1 := e], want)
  {
    forall k: nat, p: nat | Holds(Runs(start, ends[|ends| - 1 := e]), k, p)
      ensures want[p] == (start != Odd(k))
    {
      assert k < |ends| - 1 || p < Next(ends) ==> Holds(Runs(start, ends), k, p);
    }
  }

  // ---------------------------------------------------------------- buffers

  function Length(buf: seq<GapWord>): nat
    requires |buf| > 0
  {
    buf[0] / 8
  }

  function Level(buf: seq<GapWord>): nat
    requires |buf| > 0
  {
    buf[0] / 2 % 4
  }

  predicate Start(buf: seq<GapWord>)
    requires |buf| > 0
  {
    buf[0] % 2 == 1
  }

  /** The header word with the given fields; it exists for lengths below 2^13 only. */
  function Header(start: bool, level: nat, length: nat): (h: GapWord)
    requires level < 4 && length < 8192
    ensures h / 8 == length && h / 2 % 4 == level && (h % 2 == 1) == start
  {
    length * 8 + level * 2 + (if start then 1 else 0)
  }

  /** The words used by the runs lie inside the buffer. */
  ghost predicate InBuffer(buf: seq<GapWord>) {
    |buf| > 0 && Length(buf) < |buf|
  }

  ghost function View(buf: seq<GapWord>): Runs
    requires InBuffer(buf)
  {
    Runs(Start(buf), buf[1..Length(buf) + 1])
  }

  ghost predicate Valid(buf: seq<GapWord>) {
    InBuffer(buf) && Canonical(View(buf))
  }

  /** A buffer with the given header fields and a last end of 65535 at its length. */
  lemma HeaderFields(b: seq<GapWord>, start: bool, level: nat, length: nat)
    requires level < 4 && 1 <= length < 8192 && length < |b|
    requires b[0] == Header(start, level, length) && b[length] == LAST
    ensures InBuffer(b) && Length(b) == length && Level(b) == level
    ensures View(b) == Runs(start, b[1..length] + [LAST])
  {
  }

  ghost function GapBits(buf: seq<GapWord>): (s: seq<bool>)
    requires Valid(buf)
    ensures |s| == MAX_BITS && forall p | 0 <= p <= LAST :: s[p] == GapBit(buf, p)
  {
    Bits(View(buf))
  }

  ghost predicate GapBit(buf: seq<GapWord>, p: nat)
    requires Valid(buf) && p <= LAST
  {
    BitAt(View(buf), p)
  }
}
