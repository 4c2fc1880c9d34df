/**
 miniset: a small set that starts as a GAP buffer of fixed size and turns itself into a bit buffer
 when that gets too long.
 */
module MiniSets {
  import opened Gap
  import opened BitBlock
  import GapBlock
  import GapEdit
  import GapRuns

  /** BM_MINISET_GAPLEN, the capacity of level 0. */
  const GAPLEN := 128

  datatype Buffer = NoBuffer | BitBuffer(bits: seq<bool>) | GapBuffer(words: seq<GapWord>)

  /** BM_MINISET_ARRSIZE, in bits. */
  function ArrayBits(n: nat): (r: nat)
    ensures n <= r < n + 32 && WholeWords(r) && (n <= MAX_BITS ==> r <= MAX_BITS)
  {
    32 * (n / 32 + (if n % 32 != 0 then 1 else 0))
  }

  /** A bit buffer has room for all positions, a GAP buffer leaves four words of its allocation unused. */
  ghost predicate BufferOk(b: Buffer, capacity: nat) {
    match b
    case NoBuffer => true
    case BitBuffer(bits) => |bits| == ArrayBits(capacity)
    case GapBuffer(words) => |words| == GAPLEN && Gap.Valid(words) && Length(words) <= GAPLEN - 4
  }

  ghost predicate Has(b: Buffer, p: nat) {
    match b
    case NoBuffer => false
    case BitBuffer(bits) => p < |bits| && bits[p]
    case GapBuffer(words) => p <= LAST && Gap.Valid(words) && GapBit(words, p)
  }

  ghost function Members(b: Buffer): set<nat> {
    set p: nat | p <= LAST && Has(b, p)
  }

  ghost predicate AllBelow(s: set<nat>, n: nat) {
    forall p | p in s :: p < n
  }

  lemma SetMembers(b: Buffer, b': Buffer, n: nat, val: bool)
    requires n <= LAST && forall p: nat | p <= LAST :: Has(b', p) == if p == n then val else Has(b, p)
    ensures Members(b') == if val then Members(b) + {n} else Members(b) - {n}
  {
  }

  /** The buffer with no ones that gap_set_all writes. */
  function EmptyGap(): (words: seq<GapWord>)
  {
    [Header(false, 0, 1), LAST] + seq(GAPLEN - 2, i => 0)
  }

  lemma EmptyGapOk(capacity: nat)
    ensures BufferOk(GapBuffer(EmptyGap()), capacity) && Members(GapBuffer(EmptyGap())) == {}
    ensures Length(EmptyGap()) == 1
  {
    var words := EmptyGap();
    HeaderFields(words, false, 0, 1);
    assert words[1..1] + [LAST] == [LAST];
    RunValue(View(words), 0, 0);
  }

  /** gap_set_value on the words of a GAP buffer. */
  method SetInWords(words: seq<GapWord>, n: nat, val: bool) returns (words': seq<GapWord>, newLen: nat)
    requires |words| == GAPLEN && Gap.Valid(words) && Length(words) <= GAPLEN - 4 && n <= LAST
    ensures |words'| == GAPLEN && Gap.Valid(words') && newLen == Length(words') <= GAPLEN - 2
    ensures newLen == GapRuns.NewRuns(words, n, val) <= Length(words) + 2
    ensures Members(GapBuffer(words')) == if val then Members(GapBuffer(words)) + {n} else Members(GapBuffer(words)) - {n}
  {
    hide Members, Gap.Valid;
    var a := new GapWord[GAPLEN](i requires 0 <= i < GAPLEN => words[i]);
    assert a[..] == words;
    var changed;
    GapRuns.NewRunsBound(words, n, val);
    changed, newLen := GapEdit.SetValue(a, n, val);
    words' := a[..];
    SetsMembers(words, words', n, val);
  }

  lemma SetsMembers(w: seq<GapWord>, w': seq<GapWord>, n: nat, val: bool)
    requires Gap.Valid(w) && n <= LAST && GapEdit.Sets(w, w', n, val)
    ensures Gap.Valid(w')
    ensures Members(GapBuffer(w')) == if val then Members(GapBuffer(w)) + {n} else Members(GapBuffer(w)) - {n}
  {
    SetMembers(GapBuffer(w), GapBuffer(w'), n, val);
  }

  /** convert_buf: a bit buffer with the same members. */
  method Convert(words: seq<GapWord>, capacity: nat) returns (b: Buffer)
    requires Gap.Valid(words) && capacity <= MAX_BITS && AllBelow(Members(GapBuffer(words)), capacity)
    ensures b.BitBuffer? && BufferOk(b, capacity) && Members(b) == Members(GapBuffer(words))
  {
    var a := new bool[ArrayBits(capacity)];
    forall p | 0 <= p <= LAST && BitAt(View(words), p) == true ensures p < a.Length {
      assert p in Members(GapBuffer(words));
    }
    GapBlock.ConvertToBlock(a, words);
    b := BitBuffer(a[..]);
    forall p: nat | p <= LAST ensures Has(b, p) == Has(GapBuffer(words), p) {
      if p >= a.Length {
        assert p !in Members(GapBuffer(words));
      }
    }
  }

  class MiniSet {
    const capacity: nat
    var buf: Buffer
    var isGap: bool

    ghost predicate Valid()
      reads this
    {
      && capacity <= MAX_BITS && BufferOk(buf, capacity) && (buf.GapBuffer? ==> isGap) && (buf.BitBuffer? ==> !isGap)
      && AllBelow(Contents(), capacity)
    }

    ghost function Contents(): set<nat>
      reads this
    {
      Members(buf)
    }

    constructor (capacity: nat)
      requires capacity <= MAX_BITS
      ensures Valid() && Contents() == {} && this.capacity == capacity
    {
      this.capacity := capacity;
      buf, isGap := NoBuffer, true;
    }

    constructor Copy(other: MiniSet)
      requires other.Valid()
      ensures Valid() && Contents() == other.Contents() && capacity == other.capacity
    {
      capacity := other.capacity;
      buf, isGap := other.buf, other.isGap;
    }

    /** test. */
    method Test(n: nat) returns (r: bool)
      requires Valid() && n < capacity
      ensures r <==> n in Contents()
    {
      if buf.NoBuffer? {
        r := false;
      } else if isGap {
        r := GapEdit.Test(buf.words, n);
      } else {
        r := buf.bits[n];
      }
    }

    /** set: in the bit buffer, or in the GAP buffer, which is converted when it got too long. */
    method Set(n: nat, val: bool)
      requires Valid() && n < capacity
      modifies this
      ensures Valid() && Contents() == if val then old(Contents()) + {n} else old(Contents()) - {n}
      ensures old(buf.BitBuffer?) ==> buf.BitBuffer?
      ensures old(buf.NoBuffer?) ==> if !val then buf.NoBuffer? else if old(isGap) then buf.GapBuffer? else buf.BitBuffer?
      ensures old(buf.GapBuffer?) ==> if GapRuns.NewRuns(old(buf.words), n, val) > GAPLEN - 4 then buf.BitBuffer? else buf.GapBuffer?
    {
      hide Members, Gap.Valid;
      if buf.NoBuffer? {
        NoMembers(ArrayBits(capacity));
        if !val {
          return;
        }
        EmptyGapOk(capacity);
        buf := if isGap then GapBuffer(EmptyGap()) else BitBuffer(seq(ArrayBits(capacity), i => false));
      }
      ghost var b := buf;
      if isGap {
        var words, newLen := SetInWords(buf.words, n, val);
        buf := GapBuffer(words);
        if newLen > GAPLEN - 4 {
          buf := Convert(words, capacity);
          isGap := false;
        }
      } else {
        buf := BitBuffer(buf.bits[n := val]);
        SetMembers(b, buf, n, val);
      }
    }

    /** swap. */
    method Swap(other: MiniSet)
      requires Valid() && other.Valid() && capacity == other.capacity
      modifies this, other
      ensures Valid() && other.Valid()
      ensures Contents() == old(other.Contents()) && other.Contents() == old(Contents())
    {
      hide Members, BufferOk, AllBelow;
      buf, other.buf := other.buf, buf;
      isGap, other.isGap := other.isGap, isGap;
    }
  }

  lemma NoMembers(n: nat)
    ensures Members(NoBuffer) == {}
    ensures Members(BitBuffer(seq(n, i => false))) == {}
  {
  }

  // ---------------------------------------------------------------- whole runs

  /** Operations on two sets: one of them changes, one becomes a copy of the other, or they are exchanged. */
  datatype Command = PutBit(first: bool, n: nat, val: bool) | CopyOver(first: bool) | Exchange

  datatype Pair = Pair(first: set<nat>, second: set<nat>)

  ghost function Updated(s: set<nat>, n: nat, val: bool): set<nat> {
    if val then s + {n} else s - {n}
  }

  ghost function Next(c: Command, p: Pair): Pair {
    match c
    case PutBit(first, n, val) => if first then p.(first := Updated(p.first, n, val)) else p.(second := Updated(p.second, n, val))
    case CopyOver(first) => if first then Pair(p.second, p.second) else Pair(p.first, p.first)
    case Exchange => Pair(p.second, p.first)
  }

  ghost function Outcome(cmds: seq<Command>, p: Pair): Pair {
    if cmds == [] then p else Next(cmds[|cmds| - 1], Outcome(cmds[..|cmds| - 1], p))
  }

  /** Runs commands on two new sets; the contents follow the plain sets, through any conversion of the buffers. */
  method Run(capacity: nat, cmds: seq<Command>) returns (a: MiniSet, b: MiniSet)
    requires capacity <= MAX_BITS && forall i | 0 <= i < |cmds| && cmds[i].PutBit? :: cmds[i].n < capacity
    ensures a.Valid() && b.Valid() && Pair(a.Contents(), b.Contents()) == Outcome(cmds, Pair({}, {}))
  {
    hide Members, BufferOk, AllBelow;
    a := new MiniSet(capacity);
    b := new MiniSet(capacity);
    for i := 0 to |cmds|
      invariant fresh(a) && fresh(b) && a != b && a.Valid() && b.Valid() && a.capacity == b.capacity == capacity
      invariant Pair(a.Contents(), b.Contents()) == Outcome(cmds[..i], Pair({}, {}))
    {
      assert cmds[..i + 1][..i] == cmds[..i];
      var c := cmds[i];
      if c.PutBit? {
        (if c.first then a else b).Set(c.n, c.val);
      } else if c.Exchange? {
        a.Swap(b);
      } else {
        var copy := new MiniSet.Copy(if c.first then b else a);
        a, b := if c.first then copy else a, if c.first then b else copy;
      }
    }
    assert cmds[..|cmds|] == cmds;
  }
}
