/**
 Counting and listing the ones of a GAP buffer: gap_bit_count, gap_convert_to_arr.
 */
module GapArray {
  import opened BitString
  import opened Gap
  import GapMerge

  /** Run k adds its length when its value is one. */
  lemma CountRun(g: Runs, k: nat)
    requires Canonical(g) && k < |g.ends|
    ensures 0 <= After(g, k) < After(g, k + 1) <= MAX_BITS
    ensures Count(Bits(g), 0, After(g, k + 1))
         == Count(Bits(g), 0, After(g, k)) + (if g.start != Odd(k) then After(g, k + 1) - After(g, k) else 0)
  {
    hide Odd;
    RunValue(g, k, After(g, k));
    CountConstant(Bits(g), After(g, k), After(g, k + 1), g.start != Odd(k));
    CountSplit(Bits(g), 0, After(g, k), After(g, k + 1));
  }

  /** The number of ones in a buffer (gap_bit_count). */
  method BitCount(buf: seq<GapWord>) returns (count: nat)
    requires Valid(buf)
    ensures count == Count(GapBits(buf), 0, MAX_BITS)
  {
    hide Count, Bits, BitAt;
    ghost var g := View(buf);
    NothingCounted(Bits(g), 0);
    var len := Length(buf);
    assert forall i | 1 <= i <= len :: g.ends[i - 1] == buf[i];
    count := 0;
    var k := 1;
    CountRun(g, 0);
    if Start(buf) {
      count := count + buf[k] as int + 1;
      k := k + 1;
      if len > 1 {
        CountRun(g, 1);
      }
    }
    k := k + 1;
    while k <= len
      invariant 2 <= k <= len + 2 && g.start != Odd(k - 1)
      invariant count == Count(Bits(g), 0, After(g, k - 1))
    {
      CountRun(g, k - 1);
      if k < len {
        CountRun(g, k);
      }
      count := count + (buf[k] as int - buf[k - 1]);
      k := k + 2;
    }
  }

  /** The list holds exactly the ones of s below n. */
  ghost predicate Listed(dest: seq<GapWord>, len: nat, s: seq<bool>, n: nat) {
    n <= |s| && len <= |dest| && |Positions(s, n)| == len && forall i | 0 <= i < len :: dest[i] == Positions(s, n)[i]
  }

  lemma ListedZeros(dest: seq<GapWord>, len: nat, s: seq<bool>, m: nat, n: nat)
    requires Listed(dest, len, s, m) && m <= n <= |s| && forall p | m <= p < n :: !s[p]
    ensures Listed(dest, len, s, n)
  {
    PositionsZeros(s, m, n);
  }

  /** Appends the positions from..to, all ones. */
  method AppendRun(dest: array<GapWord>, n: nat, from: nat, to: GapWord, ghost s: seq<bool>) returns (n': nat)
    requires Listed(dest[..], n, s, from) && from <= to < |s| && n + (to - from) < dest.Length
    requires forall p | from <= p <= to :: s[p]
    modifies dest
    ensures n' == n + (to - from) + 1 && Listed(dest[..], n', s, to + 1)
  {
    n' := n;
    var i := from;
    while i <= to
      invariant from <= i <= to + 1 && n' == n + (i - from)
      invariant Listed(dest[..], n', s, i)
    {
      dest[n'] := i;
      n', i := n' + 1, i + 1;
    }
  }

  lemma CountGrows(s: seq<bool>, m: nat, n: nat)
    requires m <= n <= |s|
    ensures Count(s, 0, m) <= Count(s, 0, n)
  {
    CountSplit(s, 0, m, n);
  }

  lemma ListedCount(dest: seq<GapWord>, len: nat, s: seq<bool>, n: nat)
    requires Listed(dest, len, s, n)
    ensures len == Count(s, 0, n)
  {
    PositionsCount(s, n);
  }

  /** Run k of ones is appended when there is room left for more than its length; then run k + 1 is skipped. */
  method ListRun(dest: array<GapWord>, n: nat, room: nat, ghost g: Runs, ghost k: nat, from: nat, to: GapWord)
    returns (ok: bool, n': nat)
    requires Canonical(g) && k < |g.ends| && g.start != Odd(k) && from == After(g, k) && to == g.ends[k]
    requires Listed(dest[..], n, Bits(g), from) && n + room <= dest.Length + 1
    modifies dest
    ensures ok == (to - from + 1 < room)
    ensures if ok then n' == n + (to - from + 1) && Listed(dest[..], n', Bits(g), After(g, k + 2))
            else Count(Bits(g), 0, MAX_BITS) >= n + room
  {
    hide Listed, Bits;
    RunValue(g, k, from);
    n' := n;
    ok := to as int - from + 1 < room;
    if ok {
      n' := AppendRun(dest, n, from, to, Bits(g));
      if k + 1 < |g.ends| {
        RunValue(g, k + 1, to as int + 1);
        ListedZeros(dest[..], n', Bits(g), to as int + 1, After(g, k + 2));
      }
    } else {
      CountRun(g, k);
      ListedCount(dest[..], n, Bits(g), from);
      CountGrows(Bits(g), to as int + 1, MAX_BITS);
    }
  }

  /** The bits that are listed: those of the buffer, or their complements. */
  ghost function Shown(buf: seq<GapWord>, invert: bool): (s: seq<bool>)
    requires Valid(buf)
    ensures |s| == MAX_BITS
  {
    Bits(GapMerge.Masked(buf, invert))
  }

  lemma ShownBits(buf: seq<GapWord>, invert: bool)
    requires Valid(buf)
    ensures Shown(buf, false) == GapBits(buf)
    ensures forall p | 0 <= p <= LAST :: Shown(buf, invert)[p] == (GapBits(buf)[p] != invert)
  {
    assert GapMerge.Masked(buf, false) == View(buf);
  }

  /**
   When the ones of g fit destLen entries: with an entry to spare, or, since the first run is charged one
   entry too little, exactly when it starts with a run of ones that is not the only one.
   */
  ghost predicate HasRoom(g: Runs, destLen: nat)
    requires Shaped(g)
  {
    var count := Count(Bits(g), 0, MAX_BITS);
    count < destLen || (g.start && count == destLen && g.ends[0] as int + 1 < count)
  }

  /** The loops of gap_convert_to_arr, for runs that start with bitval. */
  method ListAll(dest: array<GapWord>, buf: seq<GapWord>, destLen: nat, bitval: bool, ghost g: Runs) returns (n: nat)
    requires InBuffer(buf) && Canonical(g) && g.start == bitval && g.ends == buf[1..Length(buf) + 1] && destLen <= dest.Length
    modifies dest
    ensures if HasRoom(g, destLen) then Listed(dest[..], n, Bits(g), MAX_BITS) else n == 0
  {
    hide Listed, Bits, Count;
    var len := Length(buf);
    assert forall i | 1 <= i <= len :: g.ends[i - 1] == buf[i];
    ListedNone(dest[..], Bits(g));
    n := 0;
    var room := destLen;
    var k := 1;
    var ok;
    RunValue(g, 0, 0);
    if bitval {
      ok, n := ListRun(dest, 0, room, g, 0, 0, buf[1]);
      if !ok {
        return 0;
      }
      room := room - buf[1];
      k := 2;
    } else {
      ListedZeros(dest[..], 0, Bits(g), 0, After(g, 1));
    }
    k := k + 1;
    while k <= len
      invariant 2 <= k <= len + 2 && g.start != Odd(k - 1)
      invariant 0 <= room && n + room == destLen + (if g.start then 1 else 0) && (n > 0 ==> room >= 1)
      invariant g.start ==> n == buf[1] as int + 1 < destLen || buf[1] as int + 1 < n
      invariant Listed(dest[..], n, Bits(g), After(g, k - 1))
    {
      ok, n := ListRun(dest, n, room, g, k - 1, buf[k - 1] as int + 1, buf[k]);
      if !ok {
        return 0;
      }
      room := room - (buf[k] as int - buf[k - 1]);
      k := k + 2;
    }
    ListedCount(dest[..], n, Bits(g), MAX_BITS);
  }

  /**
   Lists the ones of a buffer, or of its complement (gap_convert_to_arr), and returns how many there are
   in 16 bits, or 0 for lack of room.
   */
  method ToArray(dest: array<GapWord>, buf: seq<GapWord>, destLen: nat, invert: bool) returns (n: GapWord)
    requires Valid(buf) && destLen <= dest.Length
    modifies dest
    ensures var count := Count(Shown(buf, invert), 0, MAX_BITS);
            if HasRoom(GapMerge.Masked(buf, invert), destLen)
            then Listed(dest[..], count, Shown(buf, invert), MAX_BITS) && n == count % 65536
            else n == 0
  {
    hide Listed, Bits, Count, HasRoom;
    ghost var g := GapMerge.Masked(buf, invert);
    var bitval := Start(buf);
    if invert {
      bitval := !bitval;
    }
    var m := ListAll(dest, buf, destLen, bitval, g);
    if HasRoom(g, destLen) {
      ListedCount(dest[..], m, Bits(g), MAX_BITS);
    }
    n := m % 65536;
  }

  lemma ListedNone(dest: seq<GapWord>, s: seq<bool>)
    ensures Listed(dest, 0, s, 0)
  {
  }
}
