/**
 The length of a canonical GAP buffer is the number of runs of its bits.
 */
module GapRuns {
  import opened BitString
  import opened Gap

  /** Each run end but the last is followed by a change. */
  lemma {:induction false} ChangesAtEnd(g: Runs, k: nat)
    requires Canonical(g) && k < |g.ends|
    ensures Changes(Bits(g), g.ends[k] as int + 1) == k
  {
    hide Bits, BitAt;
    var s := Bits(g);
    if k == 0 {
      RunValue(g, 0, 0);
      ChangesConstant(s, 1, g.ends[0] as int + 1);
    } else {
      ChangesAtEnd(g, k - 1);
      var e := g.ends[k - 1] as int + 1;
      RunValue(g, k, e);
      BitOfRun(g, e - 1, k - 1);
      ChangesConstant(s, e + 1, g.ends[k] as int + 1);
    }
  }

  /** Canonical runs are the runs of their bits. */
  lemma RunsAreEnds(g: Runs)
    requires Canonical(g)
    ensures RunCount(Bits(g)) == |g.ends|
  {
    ChangesAtEnd(g, |g.ends| - 1);
  }

  /** A canonical buffer has as many runs as its bits. */
  lemma LengthIsRunCount(buf: seq<GapWord>)
    requires Valid(buf)
    ensures RunCount(GapBits(buf)) == Length(buf)
  {
    RunsAreEnds(View(buf));
  }

  /** The number of runs once bit pos has value val. */
  ghost function NewRuns(buf: seq<GapWord>, pos: nat, val: bool): nat
    requires Valid(buf) && pos <= LAST
  {
    RunCount(GapBits(buf)[pos := val])
  }

  /** One bit makes at most two more runs. */
  lemma NewRunsBound(buf: seq<GapWord>, pos: nat, val: bool)
    requires Valid(buf) && pos <= LAST
    ensures NewRuns(buf, pos, val) <= Length(buf) + 2
    ensures val == GapBit(buf, pos) ==> NewRuns(buf, pos, val) == Length(buf)
  {
    LengthIsRunCount(buf);
    ChangesUpdate(GapBits(buf), pos, val, MAX_BITS);
    if val == GapBit(buf, pos) {
      assert GapBits(buf)[pos := val] == GapBits(buf);
    }
  }
}
