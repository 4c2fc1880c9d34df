/**
 Bit strings: the Boolean operations on them, and how their bits are counted.
 */
module BitString {
  /** The bit functors and_op, or_op, xor_op and sub_op. */
  datatype BoolOp = And | Or | Xor | Sub

  predicate Apply(op: BoolOp, x: bool, y: bool) {
    match op
    case And => x && y
    case Or => x || y
    case Xor => x != y
    case Sub => x && !y
  }

  /** op applied position by position. */
  ghost function Pointwise(op: BoolOp, s: seq<bool>, t: seq<bool>): (r: seq<bool>)
    requires |s| == |t|
    ensures |r| == |s| && forall p {:trigger r[p]} | 0 <= p < |s| :: r[p] == Apply(op, s[p], t[p])
  {
    seq(|s|, p requires 0 <= p < |s| => Apply(op, s[p], t[p]))
  }

  /** The number of positions in 1..n-1 whose bit differs from the bit before. */
  function Changes(s: seq<bool>, n: nat): (c: nat)
    requires n <= |s|
  {
    if n <= 1 then 0 else Changes(s, n - 1) + (if s[n - 1] != s[n - 2] then 1 else 0)
  }

  /** The number of maximal runs of equal bits. */
  function RunCount(s: seq<bool>): (c: nat)
    requires |s| > 0
  {
    1 + Changes(s, |s|)
  }

  lemma {:induction false} ChangesMonotone(s: seq<bool>, m: nat, n: nat)
    requires m <= n <= |s|
    ensures Changes(s, m) <= Changes(s, n)
  {
    if m < n {
      ChangesMonotone(s, m, n - 1);
    }
  }

  /** No change inside a constant stretch. */
  lemma {:induction false} ChangesConstant(s: seq<bool>, m: nat, n: nat)
    requires 1 <= m <= n <= |s| && forall p | m <= p < n :: s[p] == s[m - 1]
    ensures Changes(s, n) == Changes(s, m)
  {
    if m < n {
      ChangesConstant(s, m, n - 1);
    }
  }

  /** One bit differing makes at most two more changes. */
  lemma {:induction false} ChangesUpdate(s: seq<bool>, p: nat, v: bool, n: nat)
    requires p < |s| && n <= |s|
    ensures Changes(s[p := v], n) <= Changes(s, n) + (if n <= p then 0 else if n == p + 1 then 1 else 2)
  {
    if n > 0 {
      ChangesUpdate(s, p, v, n - 1);
    }
  }

  /** A copy of t inside s at m has the changes of t, besides the one at its border. */
  lemma {:induction false} ChangesCopy(s: seq<bool>, m: nat, t: seq<bool>, n: nat)
    requires 1 <= n <= |t| && m + n <= |s| && forall i | 0 <= i < n :: s[m + i] == t[i]
    ensures Changes(s, m + n) == Changes(s, m + 1) + Changes(t, n)
  {
    if n > 1 {
      ChangesCopy(s, m, t, n - 1);
      assert s[m + (n - 1)] == t[n - 1] && s[m + (n - 2)] == t[n - 2];
    }
  }

  lemma ChangesAppend(s: seq<bool>, m: nat, t: seq<bool>)
    requires 0 < |t| && m + |t| <= |s| && forall i | 0 <= i < |t| :: s[m + i] == t[i]
    ensures Changes(s, m + |t|)
         == Changes(s, m) + (if m > 0 && s[m] != s[m - 1] then 1 else 0) + Changes(t, |t|)
  {
    ChangesCopy(s, m, t, |t|);
  }

  /** The number of ones in s[lo..hi]. */
  function Count(s: seq<bool>, lo: nat, hi: nat): (c: nat)
    requires lo <= hi <= |s|
    ensures c <= hi - lo
  {
    if lo == hi then 0 else Count(s, lo, hi - 1) + (if s[hi - 1] then 1 else 0)
  }

  lemma NothingCounted(s: seq<bool>, lo: nat)
    requires lo <= |s|
    ensures Count(s, lo, lo) == 0 && Changes(s, 0) == 0
  {
  }

  lemma {:induction false} CountSplit(s: seq<bool>, lo: nat, mid: nat, hi: nat)
    requires lo <= mid <= hi <= |s|
    ensures Count(s, lo, hi) == Count(s, lo, mid) + Count(s, mid, hi)
  {
    if mid < hi {
      CountSplit(s, lo, mid, hi - 1);
    }
  }

  lemma {:induction false} CountCopy(s: seq<bool>, lo: nat, t: seq<bool>, n: nat)
    requires lo + n <= |s| && n <= |t| && forall i | 0 <= i < n :: s[lo + i] == t[i]
    ensures Count(s, lo, lo + n) == Count(t, 0, n)
  {
    if n > 0 {
      CountCopy(s, lo, t, n - 1);
      assert s[lo + (n - 1)] == t[n - 1];
    }
  }

  lemma {:induction false} CountConstant(s: seq<bool>, lo: nat, hi: nat, v: bool)
    requires lo <= hi <= |s| && forall p | lo <= p < hi :: s[p] == v
    ensures Count(s, lo, hi) == if v then hi - lo else 0
  {
    if lo < hi {
      CountConstant(s, lo, hi - 1, v);
    }
  }

  /** The count is the size of the set of positions holding a one. */
  lemma {:induction false} CountIsCardinality(s: seq<bool>, lo: nat, hi: nat)
    requires lo <= hi <= |s|
    ensures Count(s, lo, hi) == |set p | lo <= p < hi && s[p]|
  {
    if lo < hi {
      CountIsCardinality(s, lo, hi - 1);
      var a := set p | lo <= p < hi - 1 && s[p];
      var b := set p | lo <= p < hi && s[p];
      assert b == if s[hi - 1] then a + {hi - 1} else a;
    }
  }

  /** The positions below n that hold a one, in increasing order. */
  function Positions(s: seq<bool>, n: nat): (r: seq<nat>)
    requires n <= |s|
  {
    if n == 0 then [] else Positions(s, n - 1) + (if s[n - 1] then [n - 1] else [])
  }

  lemma {:induction false} PositionsCount(s: seq<bool>, n: nat)
    requires n <= |s|
    ensures |Positions(s, n)| == Count(s, 0, n)
  {
    if n > 0 {
      PositionsCount(s, n - 1);
    }
  }

  lemma {:induction false} PositionsZeros(s: seq<bool>, m: nat, n: nat)
    requires m <= n <= |s| && forall p | m <= p < n :: !s[p]
    ensures Positions(s, n) == Positions(s, m)
  {
    if m < n {
      PositionsZeros(s, m, n - 1);
    }
  }

  /** Positions lists exactly the positions holding a one, each after the smaller ones. */
  lemma {:induction false} PositionsSorted(s: seq<bool>, n: nat)
    requires n <= |s|
    ensures forall i | 0 <= i < |Positions(s, n)| :: Positions(s, n)[i] < n && s[Positions(s, n)[i]]
    ensures forall i, j | 0 <= i < j < |Positions(s, n)| :: Positions(s, n)[i] < Positions(s, n)[j]
    ensures forall p | 0 <= p < n && s[p] :: p in Positions(s, n)
  {
    if n > 0 {
      PositionsSorted(s, n - 1);
    }
  }

  /** The first position from k on where s and t differ decides: 1 when s has the one there, -1 when t has. */
  function Lex(s: seq<bool>, t: seq<bool>, k: nat): (r: int)
    requires |s| == |t| && k <= |s|
    decreases |s| - k
  {
    if k == |s| then 0 else if s[k] == t[k] then Lex(s, t, k + 1) else if s[k] then 1 else -1
  }

  lemma {:induction false} LexSkip(s: seq<bool>, t: seq<bool>, k: nat, m: nat)
    requires |s| == |t| && k <= m <= |s| && forall i | k <= i < m :: s[i] == t[i]
    ensures Lex(s, t, k) == Lex(s, t, m)
    decreases m - k
  {
    if k < m {
      LexSkip(s, t, k + 1, m);
    }
  }

  /** Lex is 0 on equal strings, and otherwise names the side with a one at the first difference. */
  lemma {:induction false} LexMeaning(s: seq<bool>, t: seq<bool>, k: nat)
    requires |s| == |t| && k <= |s|
    ensures Lex(s, t, k) == 0 <==> forall i | k <= i < |s| :: s[i] == t[i]
    ensures Lex(s, t, k) != 0 ==> Lex(s, t, k) == 1 || Lex(s, t, k) == -1
    ensures Lex(s, t, k) != 0 ==> exists m | k <= m < |s| :: s[m] != t[m] && s[m] == (Lex(s, t, k) == 1) && Agree(s, t, k, m)
    decreases |s| - k
  {
    if k < |s| {
      if s[k] == t[k] {
        LexMeaning(s, t, k + 1);
        if Lex(s, t, k) != 0 {
          var m :| k + 1 <= m < |s| && s[m] != t[m] && s[m] == (Lex(s, t, k + 1) == 1) && Agree(s, t, k + 1, m);
          assert Agree(s, t, k, m);
        }
      } else {
        assert Agree(s, t, k, k);
      }
    }
  }

  ghost predicate Agree(s: seq<bool>, t: seq<bool>, k: nat, m: nat) {
    k <= m <= |s| && m <= |t| && forall i | k <= i < m :: s[i] == t[i]
  }
}
