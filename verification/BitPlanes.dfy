/**
 The bit-plane codec for arrays of 32-bit words: transposition into planes, a descriptor for every
 plane from the pairwise distances, reduction of the planes and the way back.
 */
module BitPlanes {
  import opened BitString
  import opened BitBlock
  import BitCount

  /** set_block_plain_cnt, set_block_plain_size and the bits of a plane. */
  const PLANES := 32
  const PLANE_WORDS := 64
  const PLANE_BITS := 2048

  /** A row of the matrix: 64 words as a bit string. */
  type Row = r: seq<bool> | |r| == 2048 witness seq(2048, _ => false)

  /** pc_vector element: a code in the low three bits, the number of another plane in the high five. */
  type Byte = x: int | 0 <= x <= 255

  const UNCOMPRESSED := 0
  const ALL_ZERO := 1
  const ALL_ONE := 2
  const EQUIV := 3
  const CLOSE := 4

  function Code(pc: Byte): nat {
    pc % 8
  }

  function Ref(pc: Byte): nat {
    pc / 8
  }

  function MakeCode(code: nat, ref: nat): (pc: Byte)
    requires code < 8 && ref < 32
    ensures Code(pc) == code && Ref(pc) == ref
  {
    8 * ref + code
  }

  // ---------------------------------------------------------------- transposition

  /** The first n bits of a row are bit j of the first n words, the others are those of row0. */
  ghost predicate PlaneOf(row: Row, row0: Row, arr: seq<Word>, j: nat, n: nat) {
    && j < 32 && n <= |arr| && n <= PLANE_BITS
    && forall e | 0 <= e < PLANE_BITS :: row[e] == if e < n then arr[e][j] else row0[e]
  }

  /** Bit j of 32 consecutive words (bit_grabber::get). */
  function Grab(arr: seq<Word>, from: nat, j: nat): Word
    requires from + 32 <= |arr| && j < 32
  {
    seq(32, k requires 0 <= k < 32 => arr[from + k][j])
  }

  /** The row with word q replaced. */
  function PutWord(row: Row, q: nat, w: Word): Row
    requires 32 * q + 32 <= PLANE_BITS
  {
    row[..32 * q] + w + row[32 * q + 32..]
  }

  lemma PlaneGrows(row: Row, row0: Row, arr: seq<Word>, j: nat, col: nat)
    requires 32 * col + 32 <= |arr| && 32 * col + 32 <= PLANE_BITS && PlaneOf(row, row0, arr, j, 32 * col)
    ensures PlaneOf(PutWord(row, col, Grab(arr, 32 * col, j)), row0, arr, j, 32 * col + 32)
  {
    var w := Grab(arr, 32 * col, j);
    var row' := PutWord(row, col, w);
    forall e | 0 <= e < PLANE_BITS ensures row'[e] == if e < 32 * col + 32 then arr[e][j] else row0[e] {
      if 32 * col <= e < 32 * col + 32 {
        assert row'[e] == w[e - 32 * col];
      } else {
        assert row'[e] == row[e];
      }
    }
  }

  lemma PlaneOfNone(row: Row, arr: seq<Word>, j: nat)
    requires j < 32
    ensures PlaneOf(row, row, arr, j, 0)
  {
  }

  /** The columns that arrSize words fill; the last one is filled to its end from the words behind. */
  function Columns(arrSize: nat): (c: nat)
    ensures arrSize <= 32 * c < arrSize + 32
  {
    (arrSize + 31) / 32
  }

  /** Bit e of plane j is bit j of word e, in the first n bits; behind them m is m0. */
  ghost predicate Transposed(m: seq<Row>, m0: seq<Row>, arr: seq<Word>, n: nat) {
    |m| == |m0| == PLANES && n <= |arr| && forall j | 0 <= j < PLANES :: PlaneOf(m[j], m0[j], arr, j, n)
  }

  /** vect_bit_transpose, on the first arrSize words of arr. */
  method Transpose(arr: seq<Word>, arrSize: nat, m: array<Row>)
    requires m.Length == PLANES && arrSize <= PLANE_BITS && 32 * Columns(arrSize) <= |arr|
    modifies m
    ensures Transposed(m[..], old(m[..]), arr, 32 * Columns(arrSize))
  {
    hide PlaneOf, Grab, PutWord, Columns;
    ghost var m0 := m[..];
    forall j | 0 <= j < PLANES ensures PlaneOf(m[j], m0[j], arr, j, 0) {
      PlaneOfNone(m[j], arr, j);
    }
    var i, col := 0, 0;
    while i < arrSize
      invariant 0 <= col <= Columns(arrSize) && i == 32 * col
      invariant forall r | 0 <= r < PLANES :: PlaneOf(m[r], m0[r], arr, r, 32 * col)
    {
      for j := 0 to PLANES
        invariant forall r | 0 <= r < PLANES :: PlaneOf(m[r], m0[r], arr, r, if r < j then 32 * col + 32 else 32 * col)
      {
        PlaneGrows(m[j], m0[j], arr, j, col);
        m[j] := PutWord(m[j], col, Grab(arr, i, j));
      }
      i, col := i + 32, col + 1;
    }
  }

  /** Bit e of every plane (bit_trans_grabber::get). */
  function Gather(m: seq<Row>, e: nat): Word
    requires |m| == PLANES && e < PLANE_BITS
  {
    seq(32, r requires 0 <= r < 32 => m[r][e])
  }

  /** vect_bit_trestore. */
  method TRestore(m: seq<Row>) returns (arr: seq<Word>)
    requires |m| == PLANES
    ensures |arr| == PLANE_BITS && forall e | 0 <= e < PLANE_BITS :: arr[e] == Gather(m, e)
  {
    hide Gather;
    arr := [];
    for i := 0 to PLANE_WORDS
      invariant |arr| == 32 * i && forall e | 0 <= e < 32 * i :: arr[e] == Gather(m, e)
    {
      for j := 0 to PLANES
        invariant |arr| == 32 * i + j && forall e | 0 <= e < 32 * i + j :: arr[e] == Gather(m, e)
      {
        arr := arr + [Gather(m, 32 * i + j)];
      }
    }
  }

  /** The words gathered from the planes are the words the planes were made of. */
  lemma TransposeUndone(arr: seq<Word>, m: seq<Row>, m0: seq<Row>, n: nat, back: seq<Word>)
    requires Transposed(m, m0, arr, n) && n <= PLANE_BITS
    requires |back| == PLANE_BITS && forall e | 0 <= e < PLANE_BITS :: back[e] == Gather(m, e)
    ensures back[..n] == arr[..n]
  {
    forall e | 0 <= e < n ensures back[e] == arr[e] {
      forall j | 0 <= j < 32 ensures Gather(m, e)[j] == arr[e][j] {
        assert PlaneOf(m[j], m0[j], arr, j, n);
      }
      assert Gather(m, e) == arr[e];
    }
  }

  // ---------------------------------------------------------------- distances

  /** The Hamming distance of two rows. */
  ghost function Hamming(a: Row, b: Row): (n: nat)
    ensures n <= PLANE_BITS
  {
    Count(Pointwise(Xor, a, b), 0, PLANE_BITS)
  }

  ghost function Population(a: Row): (n: nat)
    ensures n <= PLANE_BITS
  {
    Count(a, 0, PLANE_BITS)
  }

  lemma {:induction false} NoneCounted(s: seq<bool>, n: nat)
    requires n <= |s|
    ensures Count(s, 0, n) == 0 <==> forall p | 0 <= p < n :: !s[p]
    ensures Count(s, 0, n) == n <==> forall p | 0 <= p < n :: s[p]
  {
    if n > 0 {
      NoneCounted(s, n - 1);
    }
  }

  function Uniformly(v: bool): Row {
    seq(PLANE_BITS, _ => v)
  }

  lemma DistanceZero(a: Row, b: Row)
    ensures Hamming(a, b) == 0 <==> a == b
  {
    var x := Pointwise(Xor, a, b);
    NoneCounted(x, PLANE_BITS);
    assert forall p | 0 <= p < PLANE_BITS :: x[p] <==> a[p] != b[p];
  }

  lemma PopulationExtremes(a: Row)
    ensures Population(a) == 0 <==> a == Uniformly(false)
    ensures Population(a) == PLANE_BITS <==> a == Uniformly(true)
  {
    NoneCounted(a, PLANE_BITS);
  }

  lemma XorWord(a: Row, b: Row, q: nat)
    requires q < PLANE_WORDS
    ensures WordAt(Pointwise(Xor, a, b), q) == Combine(Xor, WordAt(a, q), WordAt(b, q))
  {
  }

  /** The word loop of tmatrix_distance. */
  method CountDifferences(a: Row, b: Row) returns (count: nat)
    ensures count == Hamming(a, b)
  {
    hide Count, WordAt, Combine, BitCount.Pop;
    ghost var x := Pointwise(Xor, a, b);
    NothingCounted(x, 0);
    count := 0;
    for q := 0 to PLANE_WORDS
      invariant count == Count(x, 0, 32 * q)
    {
      XorWord(a, b, q);
      BitCount.CountWord(x, 0, q);
      count := count + BitCount.Pop(Combine(Xor, WordAt(a, q), WordAt(b, q)));
    }
  }

  ghost predicate RowDistances(m: seq<Row>, d: seq<nat>, i: nat, n: nat) {
    && |m| == |d| == PLANES && i < PLANES && n <= PLANES
    && d[i] == Population(m[i]) && forall j | i < j < n :: d[j] == Hamming(m[i], m[j])
  }

  /** Row i of the distance matrix; entries left of the diagonal are not written. */
  method DistanceRow(m: seq<Row>, i: nat) returns (d: seq<nat>)
    requires |m| == PLANES && i < PLANES
    ensures RowDistances(m, d, i, PLANES)
  {
    hide Hamming;
    d := seq(PLANES, _ => 0);
    var c := BitCount.CalcCount(m[i]);
    d := d[i := c];
    for j := i + 1 to PLANES
      invariant RowDistances(m, d, i, j)
    {
      c := CountDifferences(m[i], m[j]);
      d := d[j := c];
    }
  }

  ghost predicate Distances(m: seq<Row>, d: seq<seq<nat>>) {
    |d| == PLANES && forall i | 0 <= i < PLANES :: RowDistances(m, d[i], i, PLANES)
  }

  /** tmatrix_distance. */
  method MatrixDistance(m: seq<Row>) returns (d: seq<seq<nat>>)
    requires |m| == PLANES
    ensures Distances(m, d)
  {
    hide RowDistances;
    d := [];
    for i := 0 to PLANES
      invariant |d| == i && forall k | 0 <= k < i :: RowDistances(m, d[k], k, PLANES)
    {
      var row := DistanceRow(m, i);
      d := d + [row];
    }
  }

  // ---------------------------------------------------------------- descriptors

  /** ref is the first of the rows after row i that are nearest to it. */
  ghost predicate Nearest(m: seq<Row>, i: nat, ref: nat) {
    && |m| == PLANES && i < ref < PLANES
    && (forall j | i < j < PLANES :: Hamming(m[i], m[ref]) <= Hamming(m[i], m[j]))
    && (forall j | i < j < ref :: Hamming(m[i], m[ref]) < Hamming(m[i], m[j]))
  }

  /**
   The descriptor of row i: all zeros, all ones, too dense to bother, equal to a later row, nearer to
   a later row than to zero, or none of these.
   */
  ghost predicate Described(m: seq<Row>, i: nat, pc: Byte)
    requires |m| == PLANES && i < PLANES
  {
    var n := Population(m[i]);
    if n == 0 then pc == ALL_ZERO
    else if n == PLANE_BITS then pc == ALL_ONE
    else if n > PLANE_BITS / 2 || i == PLANES - 1 then pc == UNCOMPRESSED
    else exists ref: nat :: Nearest(m, i, ref) && pc == Choice(Hamming(m[i], m[ref]), n, ref)
  }

  function Choice(distance: nat, population: nat, ref: nat): Byte
    requires ref < PLANES
  {
    if distance == 0 then MakeCode(EQUIV, ref) else if distance < population then MakeCode(CLOSE, ref) else UNCOMPRESSED
  }

  /** The scan for the nearest row has reached row j. */
  ghost predicate Scanning(d: seq<nat>, i: nat, j: nat, rmin: nat, rminIdx: nat) {
    && |d| == PLANES && i < j <= PLANES
    && if j == i + 1 then rmin == 0xffffffff && rminIdx == 0
       else && i < rminIdx < j && rmin == d[rminIdx] > 0
            && (forall k | i < k < j :: rmin <= d[k]) && (forall k | i < k < rminIdx :: rmin < d[k])
  }

  lemma ScanEnds(m: seq<Row>, d: seq<nat>, i: nat, j: nat, rmin: nat, rminIdx: nat)
    requires RowDistances(m, d, i, PLANES) && Scanning(d, i, j, rmin, rminIdx)
    ensures j < PLANES && d[j] == 0 ==> Nearest(m, i, j) && d[j] == Hamming(m[i], m[j])
    ensures j == PLANES && i < PLANES - 1 ==> Nearest(m, i, rminIdx) && rmin == Hamming(m[i], m[rminIdx])
  {
    hide Hamming;
  }

  /** bit_iblock_make_pcv for one row. */
  method RowDescriptor(d: seq<nat>, i: nat, ghost m: seq<Row>) returns (pc: Byte)
    requires RowDistances(m, d, i, PLANES)
    ensures Described(m, i, pc)
  {
    hide Hamming, Population, Nearest;
    var n := d[i];
    if n == 0 {
      return ALL_ZERO;
    }
    if n == PLANE_BITS {
      return ALL_ONE;
    }
    if n > PLANE_BITS / 2 {
      return UNCOMPRESSED;
    }
    pc := UNCOMPRESSED;
    var rmin: nat, rminIdx: nat := 0xffffffff, 0;
    var j := i + 1;
    while j < PLANES
      invariant pc == UNCOMPRESSED && Scanning(d, i, j, rmin, rminIdx)
    {
      if d[j] < rmin {
        if d[j] == 0 {
          ScanEnds(m, d, i, j, rmin, rminIdx);
          return MakeCode(EQUIV, j);
        }
        rmin, rminIdx := d[j], j;
      }
      j := j + 1;
    }
    ScanEnds(m, d, i, j, rmin, rminIdx);
    if rminIdx != 0 && rmin < n {
      pc := MakeCode(CLOSE, rminIdx);
    }
  }

  ghost predicate AllDescribed(m: seq<Row>, pcs: seq<Byte>) {
    |m| == |pcs| == PLANES && forall i | 0 <= i < PLANES :: Described(m, i, pcs[i])
  }

  /** bit_iblock_make_pcv. */
  method MakePcv(d: seq<seq<nat>>, ghost m: seq<Row>) returns (pcs: seq<Byte>)
    requires |m| == PLANES && Distances(m, d)
    ensures AllDescribed(m, pcs)
  {
    hide RowDistances, Described;
    pcs := [];
    for i := 0 to PLANES
      invariant |pcs| == i && forall k | 0 <= k < i :: Described(m, k, pcs[k])
    {
      var pc := RowDescriptor(d[i], i, m);
      pcs := pcs + [pc];
    }
  }

  /** Row j after row i is nearer than d. */
  ghost predicate NearerLater(m: seq<Row>, i: nat, d: nat)
    requires |m| == PLANES && i < PLANES
  {
    exists j | i < j < PLANES :: Hamming(m[i], m[j]) < d
  }

  /**
   What the codes mean: a row that is neither constant nor dense is EQUIV exactly when a later row is equal, CLOSE
   exactly when none is but a later row is nearer than the row has ones, and refers to the nearest then.
   */
  lemma DescribedExactly(m: seq<Row>, i: nat, pc: Byte)
    requires |m| == PLANES && i < PLANES && Described(m, i, pc)
    ensures var n := Population(m[i]);
            var candidate := 0 < n < PLANE_BITS && n <= PLANE_BITS / 2;
            && (Code(pc) == ALL_ZERO <==> n == 0) && (Code(pc) == ALL_ONE <==> n == PLANE_BITS)
            && (Code(pc) == EQUIV <==> candidate && NearerLater(m, i, 1))
            && (Code(pc) == CLOSE <==> candidate && NearerLater(m, i, n) && !NearerLater(m, i, 1))
            && (Code(pc) == EQUIV || Code(pc) == CLOSE ==> Nearest(m, i, Ref(pc)))
  {
    hide Hamming, Population, NearerLater, Code, Ref, Choice;
    PlainCodes();
    var n := Population(m[i]);
    if i == PLANES - 1 {
      LastHasNoLater(m, 1);
      LastHasNoLater(m, n);
    } else if 0 < n < PLANE_BITS && n <= PLANE_BITS / 2 {
      var ref: nat :| Nearest(m, i, ref) && pc == Choice(Hamming(m[i], m[ref]), n, ref);
      NearestDecides(m, i, ref, 1);
      NearestDecides(m, i, ref, n);
      ChoiceCodes(Hamming(m[i], m[ref]), n, ref);
    }
  }

  lemma PlainCodes()
    ensures Code(UNCOMPRESSED) == UNCOMPRESSED && Code(ALL_ZERO) == ALL_ZERO && Code(ALL_ONE) == ALL_ONE
  {
  }

  lemma ChoiceCodes(distance: nat, population: nat, ref: nat)
    requires ref < PLANES && population > 0
    ensures var pc := Choice(distance, population, ref);
            && (Code(pc) == EQUIV <==> distance < 1) && (Code(pc) == CLOSE <==> 1 <= distance < population)
            && Code(pc) != ALL_ZERO && Code(pc) != ALL_ONE
            && (Code(pc) == EQUIV || Code(pc) == CLOSE ==> Ref(pc) == ref)
  {
  }

  lemma LastHasNoLater(m: seq<Row>, d: nat)
    requires |m| == PLANES
    ensures !NearerLater(m, PLANES - 1, d)
  {
  }

  /** Whether any later row is nearer than d, the nearest one tells. */
  lemma NearestDecides(m: seq<Row>, i: nat, ref: nat, d: nat)
    requires i < PLANES && Nearest(m, i, ref)
    ensures ref < PLANES && (NearerLater(m, i, d) <==> Hamming(m[i], m[ref]) < d)
  {
    hide Hamming;
  }

  /** A code says the truth about the row, and refers to a later row only. */
  ghost predicate Sound(m: seq<Row>, i: nat, pc: Byte)
    requires |m| == PLANES && i < PLANES
  {
    && Code(pc) <= CLOSE
    && (Code(pc) == ALL_ZERO ==> m[i] == Uniformly(false))
    && (Code(pc) == ALL_ONE ==> m[i] == Uniformly(true))
    && (Code(pc) == EQUIV || Code(pc) == CLOSE ==> i < Ref(pc) < PLANES)
    && (Code(pc) == EQUIV && Ref(pc) < PLANES ==> m[i] == m[Ref(pc)])
  }

  lemma DescribedSound(m: seq<Row>, i: nat, pc: Byte)
    requires |m| == PLANES && i < PLANES && Described(m, i, pc)
    ensures Sound(m, i, pc)
  {
    hide Hamming, Population, Uniformly;
    PopulationExtremes(m[i]);
    if Code(pc) == EQUIV {
      DistanceZero(m[i], m[Ref(pc)]);
    }
  }

  // ---------------------------------------------------------------- reduction

  /** References go to later rows. */
  predicate Forward(pcs: seq<Byte>) {
    && |pcs| == PLANES
    && forall r | 0 <= r < PLANES :: Code(pcs[r]) <= CLOSE && (Code(pcs[r]) >= EQUIV ==> r < Ref(pcs[r]) < PLANES)
  }

  function XorRows(a: Row, b: Row): Row {
    seq(PLANE_BITS, p requires 0 <= p < PLANE_BITS => a[p] != b[p])
  }

  /** c has its ones exactly where a and b differ. */
  ghost predicate Differences(c: Row, a: Row, b: Row) {
    forall p | 0 <= p < PLANE_BITS :: c[p] <==> a[p] != b[p]
  }

  lemma XorDifferences(a: Row, b: Row)
    ensures Differences(XorRows(a, b), a, b)
  {
  }

  /** The ones of the differences are as many as the distance. */
  lemma DifferencesCount(c: Row, a: Row, b: Row)
    requires Differences(c, a, b)
    ensures Population(c) == Hamming(a, b)
  {
    assert c == Pointwise(Xor, a, b);
  }

  lemma XorTwice(a: Row, b: Row)
    ensures XorRows(XorRows(a, b), b) == a
  {
  }

  lemma XorPrefix(a: Row, b: Row, c: Row, q: nat)
    requires q < PLANE_WORDS && forall p | 0 <= p < PLANE_BITS :: c[p] == if p < 32 * q then XorRows(a, b)[p] else a[p]
    ensures var c' := PutWord(c, q, Combine(Xor, WordAt(c, q), WordAt(b, q)));
            forall p | 0 <= p < PLANE_BITS :: c'[p] == if p < 32 * q + 32 then XorRows(a, b)[p] else a[p]
  {
    var w := Combine(Xor, WordAt(c, q), WordAt(b, q));
    var c' := PutWord(c, q, w);
    forall p | 0 <= p < PLANE_BITS ensures c'[p] == if p < 32 * q + 32 then XorRows(a, b)[p] else a[p] {
      if 32 * q <= p < 32 * q + 32 {
        assert c'[p] == w[p - 32 * q];
        assert WordAt(c, q)[p - 32 * q] == c[p] && WordAt(b, q)[p - 32 * q] == b[p];
      } else {
        assert c'[p] == c[p];
      }
    }
  }

  /** r1[i] ^= r2[i], word by word. */
  method XorRow(a: Row, b: Row) returns (c: Row)
    ensures c == XorRows(a, b)
  {
    hide WordAt, Combine, PutWord, XorRows;
    c := a;
    for q := 0 to PLANE_WORDS
      invariant forall p | 0 <= p < PLANE_BITS :: c[p] == if p < 32 * q then XorRows(a, b)[p] else a[p]
    {
      XorPrefix(a, b, c, q);
      c := PutWord(c, q, Combine(Xor, WordAt(c, q), WordAt(b, q)));
    }
  }

  /** What row r is reduced to. */
  ghost function ReducedRow(m: seq<Row>, pcs: seq<Byte>, r: nat): Row
    requires |m| == PLANES && Forward(pcs) && r < PLANES
  {
    if Code(pcs[r]) == CLOSE then XorRows(m[r], m[Ref(pcs[r])]) else m[r]
  }

  /** A close row has become its differences to the row referred to, as many ones as their distance; others are as they were. */
  ghost predicate Shrunk(row: Row, m: seq<Row>, pcs: seq<Byte>, r: nat)
    requires |m| == PLANES && Forward(pcs) && r < PLANES
  {
    if Code(pcs[r]) == CLOSE
    then Differences(row, m[r], m[Ref(pcs[r])]) && Population(row) == Hamming(m[r], m[Ref(pcs[r])])
    else row == m[r]
  }

  lemma ReducedShrunk(m: seq<Row>, pcs: seq<Byte>, r: nat)
    requires |m| == PLANES && Forward(pcs) && r < PLANES
    ensures Shrunk(ReducedRow(m, pcs, r), m, pcs, r)
  {
    hide XorRows, Differences;
    if Code(pcs[r]) == CLOSE {
      XorDifferences(m[r], m[Ref(pcs[r])]);
      DifferencesCount(ReducedRow(m, pcs, r), m[r], m[Ref(pcs[r])]);
    }
  }

  /** Reduction makes every close row sparser: this is what the codec is for. */
  lemma ReductionPays(m: seq<Row>, pcs: seq<Byte>, r: nat, row: Row)
    requires AllDescribed(m, pcs) && Forward(pcs) && r < PLANES && Code(pcs[r]) == CLOSE && Shrunk(row, m, pcs, r)
    ensures Population(row) < Population(m[r])
  {
    hide Hamming, Population, Nearest, Differences;
    assert Described(m, r, pcs[r]);
  }

  /** tmatrix_reduce: in place, top-down, so that a row is combined with a row not yet reduced. */
  method Reduce(m: array<Row>, pcs: seq<Byte>)
    requires m.Length == PLANES && Forward(pcs)
    modifies m
    ensures forall r | 0 <= r < PLANES :: m[r] == ReducedRow(old(m[..]), pcs, r)
    ensures forall r | 0 <= r < PLANES :: Shrunk(m[r], old(m[..]), pcs, r)
  {
    hide XorRows, Shrunk;
    forall r | 0 <= r < PLANES ensures Shrunk(ReducedRow(old(m[..]), pcs, r), old(m[..]), pcs, r) {
      ReducedShrunk(old(m[..]), pcs, r);
    }
    for row := 0 to PLANES
      invariant forall r | 0 <= r < row :: m[r] == ReducedRow(old(m[..]), pcs, r)
      invariant forall r | row <= r < PLANES :: m[r] == old(m[r])
    {
      if Code(pcs[row]) == CLOSE {
        m[row] := XorRow(m[row], m[Ref(pcs[row])]);
      }
    }
  }

  /**
   bit_iblock_reduce: the reduced rows go to another matrix.  Its memset clears the size of a pointer
   only, two words, so the rows that carry no information keep what was there.
   */
  method ReduceTo(m: seq<Row>, pcs: seq<Byte>, out: array<Row>)
    requires |m| == out.Length == PLANES && Forward(pcs)
    modifies out
    ensures Carries(out[..], m, pcs)
    ensures forall r | 0 <= r < PLANES && Keeps(pcs[r]) :: Shrunk(out[r], m, pcs, r)
    ensures forall r | 0 <= r < PLANES && !Keeps(pcs[r]) :: out[r] == if r == 0 then FrontCleared(old(out[0])) else old(out[r])
    ensures !Keeps(pcs[0]) ==> forall p | 0 <= p < PLANE_BITS :: out[0][p] <==> p >= 64 && old(out[0])[p]
  {
    hide XorRows, Forward, FrontCleared, Shrunk;
    ForwardRefs(pcs);
    forall r | 0 <= r < PLANES ensures Shrunk(ReducedRow(m, pcs, r), m, pcs, r) {
      ReducedShrunk(m, pcs, r);
    }
    FrontBits(out[0]);
    out[0] := FrontCleared(out[0]);
    for row := 0 to PLANES
      invariant forall r | 0 <= r < row && Keeps(pcs[r]) :: out[r] == ReducedRow(m, pcs, r)
      invariant forall r | 0 <= r < PLANES && (r >= row || !Keeps(pcs[r])) ::
                  out[r] == if r == 0 then FrontCleared(old(out[0])) else old(out[r])
    {
      if Code(pcs[row]) == UNCOMPRESSED {
        out[row] := m[row];
      } else if Code(pcs[row]) == CLOSE {
        out[row] := XorRow(m[row], m[Ref(pcs[row])]);
      }
    }
  }

  lemma FrontBits(row: Row)
    ensures forall p | 0 <= p < PLANE_BITS :: FrontCleared(row)[p] <==> p >= 64 && row[p]
  {
    var none: Word := seq(32, _ => false);
    var first := PutWord(row, 0, none);
    forall p | 0 <= p < PLANE_BITS ensures FrontCleared(row)[p] <==> p >= 64 && row[p] {
      if p < 32 {
        assert FrontCleared(row)[p] == first[p] == none[p];
      } else if p < 64 {
        assert FrontCleared(row)[p] == none[p - 32];
      } else {
        assert FrontCleared(row)[p] == first[p] == row[p];
      }
    }
  }

  /** The first two words set to 0. */
  function FrontCleared(row: Row): Row {
    PutWord(PutWord(row, 0, seq(32, _ => false)), 1, seq(32, _ => false))
  }

  lemma ForwardRefs(pcs: seq<Byte>)
    requires Forward(pcs)
    ensures |pcs| == PLANES && forall r | 0 <= r < PLANES && Code(pcs[r]) == CLOSE :: Ref(pcs[r]) < PLANES
  {
  }

  /** What row r is restored to: the rows it refers to are restored before it. */
  ghost function RestoredRow(m: seq<Row>, pcs: seq<Byte>, r: nat): Row
    requires |m| == PLANES && Forward(pcs) && r < PLANES
    decreases PLANES - r
  {
    var code := Code(pcs[r]);
    if code == ALL_ZERO then Uniformly(false)
    else if code == ALL_ONE then Uniformly(true)
    else if code == EQUIV then RestoredRow(m, pcs, Ref(pcs[r]))
    else if code == CLOSE then XorRows(m[r], RestoredRow(m, pcs, Ref(pcs[r])))
    else m[r]
  }

  /** What a code says row r of a restored matrix is, stored being what it was before. */
  ghost predicate Rebuilt(m: seq<Row>, stored: Row, pcs: seq<Byte>, r: nat)
    requires |m| == PLANES && Forward(pcs) && r < PLANES
  {
    var code := Code(pcs[r]);
    && (code == UNCOMPRESSED ==> m[r] == stored)
    && (code == ALL_ZERO ==> forall p | 0 <= p < PLANE_BITS :: !m[r][p])
    && (code == ALL_ONE ==> forall p | 0 <= p < PLANE_BITS :: m[r][p])
    && (code == EQUIV ==> m[r] == m[Ref(pcs[r])])
    && (code == CLOSE ==> Differences(m[r], stored, m[Ref(pcs[r])]))
  }

  lemma RestoredRebuilt(m: seq<Row>, m0: seq<Row>, pcs: seq<Byte>, r: nat)
    requires |m| == |m0| == PLANES && Forward(pcs) && r < PLANES
    requires forall k | 0 <= k < PLANES :: m[k] == RestoredRow(m0, pcs, k)
    ensures Rebuilt(m, m0[r], pcs, r)
  {
  }

  /** tmatrix_restore: in place, bottom-up. */
  method Restore(m: array<Row>, pcs: seq<Byte>)
    requires m.Length == PLANES && Forward(pcs)
    modifies m
    ensures forall r | 0 <= r < PLANES :: m[r] == RestoredRow(old(m[..]), pcs, r)
    ensures forall r | 0 <= r < PLANES :: Rebuilt(m[..], old(m[r]), pcs, r)
  {
    hide XorRows, Uniformly;
    for row := PLANES downto 0
      invariant forall r | row <= r < PLANES :: m[r] == RestoredRow(old(m[..]), pcs, r)
      invariant forall r | 0 <= r < row :: m[r] == old(m[r])
    {
      var code, ref := Code(pcs[row]), Ref(pcs[row]);
      if code == ALL_ZERO {
        m[row] := Uniformly(false);
      } else if code == ALL_ONE {
        m[row] := Uniformly(true);
      } else if code == EQUIV {
        m[row] := m[ref];
      } else if code == CLOSE {
        m[row] := XorRow(m[row], m[ref]);
      }
    }
    forall r | 0 <= r < PLANES ensures Rebuilt(m[..], old(m[r]), pcs, r) {
      RestoredRebuilt(m[..], old(m[..]), pcs, r);
    }
  }

  /** m has the reduced rows that carry information; rows coded all-zero, all-one or equal are anything. */
  ghost predicate Carries(m: seq<Row>, orig: seq<Row>, pcs: seq<Byte>) {
    && |m| == |orig| == PLANES && Forward(pcs)
    && forall r | 0 <= r < PLANES && Keeps(pcs[r]) :: m[r] == ReducedRow(orig, pcs, r)
  }

  /** Restoring undoes reducing, whatever the discarded rows were filled with. */
  lemma {:induction false} RestoreUndoesReduce(m: seq<Row>, orig: seq<Row>, pcs: seq<Byte>, r: nat)
    requires Carries(m, orig, pcs) && r < PLANES && forall i | 0 <= i < PLANES :: Sound(orig, i, pcs[i])
    ensures RestoredRow(m, pcs, r) == orig[r]
    decreases PLANES - r
  {
    hide XorRows, Uniformly;
    assert Sound(orig, r, pcs[r]);
    if Code(pcs[r]) == EQUIV || Code(pcs[r]) == CLOSE {
      RestoreUndoesReduce(m, orig, pcs, Ref(pcs[r]));
      XorTwice(orig[r], orig[Ref(pcs[r])]);
    }
  }

  /** Sound descriptors refer forward. */
  lemma SoundForward(m: seq<Row>, pcs: seq<Byte>)
    requires |m| == |pcs| == PLANES && forall i | 0 <= i < PLANES :: Sound(m, i, pcs[i])
    ensures Forward(pcs)
  {
    forall r | 0 <= r < PLANES
      ensures Code(pcs[r]) <= CLOSE && (Code(pcs[r]) >= EQUIV ==> r < Ref(pcs[r]) < PLANES)
    {
      assert Sound(m, r, pcs[r]);
    }
  }

  ghost predicate AllSound(m: seq<Row>, pcs: seq<Byte>) {
    |m| == |pcs| == PLANES && forall i | 0 <= i < PLANES :: Sound(m, i, pcs[i])
  }

  /** Transpose, measure, describe. */
  method Describe(arr: seq<Word>, arrSize: nat, m: array<Row>) returns (pcs: seq<Byte>)
    requires m.Length == PLANES && arrSize <= PLANE_BITS && 32 * Columns(arrSize) <= |arr|
    modifies m
    ensures Transposed(m[..], old(m[..]), arr, 32 * Columns(arrSize))
    ensures AllSound(m[..], pcs) && Forward(pcs)
  {
    hide Transposed, Distances, Described, Sound, Forward, Columns;
    Transpose(arr, arrSize, m);
    var d := MatrixDistance(m[..]);
    pcs := MakePcv(d, m[..]);
    forall i | 0 <= i < PLANES ensures Sound(m[..], i, pcs[i]) {
      DescribedSound(m[..], i, pcs[i]);
    }
    SoundForward(m[..], pcs);
  }

  /** Restore and transpose back. */
  method Decode(m: array<Row>, pcs: seq<Byte>, ghost orig: seq<Row>) returns (back: seq<Word>)
    requires m.Length == PLANES && AllSound(orig, pcs) && Carries(m[..], orig, pcs)
    modifies m
    ensures |back| == PLANE_BITS && forall e | 0 <= e < PLANE_BITS :: back[e] == Gather(orig, e)
  {
    hide Sound, Forward, ReducedRow, RestoredRow, Gather;
    ghost var kept := m[..];
    Restore(m, pcs);
    forall r | 0 <= r < PLANES ensures m[r] == orig[r] {
      RestoreUndoesReduce(kept, orig, pcs, r);
    }
    assert m[..] == orig;
    back := TRestore(m[..]);
  }

  /**
   The whole codec, in place: the words are described and reduced; then the rows that need not be kept are
   overwritten with junk; restoring gives the words back.  m0 is what the matrix held before.
   */
  method RoundTrip(arr: seq<Word>, arrSize: nat, m0: seq<Row>, junk: seq<Row>) returns (back: seq<Word>)
    requires |m0| == |junk| == PLANES && arrSize <= PLANE_BITS && 32 * Columns(arrSize) <= |arr|
    ensures |back| == PLANE_BITS && back[..arrSize] == arr[..arrSize]
  {
    hide Transposed, Sound, Forward, ReducedRow, Gather;
    var m := new Row[PLANES](i requires 0 <= i < PLANES => m0[i]);
    assert m[..] == m0;
    var pcs := Describe(arr, arrSize, m);
    ghost var orig := m[..];
    Reduce(m, pcs);
    for r := 0 to PLANES
      invariant forall k | 0 <= k < PLANES && Keeps(pcs[k]) :: m[k] == ReducedRow(orig, pcs, k)
    {
      if !Keeps(pcs[r]) {
        m[r] := junk[r];
      }
    }
    back := Decode(m, pcs, orig);
    TransposeUndone(arr, orig, m0, 32 * Columns(arrSize), back);
    Shorter(arr, back, 32 * Columns(arrSize), arrSize);
  }

  /** The whole codec with the reduced rows in a matrix of their own, which held `junk` before. */
  method RoundTripApart(arr: seq<Word>, arrSize: nat, m0: seq<Row>, junk: seq<Row>) returns (back: seq<Word>)
    requires |m0| == |junk| == PLANES && arrSize <= PLANE_BITS && 32 * Columns(arrSize) <= |arr|
    ensures |back| == PLANE_BITS && back[..arrSize] == arr[..arrSize]
  {
    hide Transposed, Sound, Forward, ReducedRow, Gather, Carries;
    var m := new Row[PLANES](i requires 0 <= i < PLANES => m0[i]);
    assert m[..] == m0;
    var out := new Row[PLANES](i requires 0 <= i < PLANES => junk[i]);
    var pcs := Describe(arr, arrSize, m);
    ReduceTo(m[..], pcs, out);
    back := Decode(out, pcs, m[..]);
    TransposeUndone(arr, m[..], m0, 32 * Columns(arrSize), back);
    Shorter(arr, back, 32 * Columns(arrSize), arrSize);
  }

  lemma Shorter(a: seq<Word>, b: seq<Word>, n: nat, k: nat)
    requires k <= n <= |a| && n <= |b| && a[..n] == b[..n]
    ensures a[..k] == b[..k]
  {
    assert a[..k] == a[..n][..k] && b[..k] == b[..n][..k];
  }

  /** The row carries information of its own. */
  predicate Keeps(pc: Byte) {
    Code(pc) == UNCOMPRESSED || Code(pc) == CLOSE
  }
}
