/**
 Where the vector operations leave their data structures: the exact conditions, and inputs that meet them.
 */
module VectorLimits {
  import opened BitString
  import opened Gap
  import opened Blocks
  import opened Tree
  import opened Vector

  /** The scan of combine_operation stays inside a top array of top entries exactly for AND, or when the argument does. */
  lemma ScanInside(op: BoolOp, effTop: nat, argTop: nat, top: nat)
    requires effTop <= top
    ensures ScanTop(op, effTop, argTop) <= top <==> op == And || argTop <= top
  {
  }

  /** Before the call: the scan stays inside the stretched top array exactly under the condition of CombineOperation. */
  lemma CombineStaysInside(op: BoolOp, v: BVector, arg: BVector)
    requires v.Valid() && arg.Valid()
    ensures ScanTop(op, v.effTop, arg.effTop) <= Stretched(|v.tree|, v.size, |arg.tree|, arg.size)
       <==> op == And || v.size < arg.size || arg.effTop <= |v.tree|
  {
    EffectiveBound(v.tree, v.effTop, v.glen);
    EffectiveBound(arg.tree, arg.effTop, arg.glen);
    ScanInside(op, v.effTop, arg.effTop, Stretched(|v.tree|, v.size, |arg.tree|, arg.size));
  }

  /** The scan of distance_operation stays inside the first vector's top array exactly when the second one does. */
  lemma DistanceStaysInside(v: BVector, w: BVector)
    requires v.Valid() && w.Valid()
    ensures Larger(v.effTop, w.effTop) <= |v.tree| <==> w.effTop <= |v.tree|
  {
    EffectiveBound(v.tree, v.effTop, v.glen);
  }

  /**
   Two valid vectors whose OR, XOR or SUB scans beyond the own top array: the argument has size 10, but had bit 30000000
   when its size was 40000000.
   */
  method ShrunkArgument(glen: seq<GapWord>) returns (v: BVector, arg: BVector)
    requires LevelTable(glen)
    ensures v.Valid() && arg.Valid() && v != arg && v.size == 100 && arg.size == 10
    ensures |v.tree| == 1 && arg.effTop > 1
    ensures forall op | op != And :: ScanTop(op, v.effTop, arg.effTop) > Stretched(|v.tree|, v.size, |arg.tree|, arg.size)
  {
    hide TreeOk, Members;
    v := new BVector(100, false, glen);
    arg := new BVector(40000000, false, glen);
    var changed := arg.SetBit(30000000, true);
    arg.Resize(10);
    assert 30000000 / SUB_BITS == 1;
  }

  /** A vector of size 0: freeing clear leaves an effective size of 1 over no top entry at all. */
  method ClearedEmpty(glen: seq<GapWord>) returns (v: BVector)
    requires LevelTable(glen)
    ensures v.size == 0 && |v.tree| == 0 && v.effTop == 1 && !v.Valid()
  {
    hide TreeOk, Members;
    v := new BVector(0, false, glen);
    v.Clear(true);
  }
}
