/**
 Whole runs: any sequence of operations on a vector agrees with the same sequence on a plain set.
 */
module VectorRun {
  import opened BitString
  import opened Gap
  import opened Blocks
  import opened Tree
  import opened Vector
  import Visitors

  datatype Command =
    | PutBit(n: nat, val: bool)
    | PutRange(left: nat, right: nat, val: bool)
    | Binary(op: BoolOp, arg: BVector)
    | InvertAll
    | Optimise(mode: Visitors.OptMode)
    | Levels(table: seq<GapWord>)
    | ClearAll(freeMem: bool)
    | SetSize(size: nat)

  /** The same commands for a plain set: what a command means no longer depends on any vector. */
  datatype Step =
    | StepBit(n: nat, val: bool)
    | StepRange(lo: nat, hi: nat, val: bool)
    | StepBinary(op: BoolOp, size: nat, top: nat, other: set<nat>)
    | StepInvert
    | StepNothing
    | StepClear
    | StepSize(size: nat)

  /** The abstract vector: a size, the number of top entries, and a set. */
  datatype Model = Model(size: nat, top: nat, ones: set<nat>)

  ghost function Next(s: Step, m: Model): Model {
    match s
    case StepBit(n, val) => m.(ones := if val then m.ones + {n} else m.ones - {n})
    case StepRange(lo, hi, val) => m.(ones := if val then m.ones + Interval(lo, hi) else m.ones - Interval(lo, hi))
    case StepBinary(op, size, top, other) =>
      Model(Larger(m.size, size), Stretched(m.top, m.size, top, size), SetOp(op, m.ones, other))
    case StepInvert => m.(ones := Below(m.size) - m.ones)
    case StepNothing => m
    case StepClear => m.(ones := {})
    case StepSize(size) => Model(size, Larger(m.top, if size <= ID_MAX then TopSize(size) else 0), m.ones * Below(size))
  }

  ghost function Outcome(steps: seq<Step>, m: Model): Model {
    if steps == [] then m else Next(steps[|steps| - 1], Outcome(steps[..|steps| - 1], m))
  }

  /**
   What the operations ask of their caller: positions inside the vector, another vector as operand that the
   scan can reach within the own top array, a proper table, a top array to free.
   */
  ghost predicate Allowed(c: Command, v: BVector, size: nat, top: nat)
    reads if c.Binary? then {c.arg} else {}
  {
    match c
    case PutBit(n, val) => n < size
    case PutRange(left, right, val) => left < size && right < size
    case Binary(op, arg) => arg != v && arg.Valid() && (op == And || size < arg.size || arg.effTop <= top)
    case Levels(table) => LevelTable(table)
    case SetSize(newSize) => newSize <= ID_MAX
    case ClearAll(freeMem) => freeMem ==> top > 0
    case _ => true
  }

  ghost function Meaning(c: Command): Step
    requires c.Binary? ==> c.arg.Valid()
    reads if c.Binary? then {c.arg} else {}
  {
    match c
    case PutBit(n, val) => StepBit(n, val)
    case PutRange(left, right, val) => if right < left then StepRange(right, left, val) else StepRange(left, right, val)
    case Binary(op, arg) => StepBinary(op, arg.size, |arg.tree|, arg.Contents())
    case InvertAll => StepInvert
    case ClearAll(_) => StepClear
    case SetSize(size) => StepSize(size)
    case _ => StepNothing
  }

  ghost function ModelOf(v: BVector): Model
    requires v.TreeValid()
    reads v
  {
    Model(v.size, |v.tree|, v.Contents())
  }

  method Execute(v: BVector, c: Command)
    requires v.Valid() && Allowed(c, v, v.size, |v.tree|)
    modifies v
    ensures v.Valid()
    ensures ModelOf(v) == old(Next(Meaning(c), ModelOf(v)))
  {
    hide TreeOk, Members, Interval, SetOp, Below, LevelTable;
    match c {
      case PutBit(n, val) => var _ := v.SetBit(n, val);
      case PutRange(left, right, val) => v.SetRange(left, right, val);
      case Binary(op, arg) => v.CombineOperation(op, arg);
      case InvertAll => v.Invert();
      case Optimise(mode) => v.Optimize(mode);
      case Levels(table) => v.SetGapLevels(table);
      case ClearAll(freeMem) => v.Clear(freeMem);
      case SetSize(size) => v.Resize(size);
    }
  }

  /** steps are the meanings of the commands. */
  ghost predicate Means(cmds: seq<Command>, steps: seq<Step>)
    reads set c | c in cmds && c.Binary? :: c.arg
  {
    |steps| == |cmds| && forall i | 0 <= i < |cmds| :: (cmds[i].Binary? ==> cmds[i].arg.Valid()) && Meaning(cmds[i]) == steps[i]
  }

  /** Every command is allowed at the size and top array the vector has by then. */
  ghost predicate AllAllowed(cmds: seq<Command>, v: BVector, steps: seq<Step>, m: Model)
    requires |steps| == |cmds|
    reads set c | c in cmds && c.Binary? :: c.arg
  {
    forall i | 0 <= i < |cmds| :: var now := Outcome(steps[..i], m); Allowed(cmds[i], v, now.size, now.top)
  }

  /** Runs the commands in order: the invariant holds throughout and the content follows the plain set. */
  method Run(v: BVector, cmds: seq<Command>, ghost steps: seq<Step>)
    requires v.Valid() && Means(cmds, steps) && AllAllowed(cmds, v, steps, ModelOf(v))
    modifies v
    ensures v.Valid()
    ensures ModelOf(v) == Outcome(steps, old(ModelOf(v)))
  {
    ghost var m := ModelOf(v);
    for i := 0 to |cmds|
      invariant v.Valid() && Means(cmds, steps) && AllAllowed(cmds, v, steps, m)
      invariant ModelOf(v) == Outcome(steps[..i], m)
    {
      assert Allowed(cmds[i], v, Outcome(steps[..i], m).size, Outcome(steps[..i], m).top);
      assert Meaning(cmds[i]) == steps[i];
      Execute(v, cmds[i]);
      assert steps[..i + 1][..i] == steps[..i];
    }
    assert steps[..|cmds|] == steps;
  }
}
