/**
  An abstract model of the code-generation backend's function builder, the part of
  it that the compiler drives: blocks and the instructions placed in them, the block
  that receives new instructions, the control-flow edges that branch and jump
  instructions add, block sealing, and the declare/define/use operations on
  mutable variables. How the backend turns variable definitions into SSA form is
  not modelled: every use simply produces a fresh SSA value and is logged.

  `State` is the builder's state as a value; each builder operation is a function
  on it. The class `FunctionBuilder` holds the same state in fields and its
  methods are proved to perform exactly those functions.
 */
module Backend {
  import opened Wrappers
  import opened Words
  import Structure

  /** A block number, in creation order. */
  type BlockId = nat

  /** A mutable variable's index. */
  type Var = nat

  /** An SSA value, numbered in creation order. */
  type SsaValue = nat

  /** The arithmetic instructions the compiler uses. */
  datatype ArithOp = Iadd | Isub | Imul | Udiv {

    /** What the instruction computes on two words; `None` is the division-by-zero trap. */
    function Apply(a: Structure.i64, b: Structure.i64): (r: Option<Structure.i64>)
      ensures r.None? <==> this == Udiv && b == 0
    {
      match this
      case Iadd => Some(WrappingAdd(a, b))
      case Isub => Some(WrappingSub(a, b))
      case Imul => Some(WrappingMul(a, b))
      case Udiv => UnsignedDiv(a, b)
    }
  }

  /** Integer condition codes of `icmp` and `br_icmp`. */
  datatype IntCC = Equal | NotEqual | SignedLessThanOrEqual {

    predicate Holds(a: Structure.i64, b: Structure.i64) {
      match this
      case Equal => a == b
      case NotEqual => a != b
      case SignedLessThanOrEqual => a <= b
    }
  }

  datatype Inst =
    | Iconst(dst: SsaValue, imm: Structure.i64)
    | Arith(dst: SsaValue, op: ArithOp, lhs: SsaValue, rhs: SsaValue)
    | Icmp(dst: SsaValue, cc: IntCC, lhs: SsaValue, rhs: SsaValue)
    | BrIcmp(cc: IntCC, lhs: SsaValue, rhs: SsaValue, target: BlockId)
    | Jump(target: BlockId)
    | Return(result: SsaValue)

  /** The value an `icmp` produces: 1 when the condition holds, else 0. */
  function CompareResult(cc: IntCC, a: Structure.i64, b: Structure.i64): (r: Structure.i64)
    ensures r == 0 || r == 1
    ensures r == 1 <==> cc.Holds(a, b)
  {
    Flag(cc.Holds(a, b))
  }

  datatype Block = Block(params: seq<SsaValue>, insts: seq<Inst>)

  datatype EdgeKind = Conditional | Unconditional

  /** A control-flow edge added by a branch or jump placed in block `from`. */
  datatype Edge = Edge(from: BlockId, to: BlockId, kind: EdgeKind)

  datatype VarOp =
    | Declare(v: Var)
    | Def(v: Var, value: SsaValue, at: BlockId)
    | Use(v: Var, value: SsaValue, at: BlockId)

  /** `block` was sealed when the first `knownEdges` edges existed. */
  datatype Sealing = Sealing(block: BlockId, knownEdges: nat)

  /**
    The builder's state. `intact` turns false, for good, at the first operation
    that the backend forbids (where Cranelift's builder panics or trips one of its
    assertions); the operation then has no other effect on blocks, edges, seals or
    the variable log.
   */
  datatype State = State(
    blocks: seq<Block>,
    current: Option<BlockId>,
    seals: seq<Sealing>,
    edges: seq<Edge>,
    declared: set<Var>,
    varLog: seq<VarOp>,
    values: nat,
    intact: bool)
  {
    /** There is a current block to place instructions in. */
    predicate Ready() {
      current.Some? && current.value < |blocks|
    }

    function Sealed(): set<BlockId> {
      set s | s in seals :: s.block
    }

    /** A forbidden operation. */
    function Misused(): State {
      this.(intact := false)
    }

    function CreateBlock(): (r: State)
      ensures |r.blocks| == |blocks| + 1
    {
      this.(blocks := blocks + [Block([], [])])
    }

    function SwitchToBlock(b: BlockId): (r: State)
      ensures |r.blocks| == |blocks|
    {
      if b < |blocks| then this.(current := Some(b)) else Misused()
    }

    /** Adds one parameter to block `b`; the new value is numbered `values`. */
    function AppendParam(b: BlockId): (r: State)
      ensures |r.blocks| == |blocks|
    {
      if b < |blocks| then
        this.(blocks := blocks[b := Block(blocks[b].params + [values], blocks[b].insts)],
              values := values + 1)
      else Misused().(values := values + 1)
    }

    function DeclareVar(v: Var): (r: State)
      ensures |r.blocks| == |blocks|
    {
      this.(declared := declared + {v}, varLog := varLog + [Declare(v)])
    }

    /** Defining a variable that was never declared is forbidden. */
    function DefVar(v: Var, x: SsaValue): (r: State)
      ensures |r.blocks| == |blocks|
    {
      if Ready() && v in declared then this.(varLog := varLog + [Def(v, x, current.value)])
      else Misused()
    }

    /** Reads the current definition of `v`; the result is numbered `values`. */
    function UseVar(v: Var): (r: State)
      ensures |r.blocks| == |blocks|
    {
      if Ready() && v in declared then
        this.(varLog := varLog + [Use(v, values, current.value)], values := values + 1)
      else Misused().(values := values + 1)
    }

    /** Appends `i` to the current block. */
    function Emit(i: Inst): (r: State)
      ensures |r.blocks| == |blocks|
    {
      if Ready() then
        var b := blocks[current.value];
        this.(blocks := blocks[current.value := Block(b.params, b.insts + [i])])
      else Misused()
    }

    function InsIconst(imm: Structure.i64): (r: State)
      ensures |r.blocks| == |blocks|
    {
      Emit(Iconst(values, imm)).(values := values + 1)
    }

    function InsArith(op: ArithOp, lhs: SsaValue, rhs: SsaValue): (r: State)
      ensures |r.blocks| == |blocks|
    {
      Emit(Arith(values, op, lhs, rhs)).(values := values + 1)
    }

    function InsIcmp(cc: IntCC, lhs: SsaValue, rhs: SsaValue): (r: State)
      ensures |r.blocks| == |blocks|
    {
      Emit(Icmp(values, cc, lhs, rhs)).(values := values + 1)
    }

    /** Branching to a block adds an edge to it; adding one to a sealed block is forbidden. */
    function InsBrIcmp(cc: IntCC, lhs: SsaValue, rhs: SsaValue, target: BlockId): (r: State)
      ensures |r.blocks| == |blocks|
    {
      if Ready() && target < |blocks| && target !in Sealed() then
        Emit(BrIcmp(cc, lhs, rhs, target)).(edges := edges + [Edge(current.value, target, Conditional)])
      else Misused()
    }

    function InsJump(target: BlockId): (r: State)
      ensures |r.blocks| == |blocks|
    {
      if Ready() && target < |blocks| && target !in Sealed() then
        Emit(Jump(target)).(edges := edges + [Edge(current.value, target, Unconditional)])
      else Misused()
    }

    function InsReturn(x: SsaValue): (r: State)
      ensures |r.blocks| == |blocks|
    {
      Emit(Return(x))
    }

    /** Declares that every predecessor of `b` is known; sealing a block twice is forbidden. */
    function SealBlock(b: BlockId): (r: State)
      ensures |r.blocks| == |blocks|
    {
      if b < |blocks| && b !in Sealed() then this.(seals := seals + [Sealing(b, |edges|)])
      else Misused()
    }

    /** Seals the blocks from `i` on that are still open, in block order. */
    function SealFrom(i: nat): State
      decreases |blocks| - i
    {
      if i >= |blocks| then this
      else (if i in Sealed() then this else SealBlock(i)).SealFrom(i + 1)
    }

    function SealAllBlocks(): State {
      SealFrom(0)
    }
  }

  /** The numbers from `lo` up to but excluding `hi`. */
  function Span(lo: nat, hi: nat): (r: set<nat>)
    ensures forall n :: n in r <==> lo <= n < hi
    decreases hi - lo
  {
    if lo >= hi then {} else {lo} + Span(lo + 1, hi)
  }

  /** A builder before anything has been created. */
  const EmptyState := State([], None, [], [], {}, [], 0, true)

  /** After `SealAllBlocks` every block is sealed, and nothing but the seals changed. */
  lemma {:induction false} SealFromSealsRest(st: State, i: nat)
    ensures var r := st.SealFrom(i);
      && r.(seals := st.seals) == st
      && r.Sealed() == st.Sealed() + Span(i, |st.blocks|)
      && st.seals <= r.seals
    decreases |st.blocks| - i
  {
    if i < |st.blocks| {
      var next := if i in st.Sealed() then st else st.SealBlock(i);
      SealFromSealsRest(next, i + 1);
      assert next.Sealed() == st.Sealed() + {i};
      assert Span(i, |st.blocks|) == {i} + Span(i + 1, |st.blocks|);
    }
  }

  /**
    The builder. Its fields are the state above; each method changes it exactly as
    the function of the same name does.
   */
  class FunctionBuilder {
    var blocks: seq<Block>
    var current: Option<BlockId>
    var seals: seq<Sealing>
    var edges: seq<Edge>
    var declared: set<Var>
    var varLog: seq<VarOp>
    var values: nat
    var intact: bool

    function Snapshot(): State
      reads this
    {
      State(blocks, current, seals, edges, declared, varLog, values, intact)
    }

    constructor ()
      ensures Snapshot() == EmptyState
    {
      blocks, current, seals, edges := [], None, [], [];
      declared, varLog, values, intact := {}, [], 0, true;
    }

    method CreateBlock() returns (b: BlockId)
      modifies this
      ensures b == |old(blocks)|
      ensures Snapshot() == old(Snapshot()).CreateBlock()
    {
      b := |blocks|;
      blocks := blocks + [Block([], [])];
    }

    method SwitchToBlock(b: BlockId)
      modifies this
      ensures Snapshot() == old(Snapshot()).SwitchToBlock(b)
    {
      if b < |blocks| {
        current := Some(b);
      } else {
        intact := false;
      }
    }

    method AppendParam(b: BlockId) returns (x: SsaValue)
      modifies this
      ensures x == old(values)
      ensures Snapshot() == old(Snapshot()).AppendParam(b)
    {
      x := values;
      if b < |blocks| {
        blocks := blocks[b := Block(blocks[b].params + [x], blocks[b].insts)];
      } else {
        intact := false;
      }
      values := values + 1;
    }

    method DeclareVar(v: Var)
      modifies this
      ensures Snapshot() == old(Snapshot()).DeclareVar(v)
    {
      declared := declared + {v};
      varLog := varLog + [Declare(v)];
    }

    method DefVar(v: Var, x: SsaValue)
      modifies this
      ensures Snapshot() == old(Snapshot()).DefVar(v, x)
    {
      if current.Some? && current.value < |blocks| && v in declared {
        varLog := varLog + [Def(v, x, current.value)];
      } else {
        intact := false;
      }
    }

    method UseVar(v: Var) returns (x: SsaValue)
      modifies this
      ensures x == old(values)
      ensures Snapshot() == old(Snapshot()).UseVar(v)
    {
      x := values;
      if current.Some? && current.value < |blocks| && v in declared {
        varLog := varLog + [Use(v, x, current.value)];
      } else {
        intact := false;
      }
      values := values + 1;
    }

    method Emit(i: Inst)
      modifies this
      ensures Snapshot() == old(Snapshot()).Emit(i)
    {
      if current.Some? && current.value < |blocks| {
        var b := blocks[current.value];
        blocks := blocks[current.value := Block(b.params, b.insts + [i])];
      } else {
        intact := false;
      }
    }

    method InsIconst(imm: Structure.i64) returns (x: SsaValue)
      modifies this
      ensures x == old(values)
      ensures Snapshot() == old(Snapshot()).InsIconst(imm)
    {
      x := values;
      Emit(Iconst(x, imm));
      values := values + 1;
    }

    method InsArith(op: ArithOp, lhs: SsaValue, rhs: SsaValue) returns (x: SsaValue)
      modifies this
      ensures x == old(values)
      ensures Snapshot() == old(Snapshot()).InsArith(op, lhs, rhs)
    {
      x := values;
      Emit(Arith(x, op, lhs, rhs));
      values := values + 1;
    }

    method InsIcmp(cc: IntCC, lhs: SsaValue, rhs: SsaValue) returns (x: SsaValue)
      modifies this
      ensures x == old(values)
      ensures Snapshot() == old(Snapshot()).InsIcmp(cc, lhs, rhs)
    {
      x := values;
      Emit(Icmp(x, cc, lhs, rhs));
      values := values + 1;
    }

    method InsBrIcmp(cc: IntCC, lhs: SsaValue, rhs: SsaValue, target: BlockId)
      modifies this
      ensures Snapshot() == old(Snapshot()).InsBrIcmp(cc, lhs, rhs, target)
    {
      if current.Some? && current.value < |blocks| && target < |blocks| && target !in Snapshot().Sealed() {
        Emit(BrIcmp(cc, lhs, rhs, target));
        edges := edges + [Edge(current.value, target, Conditional)];
      } else {
        intact := false;
      }
    }

    method InsJump(target: BlockId)
      modifies this
      ensures Snapshot() == old(Snapshot()).InsJump(target)
    {
      if current.Some? && current.value < |blocks| && target < |blocks| && target !in Snapshot().Sealed() {
        Emit(Jump(target));
        edges := edges + [Edge(current.value, target, Unconditional)];
      } else {
        intact := false;
      }
    }

    method InsReturn(x: SsaValue)
      modifies this
      ensures Snapshot() == old(Snapshot()).InsReturn(x)
    {
      Emit(Return(x));
    }

    method SealBlock(b: BlockId)
      modifies this
      ensures Snapshot() == old(Snapshot()).SealBlock(b)
    {
      if b < |blocks| && b !in Snapshot().Sealed() {
        seals := seals + [Sealing(b, |edges|)];
      } else {
        intact := false;
      }
    }

    method SealAllBlocks()
      modifies this
      ensures Snapshot() == old(Snapshot()).SealAllBlocks()
    {
      var i := 0;
      while i < |blocks|
        invariant Snapshot().SealFrom(i) == old(Snapshot()).SealFrom(0)
        invariant |blocks| == |old(blocks)|
        decreases |blocks| - i
      {
        if i !in Snapshot().Sealed() {
          SealBlock(i);
        }
        i := i + 1;
      }
    }
  }
}
