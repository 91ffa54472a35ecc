/**
  Lowering of operands, expressions and statements onto the function builder
  (`val`, `eval` and `jit` of src/main.rs).

  `ValSpec`, `EvalSpec` and `JitSpec` say, as functions of the builder state, what
  each lowering step does; the methods `Val`, `Eval` and `Jit` drive a
  `FunctionBuilder` object and are proved to do exactly that. A Rust panic is an
  `Err`: compilation stops there and its partial builder state is discarded.
  What lowering guarantees about the builder is proved in modules
  `LoweringInvariant` and `LoweringFacts`.
 */
module Lowering {
  import opened Wrappers
  import opened Structure
  import opened Backend

  /** Why lowering panics. */
  datatype Panic =
    | UndeclaredVariable(name: string)  // `unwrap` or indexing of the variable table
    | UnsupportedOperation(op: Operation)  // `unimplemented!()` for `Modulo`

  /** Declared variable names and the backend variable of each. */
  type VarTable = map<string, Var>

  /** A builder state together with the SSA value just produced. */
  datatype Step = Step(st: State, value: SsaValue)

  /** A builder state together with the next free loop-counter number. */
  datatype Lowered = Lowered(st: State, varcount: nat)

  /** `val`: a constant becomes an `iconst`, a variable a read of its current definition. */
  function ValSpec(st: State, vars: VarTable, v: Value): (r: Result<Step, Panic>)
    ensures r.Err? <==> v.Variable? && v.name !in vars
    ensures r.Err? ==> r.error == UndeclaredVariable(v.name)
    ensures r.Ok? ==> r.value.value == st.values && r.value.st.values == st.values + 1
  {
    match v
    case Constant(n) => Ok(Step(st.InsIconst(n), st.values))
    case Variable(name) =>
      if name in vars then Ok(Step(st.UseVar(vars[name]), st.values))
      else Err(UndeclaredVariable(name))
  }

  /** An expression lowers without a panic: both operands are declared and the operator is not `Modulo`. */
  predicate ExprLowers(vars: VarTable, e: Expr) {
    && (e.left.Variable? ==> e.left.name in vars)
    && (e.right.Variable? ==> e.right.name in vars)
    && e.op != Modulo
  }

  /** The one instruction for an operator, applied to two SSA values; its result is the next SSA value. */
  function OperatorSpec(st: State, op: Operation, lhs: SsaValue, rhs: SsaValue): (r: Result<Step, Panic>)
    ensures r.Err? <==> op == Modulo
    ensures r.Ok? ==> r.value.value == st.values && r.value.st.values == st.values + 1
  {
    match op
    case Plus => Ok(Step(st.InsArith(Iadd, lhs, rhs), st.values))
    case Minus => Ok(Step(st.InsArith(Isub, lhs, rhs), st.values))
    case Times => Ok(Step(st.InsArith(Imul, lhs, rhs), st.values))
    case Divided => Ok(Step(st.InsArith(Udiv, lhs, rhs), st.values))
    case Equal => Ok(Step(st.InsIcmp(IntCC.Equal, lhs, rhs), st.values))
    case NotEqual => Ok(Step(st.InsIcmp(IntCC.NotEqual, lhs, rhs), st.values))
    case Modulo => Err(UnsupportedOperation(Modulo))
  }

  /**
    `eval`: both operands, left first, then one instruction for the operator. The
    operands' values are the next two SSA values and the result the one after.
   */
  function EvalSpec(st: State, vars: VarTable, e: Expr): (r: Result<Step, Panic>)
    ensures r.Err? <==> !ExprLowers(vars, e)
    ensures r.Ok? ==> r.value.value == st.values + 2 && r.value.st.values == st.values + 3
  {
    var l :- ValSpec(st, vars, e.left);
    var r :- ValSpec(l.st, vars, e.right);
    OperatorSpec(r.st, e.op, l.value, r.value)
  }

  /** `jit`: the head instruction first, then the rest from wherever the head left off. */
  function JitSpec(st: State, vars: VarTable, instrs: seq<Instruction>, varcount: nat): Result<Lowered, Panic>
    decreases instrs, 2
  {
    if instrs == [] then Ok(Lowered(st, varcount))
    else
      var head :- JitInstrSpec(st, vars, instrs[0], varcount);
      JitSpec(head.st, vars, instrs[1..], head.varcount)
  }

  function JitInstrSpec(st: State, vars: VarTable, instr: Instruction, varcount: nat): Result<Lowered, Panic>
    decreases instr, 1
  {
    match instr
    case Assign(to, expr) => AssignSpec(st, vars, to, expr, varcount)
    case If(_, _) => IfSpec(st, vars, instr, varcount)
    case Loop(_, _) => LoopSpec(st, vars, instr, varcount)
  }

  /** `Assign`: look the target up (a panic if undeclared), evaluate, define the target. */
  function AssignSpec(st: State, vars: VarTable, to: string, expr: Expr, varcount: nat): Result<Lowered, Panic> {
    if to !in vars then Err(UndeclaredVariable(to))
    else
      var x :- EvalSpec(st, vars, expr);
      Ok(Lowered(x.st.DefVar(vars[to], x.value), varcount))
  }

  /**
    The start of an `If` once its condition is in `cond`: two new blocks, the
    then-block and the continue-block; a branch to the then-block when `cond`
    equals 1, else a jump to the continue-block; the then-block becomes current.
   */
  function IfEntry(st: State, cond: SsaValue): State {
    var thenBlock := |st.blocks|;
    var st1 := st.CreateBlock().CreateBlock();
    var one := st1.values;
    st1.InsIconst(1)
       .InsBrIcmp(IntCC.Equal, cond, one, thenBlock)
       .InsJump(thenBlock + 1)
       .SwitchToBlock(thenBlock)
  }

  /** The end of an `If`: the then-block is sealed and the continue-block becomes current. */
  function IfExit(st: State, thenBlock: BlockId): State {
    st.SealBlock(thenBlock).SwitchToBlock(thenBlock + 1)
  }

  /**
    `If`: evaluate the condition, open the then-block, lower the body there, seal
    the then-block and continue in the continue-block.
   */
  function IfSpec(st: State, vars: VarTable, instr: Instruction, varcount: nat): Result<Lowered, Panic>
    requires instr.If?
    decreases instr, 0
  {
    var c :- EvalSpec(st, vars, instr.condition);
    var b :- JitSpec(IfEntry(c.st, c.value), vars, instr.body, varcount);
    Ok(Lowered(IfExit(b.st, |c.st.blocks|), b.varcount))
  }

  /**
    The start of a `Loop` once its count is read into `count`: the counter
    variable numbered `counter` is declared and defined as the count; two new
    blocks, the header and the exit; a jump to the header, which becomes current
    and branches to the exit when the counter is at most 0.
   */
  function LoopEntry(st: State, counter: Var, count: SsaValue): State {
    var header := |st.blocks|;
    var st1 := st.DeclareVar(counter).DefVar(counter, count)
                 .CreateBlock().CreateBlock()
                 .InsJump(header)
                 .SwitchToBlock(header);
    var counterValue := st1.values;
    var st2 := st1.UseVar(counter);
    var zero := st2.values;
    st2.InsIconst(0).InsBrIcmp(SignedLessThanOrEqual, counterValue, zero, header + 1)
  }

  /** The end of a `Loop`: the back-edge to the header, then the header's seal; the exit block becomes current. */
  function LoopExit(st: State, header: BlockId): State {
    st.InsJump(header).SealBlock(header).SwitchToBlock(header + 1)
  }

  /**
    `Loop`: read the count, number a new counter variable, open the header, lower
    the body inside it with the counter number advanced, then close the loop.
   */
  function LoopSpec(st: State, vars: VarTable, instr: Instruction, varcount: nat): Result<Lowered, Panic>
    requires instr.Loop?
    decreases instr, 0
  {
    var n :- ValSpec(st, vars, instr.times);
    var b :- JitSpec(LoopEntry(n.st, varcount, n.value), vars, instr.body, varcount + 1);
    Ok(Lowered(LoopExit(b.st, |n.st.blocks|), b.varcount))
  }

  /** The method returned what the specification's step produced and left the builder in its state. */
  ghost predicate StepDone(r: Result<SsaValue, Panic>, st: State, spec: Result<Step, Panic>) {
    match spec
    case Ok(s) => r == Ok(s.value) && st == s.st
    case Err(e) => r == Err(e)
  }

  ghost predicate LoweredDone(r: Result<nat, Panic>, st: State, spec: Result<Lowered, Panic>) {
    match spec
    case Ok(l) => r == Ok(l.varcount) && st == l.st
    case Err(e) => r == Err(e)
  }

  /** `val` on a builder object. */
  method Val(b: FunctionBuilder, vars: VarTable, v: Value) returns (r: Result<SsaValue, Panic>)
    modifies b
    ensures StepDone(r, b.Snapshot(), ValSpec(old(b.Snapshot()), vars, v))
  {
    match v
    case Constant(n) =>
      var x := b.InsIconst(n);
      r := Ok(x);
    case Variable(name) =>
      if name in vars {
        var x := b.UseVar(vars[name]);
        r := Ok(x);
      } else {
        r := Err(UndeclaredVariable(name));
      }
  }

  /** `eval` on a builder object. */
  method Eval(b: FunctionBuilder, vars: VarTable, e: Expr) returns (r: Result<SsaValue, Panic>)
    modifies b
    ensures StepDone(r, b.Snapshot(), EvalSpec(old(b.Snapshot()), vars, e))
  {
    var left := Val(b, vars, e.left);
    if left.Err? {
      return Err(left.error);
    }
    var right := Val(b, vars, e.right);
    if right.Err? {
      return Err(right.error);
    }
    var x;
    match e.op {
      case Plus => x := b.InsArith(Iadd, left.value, right.value);
      case Minus => x := b.InsArith(Isub, left.value, right.value);
      case Times => x := b.InsArith(Imul, left.value, right.value);
      case Divided => x := b.InsArith(Udiv, left.value, right.value);
      case Equal => x := b.InsIcmp(IntCC.Equal, left.value, right.value);
      case NotEqual => x := b.InsIcmp(IntCC.NotEqual, left.value, right.value);
      case Modulo => return Err(UnsupportedOperation(Modulo));
    }
    r := Ok(x);
  }

  /**
    `jit` on a builder object. `varcount` is the counter Rust passes as `&mut usize`:
    its final value is returned.
   */
  method Jit(b: FunctionBuilder, vars: VarTable, instrs: seq<Instruction>, varcount: nat)
    returns (r: Result<nat, Panic>)
    modifies b
    ensures LoweredDone(r, b.Snapshot(), JitSpec(old(b.Snapshot()), vars, instrs, varcount))
    decreases instrs, 2
  {
    if |instrs| == 0 {
      return Ok(varcount);
    }
    var head;
    match instrs[0] {
      case Assign(to, expr) => head := LowerAssign(b, vars, to, expr, varcount);
      case If(_, _) => head := LowerIf(b, vars, instrs[0], varcount);
      case Loop(_, _) => head := LowerLoop(b, vars, instrs[0], varcount);
    }
    if head.Err? {
      return head;
    }
    r := Jit(b, vars, instrs[1..], head.value);
  }

  /** The `Assign` arm of `jit`. */
  method LowerAssign(b: FunctionBuilder, vars: VarTable, to: string, expr: Expr, varcount: nat)
    returns (r: Result<nat, Panic>)
    modifies b
    ensures LoweredDone(r, b.Snapshot(), AssignSpec(old(b.Snapshot()), vars, to, expr, varcount))
  {
    if to !in vars {
      return Err(UndeclaredVariable(to));
    }
    var value := Eval(b, vars, expr);
    if value.Err? {
      return Err(value.error);
    }
    b.DefVar(vars[to], value.value);
    r := Ok(varcount);
  }

  /** The `If` arm of `jit`. */
  method LowerIf(b: FunctionBuilder, vars: VarTable, instr: Instruction, varcount: nat)
    returns (r: Result<nat, Panic>)
    requires instr.If?
    modifies b
    ensures LoweredDone(r, b.Snapshot(), IfSpec(old(b.Snapshot()), vars, instr, varcount))
    decreases instr, 0
  {
    var c := Eval(b, vars, instr.condition);
    if c.Err? {
      return Err(c.error);
    }
    var ifBlock := EnterIf(b, c.value);
    var inner := Jit(b, vars, instr.body, varcount);
    if inner.Err? {
      return inner;
    }
    ExitIf(b, ifBlock);
    r := inner;
  }

  /** The straight-line start of the `If` arm. */
  method EnterIf(b: FunctionBuilder, cond: SsaValue) returns (ifBlock: BlockId)
    modifies b
    ensures ifBlock == |old(b.blocks)|
    ensures b.Snapshot() == IfEntry(old(b.Snapshot()), cond)
  {
    ifBlock := b.CreateBlock();
    var continueBlock := b.CreateBlock();
    var one := b.InsIconst(1);
    b.InsBrIcmp(IntCC.Equal, cond, one, ifBlock);
    b.InsJump(continueBlock);
    b.SwitchToBlock(ifBlock);
  }

  /** The straight-line end of the `If` arm. */
  method ExitIf(b: FunctionBuilder, ifBlock: BlockId)
    modifies b
    ensures b.Snapshot() == IfExit(old(b.Snapshot()), ifBlock)
  {
    b.SealBlock(ifBlock);
    var continueBlock := ifBlock + 1;
    b.SwitchToBlock(continueBlock);
  }

  /** The `Loop` arm of `jit`. */
  method LowerLoop(b: FunctionBuilder, vars: VarTable, instr: Instruction, varcount: nat)
    returns (r: Result<nat, Panic>)
    requires instr.Loop?
    modifies b
    ensures LoweredDone(r, b.Snapshot(), LoopSpec(old(b.Snapshot()), vars, instr, varcount))
    decreases instr, 0
  {
    var repetitions := Val(b, vars, instr.times);
    if repetitions.Err? {
      return Err(repetitions.error);
    }
    var counter := varcount;
    var count := varcount + 1;
    var loopBlock := EnterLoop(b, counter, repetitions.value);
    var inner := Jit(b, vars, instr.body, count);
    if inner.Err? {
      return inner;
    }
    ExitLoop(b, loopBlock);
    r := inner;
  }

  /** The straight-line start of the `Loop` arm. */
  method EnterLoop(b: FunctionBuilder, counter: Var, repetitions: SsaValue) returns (loopBlock: BlockId)
    modifies b
    ensures loopBlock == |old(b.blocks)|
    ensures b.Snapshot() == LoopEntry(old(b.Snapshot()), counter, repetitions)
  {
    ghost var st0 := b.Snapshot();
    b.DeclareVar(counter);
    b.DefVar(counter, repetitions);
    loopBlock := b.CreateBlock();
    var continueBlock := b.CreateBlock();
    b.InsJump(loopBlock);
    b.SwitchToBlock(loopBlock);
    ghost var st1 := b.Snapshot();
    assert st1 == st0.DeclareVar(counter).DefVar(counter, repetitions)
                     .CreateBlock().CreateBlock().InsJump(loopBlock).SwitchToBlock(loopBlock);
    var counterValue := b.UseVar(counter);
    var zero := b.InsIconst(0);
    b.InsBrIcmp(SignedLessThanOrEqual, counterValue, zero, continueBlock);
  }

  /** The straight-line end of the `Loop` arm: back-edge, then seal. */
  method ExitLoop(b: FunctionBuilder, loopBlock: BlockId)
    modifies b
    ensures b.Snapshot() == LoopExit(old(b.Snapshot()), loopBlock)
  {
    b.InsJump(loopBlock);
    b.SealBlock(loopBlock);
    var continueBlock := loopBlock + 1;
    b.SwitchToBlock(continueBlock);
  }
}
