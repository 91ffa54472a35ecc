/**
  Lowering never misuses the builder. Starting from a builder that is ready (a
  current block exists), in which every name of the variable table is declared
  and numbered below the next loop counter and only existing blocks are sealed,
  `jit` performs no operation the backend forbids (defining or reading an
  undeclared variable, switching to a missing block, branching to a sealed block,
  sealing a block twice), and leaves the builder in the same condition.
 */
module LoweringInvariant {
  import opened Wrappers
  import opened Structure
  import opened Backend
  import opened Lowering

  /** Every name of the table is a declared variable. */
  predicate TableDeclared(st: State, vars: VarTable) {
    forall name | name in vars :: vars[name] in st.declared
  }

  /** Only existing blocks have been sealed. */
  predicate SealsExist(st: State) {
    forall i | 0 <= i < |st.seals| :: st.seals[i].block < |st.blocks|
  }

  /**
    The condition in which lowering finds and leaves the builder, with `vc` the
    next loop-counter number: no operation so far was forbidden, there is a
    current block, the table's variables are declared and numbered below `vc`,
    and only existing blocks are sealed.
   */
  predicate Inv(st: State, vars: VarTable, vc: nat) {
    && st.intact
    && st.Ready()
    && TableDeclared(st, vars)
    && (forall name | name in vars :: vars[name] < vc)
    && SealsExist(st)
  }

  /**
    From `st` to `st'` blocks and SSA values are only added, and edges and seals
    only appended; every new edge leads to, and every new seal is of, a block
    created since `st`.
   */
  predicate Grows(st: State, st': State) {
    && |st.blocks| <= |st'.blocks|
    && st.values <= st'.values
    && st.edges <= st'.edges
    && (forall i | |st.edges| <= i < |st'.edges| :: |st.blocks| <= st'.edges[i].to)
    && st.seals <= st'.seals
    && (forall i | |st.seals| <= i < |st'.seals| :: |st.blocks| <= st'.seals[i].block)
  }

  lemma GrowsTransitive(st1: State, st2: State, st3: State)
    requires Grows(st1, st2) && Grows(st2, st3)
    ensures Grows(st1, st3)
  {
    forall i | |st1.seals| <= i < |st3.seals|
      ensures |st1.blocks| <= st3.seals[i].block
    {
      if i < |st2.seals| {
        assert st3.seals[i] == st2.seals[i];
      }
    }
    forall i | |st1.edges| <= i < |st3.edges|
      ensures |st1.blocks| <= st3.edges[i].to
    {
      if i < |st2.edges| {
        assert st3.edges[i] == st2.edges[i];
      }
    }
  }

  /** Appending edges into, and seals of, blocks created since `st` keeps `Grows`. */
  lemma Appended(st: State, mid: State, st': State, newEdges: seq<Edge>, newSeals: seq<Sealing>)
    requires Grows(st, mid) && |mid.blocks| <= |st'.blocks| && mid.values <= st'.values
    requires st'.edges == mid.edges + newEdges && st'.seals == mid.seals + newSeals
    requires forall k | 0 <= k < |newEdges| :: |st.blocks| <= newEdges[k].to
    requires forall k | 0 <= k < |newSeals| :: |st.blocks| <= newSeals[k].block
    ensures Grows(st, st')
  {
    forall i | |st.seals| <= i < |st'.seals|
      ensures |st.blocks| <= st'.seals[i].block
    {
      if i < |mid.seals| {
        assert st'.seals[i] == mid.seals[i];
      } else {
        assert st'.seals[i] == newSeals[i - |mid.seals|];
      }
    }
    forall i | |st.edges| <= i < |st'.edges|
      ensures |st.blocks| <= st'.edges[i].to
    {
      if i < |mid.edges| {
        assert st'.edges[i] == mid.edges[i];
      } else {
        assert st'.edges[i] == newEdges[i - |mid.edges|];
      }
    }
  }

  /**
    What evaluating operands and expressions may do: place instructions in the
    current block and read variables, nothing else. The current block, the block
    count, the seals, the edges and the declarations stay as they were, and every
    variable operation added is a use.
   */
  predicate Evaluates(st: State, st': State) {
    && st'.current == st.current
    && |st'.blocks| == |st.blocks|
    && st'.seals == st.seals
    && st'.edges == st.edges
    && st'.declared == st.declared
    && st.values <= st'.values
    && st.varLog <= st'.varLog
    && (forall i | |st.varLog| <= i < |st'.varLog| :: st'.varLog[i].Use?)
  }

  lemma EvaluatesTransitive(st1: State, st2: State, st3: State)
    requires Evaluates(st1, st2) && Evaluates(st2, st3)
    ensures Evaluates(st1, st3)
  {
    forall i | |st1.varLog| <= i < |st3.varLog|
      ensures st3.varLog[i].Use?
    {
      if i < |st2.varLog| {
        assert st3.varLog[i] == st2.varLog[i];
      }
    }
  }

  /** `val` only evaluates, and it misuses nothing when the table's variables are declared and a block is current. */
  lemma ValEvaluates(st: State, vars: VarTable, v: Value)
    ensures var r := ValSpec(st, vars, v);
      r.Ok? ==> (Evaluates(st, r.value.st)
             && (st.intact && st.Ready() && TableDeclared(st, vars) ==> r.value.st.intact))
  {
  }

  /** `eval` only evaluates, and it misuses nothing when the table's variables are declared and a block is current. */
  lemma EvalEvaluates(st: State, vars: VarTable, e: Expr)
    ensures var r := EvalSpec(st, vars, e);
      r.Ok? ==> (Evaluates(st, r.value.st)
             && (st.intact && st.Ready() && TableDeclared(st, vars) ==> r.value.st.intact))
  {
    var r := EvalSpec(st, vars, e);
    if r.Ok? {
      var l := ValSpec(st, vars, e.left).value;
      var rt := ValSpec(l.st, vars, e.right).value;
      ValEvaluates(st, vars, e.left);
      ValEvaluates(l.st, vars, e.right);
      OperatorEvaluates(rt.st, e.op, l.value, rt.value);
      EvaluatesTransitive(st, l.st, rt.st);
      EvaluatesTransitive(st, rt.st, r.value.st);
    }
  }

  /** The operator's instruction only evaluates, and misuses nothing when a block is current. */
  lemma OperatorEvaluates(st: State, op: Operation, lhs: SsaValue, rhs: SsaValue)
    ensures var r := OperatorSpec(st, op, lhs, rhs);
      r.Ok? ==> (Evaluates(st, r.value.st) && (st.intact && st.Ready() ==> r.value.st.intact))
  {
  }

  /** Evaluation keeps the invariant. */
  lemma EvaluatesKeepsInv(st: State, st': State, vars: VarTable, vc: nat)
    requires Inv(st, vars, vc) && Evaluates(st, st') && st'.intact
    ensures Inv(st', vars, vc) && Grows(st, st')
  {
  }

  /** Sealing one more existing block and moving to another existing block keep the invariant. */
  lemma SealKeepsInv(st: State, st': State, vars: VarTable, vc: nat)
    requires Inv(st, vars, vc) && st'.intact && st'.Ready()
    requires |st'.blocks| == |st.blocks| && st'.declared == st.declared
    requires |st'.seals| == |st.seals| + 1 && st.seals <= st'.seals && st'.seals[|st.seals|].block < |st.blocks|
    ensures Inv(st', vars, vc)
  {
    forall i | 0 <= i < |st.seals|
      ensures st'.seals[i].block < |st'.blocks|
    {
      assert st'.seals[i] == st.seals[i];
    }
  }

  /** A block beyond the last one is not sealed. */
  lemma BeyondUnsealed(st: State, b: BlockId)
    requires SealsExist(st) && |st.blocks| <= b
    ensures b !in st.Sealed()
  {
    forall s | s in st.seals
      ensures s.block != b
    {
      var i :| 0 <= i < |st.seals| && st.seals[i] == s;
    }
  }

  /** A block unsealed at `st` stays unsealed while only blocks created since `st` are sealed. */
  lemma StaysUnsealed(st: State, st': State, b: BlockId)
    requires Grows(st, st') && b < |st.blocks|
    requires forall i | 0 <= i < |st.seals| :: st.seals[i].block != b
    ensures b !in st'.Sealed()
  {
    forall s | s in st'.seals
      ensures s.block != b
    {
      var i :| 0 <= i < |st'.seals| && st'.seals[i] == s;
      if i < |st.seals| {
        assert st.seals[i] == st'.seals[i];
      }
    }
  }

  /**
    The start of an `If` from a builder that is intact and ready: nothing
    forbidden happens; the then-block and the continue-block are the two new
    blocks; the conditional branch to the then-block and the jump to the
    continue-block are the two new edges, both from the block that was current;
    the then-block becomes current; seals and variables are untouched.
   */
  lemma IfEntryFacts(st: State, cond: SsaValue)
    requires st.intact && st.Ready() && SealsExist(st)
    ensures var e, t := IfEntry(st, cond), |st.blocks|;
      && e.intact
      && |e.blocks| == t + 2
      && e.current == Some(t)
      && e.edges == st.edges + [Edge(st.current.value, t, Conditional), Edge(st.current.value, t + 1, Unconditional)]
      && e.seals == st.seals
      && e.declared == st.declared
      && e.varLog == st.varLog
      && e.values == st.values + 1
  {
    var t := |st.blocks|;
    var st1 := st.CreateBlock().CreateBlock().InsIconst(1);
    assert st1.Sealed() == st.Sealed();
    BeyondUnsealed(st, t);
    BeyondUnsealed(st, t + 1);
  }

  /** The end of an `If`: the then-block is sealed and the continue-block becomes current; nothing else changes. */
  lemma IfExitFacts(st: State, t: BlockId)
    requires st.intact && t + 1 < |st.blocks| && t !in st.Sealed()
    ensures var e := IfExit(st, t);
      && e.intact
      && e.current == Some(t + 1)
      && e.seals == st.seals + [Sealing(t, |st.edges|)]
      && e == st.(current := Some(t + 1), seals := e.seals)
  {
  }

  /**
    The start of a `Loop` from a builder that is intact and ready: nothing
    forbidden happens; the counter is declared, defined as the count in the block
    that was current and read in the header; the header and the exit are the two
    new blocks; the entry jump to the header and the exit test's branch from the
    header to the exit are the two new edges; the header becomes current.
   */
  lemma LoopEntryFacts(st: State, counter: Var, count: SsaValue)
    requires st.intact && st.Ready() && SealsExist(st)
    ensures var e, h := LoopEntry(st, counter, count), |st.blocks|;
      && e.intact
      && |e.blocks| == h + 2
      && e.current == Some(h)
      && e.edges == st.edges + [Edge(st.current.value, h, Unconditional), Edge(h, h + 1, Conditional)]
      && e.seals == st.seals
      && e.declared == st.declared + {counter}
      && e.varLog == st.varLog + [Declare(counter), Def(counter, count, st.current.value), Use(counter, st.values, h)]
      && e.values == st.values + 2
  {
    var h := |st.blocks|;
    var st1 := st.DeclareVar(counter).DefVar(counter, count).CreateBlock().CreateBlock();
    assert st1.Sealed() == st.Sealed();
    BeyondUnsealed(st, h);
    BeyondUnsealed(st, h + 1);
    var st2 := st1.InsJump(h).SwitchToBlock(h).UseVar(counter).InsIconst(0);
    assert st2.Sealed() == st.Sealed();
  }

  /**
    The end of a `Loop`: the back-edge from the current block to the header is the
    one new edge, the header's seal comes after it and records it, and the exit
    block becomes current.
   */
  lemma LoopExitFacts(st: State, h: BlockId)
    requires st.intact && st.Ready() && h + 1 < |st.blocks| && h !in st.Sealed()
    ensures var e := LoopExit(st, h);
      && e.intact
      && e.current == Some(h + 1)
      && |e.blocks| == |st.blocks|
      && e.values == st.values
      && e.edges == st.edges + [Edge(st.current.value, h, Unconditional)]
      && e.seals == st.seals + [Sealing(h, |st.edges| + 1)]
      && e.declared == st.declared
      && e.varLog == st.varLog
  {
    var st1 := st.InsJump(h);
    assert st1.Sealed() == st.Sealed();
  }

  /**
    Lowering never misuses the builder: from a builder satisfying `Inv`, a
    statement list that lowers leaves it satisfying `Inv` for the advanced
    counter number, having only added blocks and sealed only blocks it created.
   */
  lemma {:induction false} JitKeepsInv(st: State, vars: VarTable, instrs: seq<Instruction>, vc: nat)
    requires Inv(st, vars, vc)
    ensures var r := JitSpec(st, vars, instrs, vc);
      r.Ok? ==> Inv(r.value.st, vars, r.value.varcount) && vc <= r.value.varcount && Grows(st, r.value.st)
    decreases instrs, 1
  {
    if instrs != [] {
      var head := JitInstrSpec(st, vars, instrs[0], vc);
      InstrKeepsInv(st, vars, instrs[0], vc);
      if head.Ok? {
        var r := JitSpec(head.value.st, vars, instrs[1..], head.value.varcount);
        JitKeepsInv(head.value.st, vars, instrs[1..], head.value.varcount);
        if r.Ok? {
          GrowsTransitive(st, head.value.st, r.value.st);
        }
      }
    }
  }

  lemma {:induction false} InstrKeepsInv(st: State, vars: VarTable, instr: Instruction, vc: nat)
    requires Inv(st, vars, vc)
    ensures var r := JitInstrSpec(st, vars, instr, vc);
      r.Ok? ==> Inv(r.value.st, vars, r.value.varcount) && vc <= r.value.varcount && Grows(st, r.value.st)
    decreases instr, 1
  {
    match instr
    case Assign(to, expr) => AssignKeepsInv(st, vars, to, expr, vc);
    case If(_, _) => IfKeepsInv(st, vars, instr, vc);
    case Loop(_, _) => LoopKeepsInv(st, vars, instr, vc);
  }

  lemma AssignKeepsInv(st: State, vars: VarTable, to: string, expr: Expr, vc: nat)
    requires Inv(st, vars, vc)
    ensures var r := AssignSpec(st, vars, to, expr, vc);
      r.Ok? ==> Inv(r.value.st, vars, vc) && r.value.varcount == vc && Grows(st, r.value.st)
  {
    var r := AssignSpec(st, vars, to, expr, vc);
    if r.Ok? {
      var x := EvalSpec(st, vars, expr).value;
      EvalEvaluates(st, vars, expr);
      EvaluatesKeepsInv(st, x.st, vars, vc);
    }
  }

  lemma {:induction false} IfKeepsInv(st: State, vars: VarTable, instr: Instruction, vc: nat)
    requires instr.If? && Inv(st, vars, vc)
    ensures var r := IfSpec(st, vars, instr, vc);
      r.Ok? ==> Inv(r.value.st, vars, r.value.varcount) && vc <= r.value.varcount && Grows(st, r.value.st)
    decreases instr, 0
  {
    var c := EvalSpec(st, vars, instr.condition);
    IfEnters(st, vars, vc, instr.condition);
    if c.Ok? {
      var entry := IfEntry(c.value.st, c.value.value);
      var b := JitSpec(entry, vars, instr.body, vc);
      JitKeepsInv(entry, vars, instr.body, vc);
      if b.Ok? {
        IfExits(st, entry, b.value.st, vars, vc, b.value.varcount);
        assert IfSpec(st, vars, instr, vc) == Ok(Lowered(IfExit(b.value.st, |st.blocks|), b.value.varcount));
      }
    }
  }

  /** Evaluating an `If`'s condition and entering it keeps the invariant; the two new blocks are open. */
  lemma IfEnters(st: State, vars: VarTable, vc: nat, cond: Expr)
    requires Inv(st, vars, vc)
    ensures var c := EvalSpec(st, vars, cond);
      c.Ok? ==> var entry := IfEntry(c.value.st, c.value.value);
        && |c.value.st.blocks| == |st.blocks|
        && Inv(entry, vars, vc) && Grows(st, entry)
        && |entry.blocks| == |st.blocks| + 2 && entry.seals == st.seals
  {
    var c := EvalSpec(st, vars, cond);
    if c.Ok? {
      var mid := c.value.st;
      EvalEvaluates(st, vars, cond);
      EvaluatesKeepsInv(st, mid, vars, vc);
      var t := |mid.blocks|;
      var entry := IfEntry(mid, c.value.value);
      IfEntryFacts(mid, c.value.value);
      Appended(st, mid, entry, [Edge(mid.current.value, t, Conditional), Edge(mid.current.value, t + 1, Unconditional)], []);
    }
  }

  /** Leaving an `If` whose body kept the invariant keeps it. */
  lemma IfExits(st: State, entry: State, body: State, vars: VarTable, vc: nat, vc': nat)
    requires Inv(st, vars, vc) && Grows(st, entry) && |entry.blocks| == |st.blocks| + 2 && entry.seals == st.seals
    requires Inv(body, vars, vc') && Grows(entry, body)
    ensures var r := IfExit(body, |st.blocks|); Inv(r, vars, vc') && Grows(st, r)
  {
    var t := |st.blocks|;
    StaysUnsealed(entry, body, t);
    IfExitFacts(body, t);
    GrowsTransitive(st, entry, body);
    Appended(st, body, IfExit(body, t), [], [Sealing(t, |body.edges|)]);
    SealKeepsInv(body, IfExit(body, t), vars, vc');
  }

  lemma {:induction false} LoopKeepsInv(st: State, vars: VarTable, instr: Instruction, vc: nat)
    requires instr.Loop? && Inv(st, vars, vc)
    ensures var r := LoopSpec(st, vars, instr, vc);
      r.Ok? ==> Inv(r.value.st, vars, r.value.varcount) && vc < r.value.varcount && Grows(st, r.value.st)
    decreases instr, 0
  {
    var n := ValSpec(st, vars, instr.times);
    LoopEnters(st, vars, vc, instr.times);
    if n.Ok? {
      var entry := LoopEntry(n.value.st, vc, n.value.value);
      var b := JitSpec(entry, vars, instr.body, vc + 1);
      JitKeepsInv(entry, vars, instr.body, vc + 1);
      if b.Ok? {
        LoopExits(st, entry, b.value.st, vars, vc, b.value.varcount);
        assert LoopSpec(st, vars, instr, vc) == Ok(Lowered(LoopExit(b.value.st, |st.blocks|), b.value.varcount));
      }
    }
  }

  /** Reading a `Loop`'s count and entering it keeps the invariant for the next counter number. */
  lemma LoopEnters(st: State, vars: VarTable, vc: nat, times: Value)
    requires Inv(st, vars, vc)
    ensures var n := ValSpec(st, vars, times);
      n.Ok? ==> var entry := LoopEntry(n.value.st, vc, n.value.value);
        && |n.value.st.blocks| == |st.blocks|
        && Inv(entry, vars, vc + 1) && Grows(st, entry)
        && |entry.blocks| == |st.blocks| + 2 && entry.seals == st.seals
  {
    var n := ValSpec(st, vars, times);
    if n.Ok? {
      var mid := n.value.st;
      ValEvaluates(st, vars, times);
      EvaluatesKeepsInv(st, mid, vars, vc);
      var h := |mid.blocks|;
      var entry := LoopEntry(mid, vc, n.value.value);
      LoopEntryFacts(mid, vc, n.value.value);
      Appended(st, mid, entry, [Edge(mid.current.value, h, Unconditional), Edge(h, h + 1, Conditional)], []);
    }
  }

  /** Closing a `Loop` whose body kept the invariant keeps it. */
  lemma LoopExits(st: State, entry: State, body: State, vars: VarTable, vc: nat, vc': nat)
    requires Inv(st, vars, vc) && Grows(st, entry) && |entry.blocks| == |st.blocks| + 2 && entry.seals == st.seals
    requires Inv(body, vars, vc') && Grows(entry, body)
    ensures var r := LoopExit(body, |st.blocks|); Inv(r, vars, vc') && Grows(st, r)
  {
    var h := |st.blocks|;
    StaysUnsealed(entry, body, h);
    LoopExitFacts(body, h);
    GrowsTransitive(st, entry, body);
    Appended(st, body, LoopExit(body, h), [Edge(body.current.value, h, Unconditional)], [Sealing(h, |body.edges| + 1)]);
    SealKeepsInv(body, LoopExit(body, h), vars, vc');
  }
}
