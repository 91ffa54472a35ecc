/**
  Properties of statement and expression lowering (`jit`, `eval`, `val` in
  src/main.rs), stated about the specification functions of module Lowering and
  so about the methods proved equal to them.
 */
module LoweringFacts {
  import opened Wrappers
  import opened Structure
  import opened Words
  import opened Backend
  import opened Lowering
  import opened LoweringInvariant

  /** The number of `Loop` statements in `instrs`, nested bodies included. */
  function Loops(instrs: seq<Instruction>): nat
    decreases instrs, 1
  {
    if instrs == [] then 0 else LoopsIn(instrs[0]) + Loops(instrs[1..])
  }

  function LoopsIn(instr: Instruction): nat
    decreases instr, 0
  {
    match instr
    case Assign(_, _) => 0
    case If(_, body) => Loops(body)
    case Loop(_, body) => 1 + Loops(body)
  }

  /** The number of `If` and `Loop` statements in `instrs`, nested bodies included. */
  function Compounds(instrs: seq<Instruction>): nat
    decreases instrs, 1
  {
    if instrs == [] then 0 else CompoundsIn(instrs[0]) + Compounds(instrs[1..])
  }

  function CompoundsIn(instr: Instruction): nat
    decreases instr, 0
  {
    match instr
    case Assign(_, _) => 0
    case If(_, body) => 1 + Compounds(body)
    case Loop(_, body) => 1 + Compounds(body)
  }

  /** The numbers `lo`, `lo + 1`, ..., `hi - 1`, in order. */
  function Range(lo: nat, hi: nat): (r: seq<nat>)
    ensures |r| == if lo <= hi then hi - lo else 0
    ensures forall k | 0 <= k < |r| :: r[k] == lo + k
    decreases hi - lo
  {
    if lo >= hi then [] else [lo] + Range(lo + 1, hi)
  }

  lemma RangeSplit(lo: nat, mid: nat, hi: nat)
    requires lo <= mid <= hi
    ensures Range(lo, mid) + Range(mid, hi) == Range(lo, hi)
  {
  }

  /** The variables declared in `log`, in the order of their declarations. */
  function DeclaredIn(log: seq<VarOp>): seq<Var> {
    if log == [] then []
    else (if log[0].Declare? then [log[0].v] else []) + DeclaredIn(log[1..])
  }

  lemma {:induction false} DeclaredInAppend(a: seq<VarOp>, b: seq<VarOp>)
    ensures DeclaredIn(a + b) == DeclaredIn(a) + DeclaredIn(b)
  {
    if a != [] {
      assert (a + b)[1..] == a[1..] + b;
      DeclaredInAppend(a[1..], b);
    } else {
      assert a + b == b;
    }
  }

  lemma {:induction false} DeclaredInNone(log: seq<VarOp>)
    requires forall op | op in log :: !op.Declare?
    ensures DeclaredIn(log) == []
  {
    if log != [] {
      DeclaredInNone(log[1..]);
    }
  }

  /* In order: the empty list and concatenations. */

  /** An empty statement list leaves the builder and the counter number as they were. */
  lemma JitEmpty(st: State, vars: VarTable, vc: nat)
    ensures JitSpec(st, vars, [], vc) == Ok(Lowered(st, vc))
  {
  }

  /** Lowering a concatenation lowers the first part, then the second from where the first left off. */
  lemma {:induction false} JitInOrder(st: State, vars: VarTable, first: seq<Instruction>, rest: seq<Instruction>, vc: nat)
    ensures JitSpec(st, vars, first + rest, vc) ==
      match JitSpec(st, vars, first, vc)
      case Err(e) => Err(e)
      case Ok(l) => JitSpec(l.st, vars, rest, l.varcount)
    decreases first
  {
    if first == [] {
      assert first + rest == rest;
    } else {
      assert (first + rest)[0] == first[0];
      assert (first + rest)[1..] == first[1..] + rest;
      var head := JitInstrSpec(st, vars, first[0], vc);
      if head.Ok? {
        JitInOrder(head.value.st, vars, first[1..], rest, head.value.varcount);
      }
    }
  }

  /* Counting: how many blocks and loop counters `jit` creates. */

  /** The straight-line parts of `If` and `Loop` create two blocks on entry and none on exit. */
  lemma EntryExitBlocks(st: State, x: SsaValue, counter: Var, b: BlockId)
    ensures |IfEntry(st, x).blocks| == |st.blocks| + 2
    ensures |LoopEntry(st, counter, x).blocks| == |st.blocks| + 2
    ensures |IfExit(st, b).blocks| == |st.blocks|
    ensures |LoopExit(st, b).blocks| == |st.blocks|
  {
  }

  /**
    `jit` creates two blocks per `If` and per `Loop`, nested ones included, and
    advances the counter number by exactly the number of `Loop` statements.
   */
  lemma {:induction false} JitCounts(st: State, vars: VarTable, instrs: seq<Instruction>, vc: nat)
    ensures var r := JitSpec(st, vars, instrs, vc);
      r.Ok? ==> r.value.varcount == vc + Loops(instrs) && |r.value.st.blocks| == |st.blocks| + 2 * Compounds(instrs)
    decreases instrs, 1
  {
    if instrs != [] {
      var head := JitInstrSpec(st, vars, instrs[0], vc);
      InstrCounts(st, vars, instrs[0], vc);
      if head.Ok? {
        JitCounts(head.value.st, vars, instrs[1..], head.value.varcount);
      }
    }
  }

  lemma {:induction false} InstrCounts(st: State, vars: VarTable, instr: Instruction, vc: nat)
    ensures var r := JitInstrSpec(st, vars, instr, vc);
      r.Ok? ==> r.value.varcount == vc + LoopsIn(instr) && |r.value.st.blocks| == |st.blocks| + 2 * CompoundsIn(instr)
    decreases instr, 1
  {
    match instr
    case Assign(to, expr) =>
      if to in vars {
        EvalEvaluates(st, vars, expr);
      }
    case If(_, _) => IfCounts(st, vars, instr, vc);
    case Loop(_, _) => LoopCounts(st, vars, instr, vc);
  }

  lemma {:induction false} IfCounts(st: State, vars: VarTable, instr: Instruction, vc: nat)
    requires instr.If?
    ensures var r := IfSpec(st, vars, instr, vc);
      r.Ok? ==> r.value.varcount == vc + Loops(instr.body) && |r.value.st.blocks| == |st.blocks| + 2 + 2 * Compounds(instr.body)
    decreases instr, 0
  {
    var c := EvalSpec(st, vars, instr.condition);
    if c.Ok? {
      EvalEvaluates(st, vars, instr.condition);
      var entry := IfEntry(c.value.st, c.value.value);
      EntryExitBlocks(c.value.st, c.value.value, vc, 0);
      var b := JitSpec(entry, vars, instr.body, vc);
      JitCounts(entry, vars, instr.body, vc);
      if b.Ok? {
        EntryExitBlocks(b.value.st, 0, vc, |c.value.st.blocks|);
      }
    }
  }

  lemma {:induction false} LoopCounts(st: State, vars: VarTable, instr: Instruction, vc: nat)
    requires instr.Loop?
    ensures var r := LoopSpec(st, vars, instr, vc);
      r.Ok? ==> r.value.varcount == vc + 1 + Loops(instr.body) && |r.value.st.blocks| == |st.blocks| + 2 + 2 * Compounds(instr.body)
    decreases instr, 0
  {
    var n := ValSpec(st, vars, instr.times);
    if n.Ok? {
      ValEvaluates(st, vars, instr.times);
      var entry := LoopEntry(n.value.st, vc, n.value.value);
      EntryExitBlocks(n.value.st, n.value.value, vc, 0);
      var b := JitSpec(entry, vars, instr.body, vc + 1);
      JitCounts(entry, vars, instr.body, vc + 1);
      if b.Ok? {
        EntryExitBlocks(b.value.st, 0, vc, |n.value.st.blocks|);
      }
    }
  }

  /* Seals: which blocks `jit` seals. */

  /** `d` is even; recursive, so that arithmetic about it stays in the lemmas below. */
  predicate Even(d: nat) {
    if d < 2 then d == 0 else Even(d - 2)
  }

  lemma {:induction false} EvenShift(d: nat, n: nat)
    ensures Even(d + 2 * n) == Even(d)
  {
    if n > 0 {
      EvenShift(d, n - 1);
    }
  }

  lemma {:induction false} EvenIsParity(d: nat)
    ensures Even(d) <==> d % 2 == 0
  {
    if d >= 2 {
      EvenIsParity(d - 2);
    }
  }

  /**
    The seals added from `st` to `st'`: `n` of them, of distinct blocks created
    since `st`, each at an even distance from the first block created; the
    blocks created are `2 * n`. `If` and
    `Loop` create their blocks in pairs, the then-block or the header first, so
    only then-blocks and loop headers are sealed; every continue-block and exit
    block, at an odd distance, is left open.
   */
  predicate SealsPairFirsts(st: State, st': State, n: nat) {
    && |st'.blocks| == |st.blocks| + 2 * n
    && st.seals <= st'.seals && |st'.seals| == |st.seals| + n
    && (forall i | |st.seals| <= i < |st'.seals| ::
          |st.blocks| <= st'.seals[i].block < |st'.blocks| && Even(st'.seals[i].block - |st.blocks|))
    && (forall i, j | |st.seals| <= i < j < |st'.seals| :: st'.seals[i].block != st'.seals[j].block)
  }

  lemma SealsPairFirstsTransitive(st1: State, st2: State, st3: State, n1: nat, n2: nat)
    requires SealsPairFirsts(st1, st2, n1) && SealsPairFirsts(st2, st3, n2)
    ensures SealsPairFirsts(st1, st3, n1 + n2)
  {
    var base, mid := |st1.blocks|, |st2.blocks|;
    forall i | |st1.seals| <= i < |st3.seals|
      ensures base <= st3.seals[i].block < |st3.blocks| && Even(st3.seals[i].block - base)
    {
      if i < |st2.seals| {
        assert st3.seals[i] == st2.seals[i];
      } else {
        EvenShift(st3.seals[i].block - mid, n1);
      }
    }
    forall i, j | |st1.seals| <= i < j < |st3.seals|
      ensures st3.seals[i].block != st3.seals[j].block
    {
      if i < |st2.seals| {
        assert st3.seals[i] == st2.seals[i];
        if j < |st2.seals| {
          assert st3.seals[j] == st2.seals[j];
        }
      }
    }
  }

  /**
    `jit` seals one block per `If` and per `Loop`, nested ones included: each
    then-block and each loop header, once. No block it leaves open, the
    continue-blocks and exit blocks, is sealed before `seal_all_blocks`.
   */
  lemma {:induction false} JitSeals(st: State, vars: VarTable, instrs: seq<Instruction>, vc: nat)
    requires Inv(st, vars, vc)
    ensures var r := JitSpec(st, vars, instrs, vc); r.Ok? ==> SealsPairFirsts(st, r.value.st, Compounds(instrs))
    decreases instrs, 2
  {
    if instrs != [] {
      var head := JitInstrSpec(st, vars, instrs[0], vc);
      InstrSeals(st, vars, instrs[0], vc);
      InstrKeepsInv(st, vars, instrs[0], vc);
      if head.Ok? {
        RestSeals(st, head.value.st, vars, instrs[1..], head.value.varcount, CompoundsIn(instrs[0]));
        assert JitSpec(st, vars, instrs, vc) == JitSpec(head.value.st, vars, instrs[1..], head.value.varcount);
        assert Compounds(instrs) == CompoundsIn(instrs[0]) + Compounds(instrs[1..]);
      }
    }
  }

  /** The seals of the statements after the first, added to the first's. */
  lemma {:induction false} RestSeals(st: State, mid: State, vars: VarTable, rest: seq<Instruction>, vc: nat, n: nat)
    requires SealsPairFirsts(st, mid, n) && Inv(mid, vars, vc)
    ensures var r := JitSpec(mid, vars, rest, vc); r.Ok? ==> SealsPairFirsts(st, r.value.st, n + Compounds(rest))
    decreases rest, 3
  {
    var r := JitSpec(mid, vars, rest, vc);
    JitSeals(mid, vars, rest, vc);
    if r.Ok? {
      SealsPairFirstsTransitive(st, mid, r.value.st, n, Compounds(rest));
    }
  }

  lemma {:induction false} InstrSeals(st: State, vars: VarTable, instr: Instruction, vc: nat)
    requires Inv(st, vars, vc)
    ensures var r := JitInstrSpec(st, vars, instr, vc); r.Ok? ==> SealsPairFirsts(st, r.value.st, CompoundsIn(instr))
    decreases instr, 1
  {
    match instr
    case Assign(to, expr) => AssignShape(st, vars, to, expr, vc);
    case If(_, _) => IfSeals(st, vars, instr, vc);
    case Loop(_, _) => LoopSeals(st, vars, instr, vc);
  }

  lemma {:induction false} IfSeals(st: State, vars: VarTable, instr: Instruction, vc: nat)
    requires instr.If? && Inv(st, vars, vc)
    ensures var r := IfSpec(st, vars, instr, vc); r.Ok? ==> SealsPairFirsts(st, r.value.st, 1 + Compounds(instr.body))
    decreases instr, 0
  {
    IfBodySeals(st, vars, instr.condition, instr.body, vc);
  }

  lemma {:induction false} LoopSeals(st: State, vars: VarTable, instr: Instruction, vc: nat)
    requires instr.Loop? && Inv(st, vars, vc)
    ensures var r := LoopSpec(st, vars, instr, vc); r.Ok? ==> SealsPairFirsts(st, r.value.st, 1 + Compounds(instr.body))
    decreases instr, 0
  {
    LoopBodySeals(st, vars, instr.times, instr.body, vc);
  }

  /** The steps of an `If`, from the condition to the then-block's seal. */
  lemma {:induction false} IfBodySeals(st: State, vars: VarTable, cond: Expr, body: seq<Instruction>, vc: nat)
    requires Inv(st, vars, vc)
    ensures var c := EvalSpec(st, vars, cond);
      c.Ok? ==> var b := JitSpec(IfEntry(c.value.st, c.value.value), vars, body, vc);
        b.Ok? ==> SealsPairFirsts(st, IfExit(b.value.st, |c.value.st.blocks|), 1 + Compounds(body))
    decreases body, 3
  {
    var c := EvalSpec(st, vars, cond);
    IfEnters(st, vars, vc, cond);
    if c.Ok? {
      var entry := IfEntry(c.value.st, c.value.value);
      var b := JitSpec(entry, vars, body, vc);
      JitKeepsInv(entry, vars, body, vc);
      JitSeals(entry, vars, body, vc);
      if b.Ok? {
        IfLeavesSeals(st, entry, b.value.st, vars, b.value.varcount, Compounds(body));
      }
    }
  }

  /** The steps of a `Loop`, from the count to the header's seal. */
  lemma {:induction false} LoopBodySeals(st: State, vars: VarTable, times: Value, body: seq<Instruction>, vc: nat)
    requires Inv(st, vars, vc)
    ensures var n := ValSpec(st, vars, times);
      n.Ok? ==> var b := JitSpec(LoopEntry(n.value.st, vc, n.value.value), vars, body, vc + 1);
        b.Ok? ==> SealsPairFirsts(st, LoopExit(b.value.st, |n.value.st.blocks|), 1 + Compounds(body))
    decreases body, 3
  {
    var n := ValSpec(st, vars, times);
    LoopEnters(st, vars, vc, times);
    if n.Ok? {
      var entry := LoopEntry(n.value.st, vc, n.value.value);
      var b := JitSpec(entry, vars, body, vc + 1);
      JitKeepsInv(entry, vars, body, vc + 1);
      JitSeals(entry, vars, body, vc + 1);
      if b.Ok? {
        LoopLeavesSeals(st, entry, b.value.st, vars, b.value.varcount, Compounds(body));
      }
    }
  }

  lemma IfLeavesSeals(st: State, entry: State, body: State, vars: VarTable, vc': nat, n: nat)
    requires st.Ready() && SealsExist(st)
    requires entry.seals == st.seals && |entry.blocks| == |st.blocks| + 2
    requires Inv(body, vars, vc') && Grows(entry, body) && SealsPairFirsts(entry, body, n)
    ensures SealsPairFirsts(st, IfExit(body, |st.blocks|), n + 1)
  {
    var t := |st.blocks|;
    StaysUnsealed(entry, body, t);
    IfExitFacts(body, t);
    SealsPairClosed(st, entry, body, IfExit(body, t), n);
  }

  lemma LoopLeavesSeals(st: State, entry: State, body: State, vars: VarTable, vc': nat, n: nat)
    requires st.Ready() && SealsExist(st)
    requires entry.seals == st.seals && |entry.blocks| == |st.blocks| + 2
    requires Inv(body, vars, vc') && Grows(entry, body) && SealsPairFirsts(entry, body, n)
    ensures SealsPairFirsts(st, LoopExit(body, |st.blocks|), n + 1)
  {
    var h := |st.blocks|;
    StaysUnsealed(entry, body, h);
    LoopExitFacts(body, h);
    SealsPairClosed(st, entry, body, LoopExit(body, h), n);
  }

  /** Sealing the first of the two blocks a statement created, after its body. */
  lemma SealsPairClosed(st: State, entry: State, body: State, st': State, n: nat)
    requires entry.seals == st.seals && |entry.blocks| == |st.blocks| + 2 && |body.blocks| == |st'.blocks|
    requires SealsPairFirsts(entry, body, n)
    requires body.seals <= st'.seals && |st'.seals| == |body.seals| + 1 && st'.seals[|body.seals|].block == |st.blocks|
    ensures SealsPairFirsts(st, st', n + 1)
  {
    var t, k := |st.blocks|, |body.seals|;
    forall i | |st.seals| <= i < |st'.seals|
      ensures t <= st'.seals[i].block < |st'.blocks| && Even(st'.seals[i].block - t)
    {
      if i < k {
        assert st'.seals[i] == body.seals[i];
        EvenShift(st'.seals[i].block - (t + 2), 1);
      }
    }
    forall i, j | |st.seals| <= i < j < |st'.seals|
      ensures st'.seals[i].block != st'.seals[j].block
    {
      assert st'.seals[i] == body.seals[i];
      if j < k {
        assert st'.seals[j] == body.seals[j];
      }
    }
  }


  /* Control flow: the edges and seals each statement adds. That `jit` branches
     and jumps only to blocks it created, and seals only those, is part of
     `JitKeepsInv` (see `Grows`). */

  /**
    The control flow an `If` adds from `st` to `st'`, where `t` is the number the
    then-block gets and `t + 1` the continue-block's: from the block current
    before, a conditional branch to the then-block and then a jump to the
    continue-block; the body's edges all lead to blocks created inside it, so
    neither the then-block nor the continue-block gets another predecessor (in
    particular the then-block never jumps to the continue-block); the last seal is
    the then-block's, taken with every edge known; the continue-block is current
    and not sealed.
   */
  predicate IfShaped(st: State, st': State) {
    var t, k := |st.blocks|, |st.edges|;
    && st.Ready()
    && st.edges <= st'.edges && k + 2 <= |st'.edges|
    && st'.edges[k] == Edge(st.current.value, t, Conditional)
    && st'.edges[k + 1] == Edge(st.current.value, t + 1, Unconditional)
    && (forall i | k + 2 <= i < |st'.edges| :: t + 2 <= st'.edges[i].to)
    && |st'.seals| > 0 && st'.seals[|st'.seals| - 1] == Sealing(t, |st'.edges|)
    && st'.current == Some(t + 1) && t + 1 !in st'.Sealed()
  }

  /**
    The control flow a `Loop` adds from `st` to `st'`, where `h` is the number the
    header gets and `h + 1` the exit block's: the entry jump from the block
    current before to the header; the exit test's conditional branch from the
    header to the exit; the body's edges, all into blocks created inside it; and
    last the back-edge, a jump to the header. So the header has exactly two
    predecessors, the entry and the back-edge, and the exit exactly one. The last
    seal is the header's, taken after the back-edge with every edge known; the
    exit block is current and not sealed.
   */
  predicate LoopShaped(st: State, st': State) {
    var h, k, n := |st.blocks|, |st.edges|, |st'.edges|;
    && st.Ready()
    && st.edges <= st'.edges && k + 3 <= n
    && st'.edges[k] == Edge(st.current.value, h, Unconditional)
    && st'.edges[k + 1] == Edge(h, h + 1, Conditional)
    && (forall i | k + 2 <= i < n - 1 :: h + 2 <= st'.edges[i].to)
    && st'.edges[n - 1].to == h && st'.edges[n - 1].kind == Unconditional
    && |st'.seals| > 0 && st'.seals[|st'.seals| - 1] == Sealing(h, n)
    && st'.current == Some(h + 1) && h + 1 !in st'.Sealed()
  }

  /**
    The instructions entering an `If` places: in the block current before, the
    constant 1, a branch to the then-block taken when the condition equals that
    constant, and a jump to the continue-block; both new blocks start empty and
    the then-block becomes current.
   */
  lemma IfBranches(st: State, cond: SsaValue)
    requires st.intact && st.Ready() && SealsExist(st)
    ensures var e, t, cur, one := IfEntry(st, cond), |st.blocks|, st.current.value, st.values;
      && |e.blocks| == t + 2 && e.current == Some(t)
      && e.blocks[cur].insts == st.blocks[cur].insts + [Iconst(one, 1), BrIcmp(IntCC.Equal, cond, one, t), Jump(t + 1)]
      && e.blocks[t] == Block([], []) && e.blocks[t + 1] == Block([], [])
  {
    var t, cur, one := |st.blocks|, st.current.value, st.values;
    var created := st.CreateBlock().CreateBlock();
    assert created.blocks == st.blocks + [Block([], []), Block([], [])];
    BeyondUnsealed(st, t);
    BeyondUnsealed(st, t + 1);
    var insts := st.blocks[cur].insts;
    var c1 := created.InsIconst(1);
    assert c1.blocks == created.blocks[cur := Block(st.blocks[cur].params, insts + [Iconst(one, 1)])];
    assert c1.Sealed() == st.Sealed() && c1.Ready();
    assert c1.blocks[cur].insts + [BrIcmp(IntCC.Equal, cond, one, t)] == insts + [Iconst(one, 1), BrIcmp(IntCC.Equal, cond, one, t)];
    var c2 := c1.InsBrIcmp(IntCC.Equal, cond, one, t);
    assert c2.blocks == created.blocks[cur := Block(st.blocks[cur].params, insts + [Iconst(one, 1), BrIcmp(IntCC.Equal, cond, one, t)])];
    assert c2.Sealed() == st.Sealed();
    assert c2.blocks[cur].insts + [Jump(t + 1)] == insts + [Iconst(one, 1), BrIcmp(IntCC.Equal, cond, one, t), Jump(t + 1)];
    var c3 := c2.InsJump(t + 1);
    assert c3.blocks == created.blocks[cur := Block(st.blocks[cur].params, insts + [Iconst(one, 1), BrIcmp(IntCC.Equal, cond, one, t), Jump(t + 1)])];
  }

  /** The control flow of an `If`. */
  lemma {:induction false} IfShape(st: State, vars: VarTable, instr: Instruction, vc: nat)
    requires instr.If? && Inv(st, vars, vc)
    ensures var r := IfSpec(st, vars, instr, vc); r.Ok? ==> IfShaped(st, r.value.st)
  {
    var c := EvalSpec(st, vars, instr.condition);
    IfEnters(st, vars, vc, instr.condition);
    IfEntersEdges(st, vars, vc, instr.condition);
    if c.Ok? {
      var entry := IfEntry(c.value.st, c.value.value);
      var b := JitSpec(entry, vars, instr.body, vc);
      JitKeepsInv(entry, vars, instr.body, vc);
      if b.Ok? {
        IfLeaves(st, entry, b.value.st, vars, b.value.varcount);
        assert IfSpec(st, vars, instr, vc) == Ok(Lowered(IfExit(b.value.st, |st.blocks|), b.value.varcount));
      }
    }
  }

  /** Entering an `If` branches to the then-block and jumps to the continue-block. */
  lemma IfEntersEdges(st: State, vars: VarTable, vc: nat, cond: Expr)
    requires Inv(st, vars, vc)
    ensures var c := EvalSpec(st, vars, cond);
      c.Ok? ==> (IfEntry(c.value.st, c.value.value).edges
                 == st.edges + [Edge(st.current.value, |st.blocks|, Conditional), Edge(st.current.value, |st.blocks| + 1, Unconditional)])
  {
    var c := EvalSpec(st, vars, cond);
    if c.Ok? {
      EvalEvaluates(st, vars, cond);
      EvaluatesKeepsInv(st, c.value.st, vars, vc);
      IfEntryFacts(c.value.st, c.value.value);
    }
  }

  lemma IfLeaves(st: State, entry: State, body: State, vars: VarTable, vc': nat)
    requires st.Ready() && SealsExist(st)
    requires entry.edges == st.edges + [Edge(st.current.value, |st.blocks|, Conditional),
                                        Edge(st.current.value, |st.blocks| + 1, Unconditional)]
    requires |entry.blocks| == |st.blocks| + 2 && entry.seals == st.seals
    requires Inv(body, vars, vc') && Grows(entry, body)
    ensures IfShaped(st, IfExit(body, |st.blocks|))
  {
    var t := |st.blocks|;
    StaysUnsealed(entry, body, t);
    StaysUnsealed(entry, body, t + 1);
    IfExitFacts(body, t);
    var r := IfExit(body, t);
    assert r.Sealed() == body.Sealed() + {t};
    assert r.edges[|st.edges|] == entry.edges[|st.edges|];
    assert r.edges[|st.edges| + 1] == entry.edges[|st.edges| + 1];
  }

  /**
    The instructions entering a `Loop` places: a jump to the header ends the
    block current before; the header reads the counter and the constant 0 and
    branches to the exit block when the counter is at most 0, read as signed; the
    exit block starts empty. The log gains the counter's declaration, its
    definition to the count in the block current before, and the header's read.
   */
  lemma LoopBranches(st: State, counter: Var, count: SsaValue)
    requires st.intact && st.Ready() && SealsExist(st)
    ensures var e, h, cur, v := LoopEntry(st, counter, count), |st.blocks|, st.current.value, st.values;
      && |e.blocks| == h + 2 && e.current == Some(h)
      && e.blocks[cur].insts == st.blocks[cur].insts + [Jump(h)]
      && e.blocks[h].insts == [Iconst(v + 1, 0), BrIcmp(SignedLessThanOrEqual, v, v + 1, h + 1)]
      && e.blocks[h + 1] == Block([], [])
      && e.varLog == st.varLog + [Declare(counter), Def(counter, count, cur), Use(counter, v, h)]
  {
    var h, cur, v := |st.blocks|, st.current.value, st.values;
    var defined := st.DeclareVar(counter).DefVar(counter, count);
    assert defined == st.(declared := st.declared + {counter}, varLog := st.varLog + [Declare(counter), Def(counter, count, cur)]);
    var created := defined.CreateBlock().CreateBlock();
    assert created.blocks == st.blocks + [Block([], []), Block([], [])];
    BeyondUnsealed(st, h);
    BeyondUnsealed(st, h + 1);
    var jumped := created.InsJump(h);
    assert jumped.blocks == created.blocks[cur := Block(st.blocks[cur].params, st.blocks[cur].insts + [Jump(h)])];
    assert jumped.Sealed() == st.Sealed();
    var header := jumped.SwitchToBlock(h);
    assert header.blocks[h] == Block([], []);
    var read := header.UseVar(counter);
    var zero := read.InsIconst(0);
    assert zero.blocks[h].insts == [Iconst(v + 1, 0)];
    assert zero.Sealed() == st.Sealed();
  }

  /** The control flow of a `Loop`. */
  lemma {:induction false} LoopShape(st: State, vars: VarTable, instr: Instruction, vc: nat)
    requires instr.Loop? && Inv(st, vars, vc)
    ensures var r := LoopSpec(st, vars, instr, vc); r.Ok? ==> LoopShaped(st, r.value.st)
  {
    var n := ValSpec(st, vars, instr.times);
    LoopEnters(st, vars, vc, instr.times);
    LoopEntersEdges(st, vars, vc, instr.times);
    if n.Ok? {
      var entry := LoopEntry(n.value.st, vc, n.value.value);
      var b := JitSpec(entry, vars, instr.body, vc + 1);
      JitKeepsInv(entry, vars, instr.body, vc + 1);
      if b.Ok? {
        LoopLeaves(st, entry, b.value.st, vars, b.value.varcount);
        assert LoopSpec(st, vars, instr, vc) == Ok(Lowered(LoopExit(b.value.st, |st.blocks|), b.value.varcount));
      }
    }
  }

  /** Entering a `Loop` jumps to the header, whose exit test branches to the exit block. */
  lemma LoopEntersEdges(st: State, vars: VarTable, vc: nat, times: Value)
    requires Inv(st, vars, vc)
    ensures var n := ValSpec(st, vars, times);
      n.Ok? ==> (LoopEntry(n.value.st, vc, n.value.value).edges
                 == st.edges + [Edge(st.current.value, |st.blocks|, Unconditional), Edge(|st.blocks|, |st.blocks| + 1, Conditional)])
  {
    var n := ValSpec(st, vars, times);
    if n.Ok? {
      ValEvaluates(st, vars, times);
      EvaluatesKeepsInv(st, n.value.st, vars, vc);
      LoopEntryFacts(n.value.st, vc, n.value.value);
    }
  }

  lemma LoopLeaves(st: State, entry: State, body: State, vars: VarTable, vc': nat)
    requires st.Ready() && SealsExist(st)
    requires entry.edges == st.edges + [Edge(st.current.value, |st.blocks|, Unconditional),
                                        Edge(|st.blocks|, |st.blocks| + 1, Conditional)]
    requires |entry.blocks| == |st.blocks| + 2 && entry.seals == st.seals
    requires Inv(body, vars, vc') && Grows(entry, body)
    ensures LoopShaped(st, LoopExit(body, |st.blocks|))
  {
    var h := |st.blocks|;
    StaysUnsealed(entry, body, h);
    StaysUnsealed(entry, body, h + 1);
    LoopExitFacts(body, h);
    var r := LoopExit(body, h);
    assert r.Sealed() == body.Sealed() + {h};
    assert r.edges[|st.edges|] == entry.edges[|st.edges|];
    assert r.edges[|st.edges| + 1] == entry.edges[|st.edges| + 1];
    forall i | |st.edges| + 2 <= i < |r.edges| - 1
      ensures h + 2 <= r.edges[i].to
    {
      assert r.edges[i] == body.edges[i];
    }
  }

  /* Variables: which variables `jit` declares and defines. */

  /**
    The variable operations added between `st` and `st'`, while the loop-counter
    number goes from `vc` to `vc'`: the new declarations are exactly the counters
    `vc` up to `vc'`, each once and in order; every new definition stores a value
    created since `st` into a variable of the table or into one of those counters.
   */
  predicate Logged(st: State, st': State, vars: VarTable, vc: nat, vc': nat) {
    && st.values <= st'.values && vc <= vc'
    && st.varLog <= st'.varLog
    && DeclaredIn(st'.varLog[|st.varLog|..]) == Range(vc, vc')
    && (forall i | |st.varLog| <= i < |st'.varLog| && st'.varLog[i].Def? ::
          st.values <= st'.varLog[i].value && (st'.varLog[i].v in vars.Values || vc <= st'.varLog[i].v < vc'))
  }

  lemma LoggedTransitive(st1: State, st2: State, st3: State, vars: VarTable, vc1: nat, vc2: nat, vc3: nat)
    requires Logged(st1, st2, vars, vc1, vc2) && Logged(st2, st3, vars, vc2, vc3)
    ensures Logged(st1, st3, vars, vc1, vc3)
  {
    assert st3.varLog[|st1.varLog|..] == st2.varLog[|st1.varLog|..] + st3.varLog[|st2.varLog|..];
    DeclaredInAppend(st2.varLog[|st1.varLog|..], st3.varLog[|st2.varLog|..]);
    RangeSplit(vc1, vc2, vc3);
    forall i | |st1.varLog| <= i < |st3.varLog| && st3.varLog[i].Def?
      ensures st1.values <= st3.varLog[i].value && (st3.varLog[i].v in vars.Values || vc1 <= st3.varLog[i].v < vc3)
    {
      if i < |st2.varLog| {
        assert st3.varLog[i] == st2.varLog[i];
      }
    }
  }

  /** Evaluating operands and expressions declares and defines nothing. */
  lemma EvaluatesLogged(st: State, st': State, vars: VarTable, vc: nat)
    requires Evaluates(st, st')
    ensures Logged(st, st', vars, vc, vc)
  {
    var added := st'.varLog[|st.varLog|..];
    forall op | op in added
      ensures !op.Declare?
    {
      var j :| 0 <= j < |added| && added[j] == op;
      assert added[j] == st'.varLog[|st.varLog| + j];
    }
    DeclaredInNone(added);
  }

  /** The ends of `If` and `Loop` neither create SSA values nor touch the variables. */
  lemma ExitsLeaveVariables(st: State, b: BlockId)
    ensures IfExit(st, b).varLog == st.varLog && IfExit(st, b).values == st.values
    ensures LoopExit(st, b).varLog == st.varLog && LoopExit(st, b).values == st.values
  {
  }

  /**
    `jit` declares exactly the counters from `vc` on, one per `Loop`, in order, and
    defines only variables of the table and those counters, with values it created.
   */
  lemma {:induction false} JitLogs(st: State, vars: VarTable, instrs: seq<Instruction>, vc: nat)
    requires Inv(st, vars, vc)
    ensures var r := JitSpec(st, vars, instrs, vc); r.Ok? ==> Logged(st, r.value.st, vars, vc, r.value.varcount)
    decreases instrs, 1
  {
    if instrs == [] {
      assert st.varLog[|st.varLog|..] == [];
    } else {
      var head := JitInstrSpec(st, vars, instrs[0], vc);
      InstrLogs(st, vars, instrs[0], vc);
      InstrKeepsInv(st, vars, instrs[0], vc);  // the rest starts from an invariant state
      if head.Ok? {
        var r := JitSpec(head.value.st, vars, instrs[1..], head.value.varcount);
        JitLogs(head.value.st, vars, instrs[1..], head.value.varcount);
        if r.Ok? {
          LoggedTransitive(st, head.value.st, r.value.st, vars, vc, head.value.varcount, r.value.varcount);
        }
      }
    }
  }

  lemma {:induction false} InstrLogs(st: State, vars: VarTable, instr: Instruction, vc: nat)
    requires Inv(st, vars, vc)
    ensures var r := JitInstrSpec(st, vars, instr, vc); r.Ok? ==> Logged(st, r.value.st, vars, vc, r.value.varcount)
    decreases instr, 1
  {
    match instr
    case Assign(to, expr) => AssignShape(st, vars, to, expr, vc);
    case If(_, _) => IfLogs(st, vars, instr, vc);
    case Loop(_, _) => LoopLogs(st, vars, instr, vc);
  }

  /**
    An `Assign` creates no block and adds no edge or seal; it reads its operands
    (uses only) and then adds one definition: the target variable gets the
    expression's value, in the current block.
   */
  lemma AssignShape(st: State, vars: VarTable, to: string, expr: Expr, vc: nat)
    requires Inv(st, vars, vc)
    ensures var r := AssignSpec(st, vars, to, expr, vc);
      r.Ok? ==> var st', n := r.value.st, |r.value.st.varLog|;
        && |st'.blocks| == |st.blocks| && st'.edges == st.edges && st'.seals == st.seals
        && st'.current == st.current && r.value.varcount == vc
        && st.varLog <= st'.varLog && |st.varLog| < n
        && st'.varLog[n - 1] == Def(vars[to], st.values + 2, st.current.value)
        && (forall i | |st.varLog| <= i < n - 1 :: st'.varLog[i].Use?)
        && Logged(st, st', vars, vc, vc)
  {
    var r := AssignSpec(st, vars, to, expr, vc);
    if r.Ok? {
      var x := EvalSpec(st, vars, expr).value;
      EvalEvaluates(st, vars, expr);
      EvaluatesLogged(st, x.st, vars, vc);
      var def := Def(vars[to], x.value, st.current.value);
      assert r.value.st.varLog == x.st.varLog + [def];
      AddedDef(st, x.st, r.value.st, vars, vc, def);
    }
  }

  lemma AddedDef(st: State, mid: State, st': State, vars: VarTable, vc: nat, def: VarOp)
    requires Logged(st, mid, vars, vc, vc) && st'.varLog == mid.varLog + [def] && mid.values <= st'.values
    requires def.Def? && st.values <= def.value && def.v in vars.Values
    ensures Logged(st, st', vars, vc, vc)
  {
    assert st'.varLog[|st.varLog|..] == mid.varLog[|st.varLog|..] + [def];
    DeclaredInAppend(mid.varLog[|st.varLog|..], [def]);
    assert DeclaredIn([def]) == [];
  }

  lemma {:induction false} IfLogs(st: State, vars: VarTable, instr: Instruction, vc: nat)
    requires instr.If? && Inv(st, vars, vc)
    ensures var r := IfSpec(st, vars, instr, vc); r.Ok? ==> Logged(st, r.value.st, vars, vc, r.value.varcount)
    decreases instr, 0
  {
    var c := EvalSpec(st, vars, instr.condition);
    IfEnters(st, vars, vc, instr.condition);
    IfEntersLogged(st, vars, vc, instr.condition);
    if c.Ok? {
      var entry := IfEntry(c.value.st, c.value.value);
      var b := JitSpec(entry, vars, instr.body, vc);
      JitLogs(entry, vars, instr.body, vc);
      if b.Ok? {
        LoggedTransitive(st, entry, b.value.st, vars, vc, vc, b.value.varcount);
        ExitsLeaveVariables(b.value.st, |st.blocks|);
        assert IfSpec(st, vars, instr, vc) == Ok(Lowered(IfExit(b.value.st, |st.blocks|), b.value.varcount));
      }
    }
  }

  /** Evaluating an `If`'s condition and entering it declares and defines nothing. */
  lemma IfEntersLogged(st: State, vars: VarTable, vc: nat, cond: Expr)
    ensures var c := EvalSpec(st, vars, cond);
      c.Ok? ==> var entry := IfEntry(c.value.st, c.value.value);
        Logged(st, entry, vars, vc, vc)
  {
    var c := EvalSpec(st, vars, cond);
    if c.Ok? {
      var mid := c.value.st;
      EvalEvaluates(st, vars, cond);
      EvaluatesLogged(st, mid, vars, vc);
      var entry := IfEntry(mid, c.value.value);
      assert entry.varLog == mid.varLog;
      assert entry.values == mid.values + 1;
    }
  }

  /** The definitions of `v` in `log`, in order. */
  function DefsOf(log: seq<VarOp>, v: Var): seq<VarOp> {
    if log == [] then []
    else (if log[0].Def? && log[0].v == v then [log[0]] else []) + DefsOf(log[1..], v)
  }

  lemma {:induction false} DefsOfAppend(a: seq<VarOp>, b: seq<VarOp>, v: Var)
    ensures DefsOf(a + b, v) == DefsOf(a, v) + DefsOf(b, v)
  {
    if a != [] {
      assert (a + b)[1..] == a[1..] + b;
      DefsOfAppend(a[1..], b, v);
    } else {
      assert a + b == b;
    }
  }

  lemma {:induction false} DefsOfNone(log: seq<VarOp>, v: Var)
    requires forall i | 0 <= i < |log| :: log[i].Def? ==> log[i].v != v
    ensures DefsOf(log, v) == []
  {
    if log != [] {
      DefsOfNone(log[1..], v);
    }
  }

  /**
    The definitions of the counter of a `Loop` from `st` to `st'`: exactly one,
    in the block current before the loop, to the count, which is the value `st`
    numbers next. So the counter is never redefined, and never decremented.
   */
  predicate CounterFixed(st: State, st': State, counter: Var) {
    && st.Ready() && st.varLog <= st'.varLog
    && DefsOf(st'.varLog[|st.varLog|..], counter) == [Def(counter, st.values, st.current.value)]
  }

  /**
    A `Loop` declares exactly its own counter `vc` and the counters of the loops
    nested in it; it defines its counter once, to the count, and never again.
   */
  lemma {:induction false} LoopLogs(st: State, vars: VarTable, instr: Instruction, vc: nat)
    requires instr.Loop? && Inv(st, vars, vc)
    ensures var r := LoopSpec(st, vars, instr, vc);
      r.Ok? ==> Logged(st, r.value.st, vars, vc, r.value.varcount) && CounterFixed(st, r.value.st, vc)
    decreases instr, 0
  {
    var n := ValSpec(st, vars, instr.times);
    LoopEntersLogged(st, vars, vc, instr.times);
    if n.Ok? {
      var entry := LoopEntry(n.value.st, vc, n.value.value);
      var b := JitSpec(entry, vars, instr.body, vc + 1);
      JitLogs(entry, vars, instr.body, vc + 1);
      if b.Ok? {
        var body := b.value.st;
        LoopLeavesLogged(st, entry, body, vars, vc, b.value.varcount);
        assert LoopSpec(st, vars, instr, vc) == Ok(Lowered(LoopExit(body, |st.blocks|), b.value.varcount));
      }
    }
  }

  lemma LoopLeavesLogged(st: State, entry: State, body: State, vars: VarTable, vc: nat, vc': nat)
    requires forall name | name in vars :: vars[name] < vc
    requires Logged(st, entry, vars, vc, vc + 1) && CounterFixed(st, entry, vc)
    requires Logged(entry, body, vars, vc + 1, vc')
    ensures Logged(st, LoopExit(body, |st.blocks|), vars, vc, vc')
    ensures CounterFixed(st, LoopExit(body, |st.blocks|), vc)
  {
    LoggedTransitive(st, entry, body, vars, vc, vc + 1, vc');
    CounterKept(st, entry, body, vars, vc, vc');
    ExitsLeaveVariables(body, |st.blocks|);
  }

  /** Reading a `Loop`'s count and entering it declares the counter `vc` and defines it to the count. */
  lemma LoopEntersLogged(st: State, vars: VarTable, vc: nat, times: Value)
    requires Inv(st, vars, vc)
    ensures var n := ValSpec(st, vars, times);
      n.Ok? ==> var entry := LoopEntry(n.value.st, vc, n.value.value);
        Inv(entry, vars, vc + 1) && Logged(st, entry, vars, vc, vc + 1) && CounterFixed(st, entry, vc)
  {
    var n := ValSpec(st, vars, times);
    LoopEnters(st, vars, vc, times);
    if n.Ok? {
      var mid := n.value.st;
      ValEvaluates(st, vars, times);
      EvaluatesKeepsInv(st, mid, vars, vc);
      LoopEntryFacts(mid, vc, n.value.value);
      LoopEntryLogged(st, mid, LoopEntry(mid, vc, n.value.value), vars, vc);
    }
  }

  lemma LoopEntryLogged(st: State, mid: State, entry: State, vars: VarTable, vc: nat)
    requires st.Ready() && Evaluates(st, mid) && st.values < mid.values <= entry.values
    requires entry.varLog == mid.varLog + [Declare(vc), Def(vc, st.values, mid.current.value), Use(vc, mid.values, |mid.blocks|)]
    ensures Logged(st, entry, vars, vc, vc + 1)
    ensures CounterFixed(st, entry, vc)
  {
    var uses := mid.varLog[|st.varLog|..];
    var entered := [Declare(vc), Def(vc, st.values, mid.current.value), Use(vc, mid.values, |mid.blocks|)];
    assert entry.varLog[|st.varLog|..] == uses + entered;
    DeclaredInAppend(uses, entered);
    EvaluatesLogged(st, mid, vars, vc);
    DeclaredInNone(entered[1..]);
    assert DeclaredIn(entered) == [vc];
    DefsOfAppend(uses, entered, vc);
    DefsOfNone(uses, vc);
    assert DefsOf(entered, vc) == [Def(vc, st.values, mid.current.value)] by {
      var read := [Use(vc, mid.values, |mid.blocks|)];
      assert DefsOf(read, vc) == [] by { assert read[1..] == []; }
      assert entered[1..][1..] == read;
    }
  }

  /** The body never defines the enclosing loop's counter, so `CounterFixed` survives it. */
  lemma CounterKept(st: State, entry: State, body: State, vars: VarTable, vc: nat, vc': nat)
    requires CounterFixed(st, entry, vc) && Logged(entry, body, vars, vc + 1, vc')
    requires forall name | name in vars :: vars[name] < vc
    ensures CounterFixed(st, body, vc)
  {
    var added := body.varLog[|entry.varLog|..];
    assert body.varLog[|st.varLog|..] == entry.varLog[|st.varLog|..] + added;
    forall i | 0 <= i < |added|
      ensures added[i].Def? ==> added[i].v != vc
    {
      assert added[i] == body.varLog[|entry.varLog| + i];
      if added[i].Def? && added[i].v in vars.Values {
        var name :| name in vars && vars[name] == added[i].v;
      }
    }
    DefsOfNone(added, vc);
    DefsOfAppend(entry.varLog[|st.varLog|..], added, vc);
  }

  /**
    `val` places a constant as an `iconst` in the current block, or reads a
    declared variable, logging the read in the current block; either way the
    operand's value is the next SSA value and nothing else changes.
   */
  lemma ValEmits(st: State, vars: VarTable, v: Value)
    requires st.Ready() && TableDeclared(st, vars)
    ensures var r, cur := ValSpec(st, vars, v), st.current.value;
      r.Ok? ==>
        && r.value.value == st.values
        && r.value.st.(blocks := st.blocks, varLog := st.varLog, values := st.values) == st
        && (v.Constant? ==>
              && r.value.st.blocks == st.blocks[cur := Block(st.blocks[cur].params, st.blocks[cur].insts + [Iconst(st.values, v.n)])]
              && r.value.st.varLog == st.varLog)
        && (v.Variable? ==>
              && r.value.st.blocks == st.blocks
              && r.value.st.varLog == st.varLog + [Use(vars[v.name], st.values, cur)])
  {
  }

  /* Panics. Whether and how lowering panics depends only on the statements and
     the variable table, never on the builder: it is the first fault in program
     order, where an assignment's target is looked up before its expression is
     evaluated and an expression's left operand before its right. */

  /** The panic a result carries, if any. */
  function ErrorOf<T>(r: Result<T, Panic>): Option<Panic> {
    if r.Err? then Some(r.error) else None
  }

  function ValueFault(vars: VarTable, v: Value): Option<Panic> {
    if v.Variable? && v.name !in vars then Some(UndeclaredVariable(v.name)) else None
  }

  function ExprFault(vars: VarTable, e: Expr): Option<Panic> {
    if ValueFault(vars, e.left).Some? then ValueFault(vars, e.left)
    else if ValueFault(vars, e.right).Some? then ValueFault(vars, e.right)
    else if e.op == Modulo then Some(UnsupportedOperation(Modulo))
    else None
  }

  function Fault(vars: VarTable, instrs: seq<Instruction>): Option<Panic>
    decreases instrs, 1
  {
    if instrs == [] then None
    else if InstrFault(vars, instrs[0]).Some? then InstrFault(vars, instrs[0])
    else Fault(vars, instrs[1..])
  }

  function InstrFault(vars: VarTable, instr: Instruction): Option<Panic>
    decreases instr, 0
  {
    match instr
    case Assign(to, expr) =>
      if to !in vars then Some(UndeclaredVariable(to)) else ExprFault(vars, expr)
    case If(condition, body) =>
      if ExprFault(vars, condition).Some? then ExprFault(vars, condition) else Fault(vars, body)
    case Loop(times, body) =>
      if ValueFault(vars, times).Some? then ValueFault(vars, times) else Fault(vars, body)
  }

  /** `eval` panics exactly at the first undeclared operand, left first, or else on `Modulo`. */
  lemma EvalPanics(st: State, vars: VarTable, e: Expr)
    ensures ErrorOf(EvalSpec(st, vars, e)) == ExprFault(vars, e)
  {
    var l := ValSpec(st, vars, e.left);
    if l.Ok? {
      var r := ValSpec(l.value.st, vars, e.right);
      if r.Ok? {
        assert EvalSpec(st, vars, e) == OperatorSpec(r.value.st, e.op, l.value.value, r.value.value);
      }
    }
  }

  /** `jit` panics exactly with the first fault of its statements, and returns otherwise. */
  lemma {:induction false} JitPanics(st: State, vars: VarTable, instrs: seq<Instruction>, vc: nat)
    ensures ErrorOf(JitSpec(st, vars, instrs, vc)) == Fault(vars, instrs)
    decreases instrs, 1
  {
    if instrs != [] {
      var head := JitInstrSpec(st, vars, instrs[0], vc);
      InstrPanics(st, vars, instrs[0], vc);
      if head.Ok? {
        JitPanics(head.value.st, vars, instrs[1..], head.value.varcount);
      }
    }
  }

  lemma {:induction false} InstrPanics(st: State, vars: VarTable, instr: Instruction, vc: nat)
    ensures ErrorOf(JitInstrSpec(st, vars, instr, vc)) == InstrFault(vars, instr)
    decreases instr, 1
  {
    match instr
    case Assign(to, expr) =>
      if to in vars {
        EvalPanics(st, vars, expr);
      }
    case If(condition, body) =>
      EvalPanics(st, vars, condition);
      var c := EvalSpec(st, vars, condition);
      if c.Ok? {
        JitPanics(IfEntry(c.value.st, c.value.value), vars, body, vc);
      }
    case Loop(times, body) =>
      var n := ValSpec(st, vars, times);
      if n.Ok? {
        JitPanics(LoopEntry(n.value.st, vc, n.value.value), vars, body, vc + 1);
      }
  }

  /* Meaning of the instructions `eval` emits. */

  /**
    What an operator computes on two 64-bit words: wrapping addition, subtraction
    and multiplication, unsigned division (`None` when dividing by zero), and
    comparisons yielding 1 or 0. `Modulo` has no meaning here: lowering rejects it.
   */
  function Meaning(op: Operation, a: i64, b: i64): Option<i64>
    requires op != Modulo
  {
    match op
    case Plus => Some(WrappingAdd(a, b))
    case Minus => Some(WrappingSub(a, b))
    case Times => Some(WrappingMul(a, b))
    case Divided => UnsignedDiv(a, b)
    case Equal => Some(Flag(a == b))
    case NotEqual => Some(Flag(a != b))
  }

  /** What a value-producing backend instruction computes from its two operands. */
  function Interpret(i: Inst, a: i64, b: i64): Option<i64> {
    match i
    case Arith(_, op, _, _) => op.Apply(a, b)
    case Icmp(_, cc, _, _) => Some(CompareResult(cc, a, b))
    case _ => None
  }

  /**
    `eval` places, as the last instruction of the current block, one instruction
    that takes the left operand's value and then the right operand's, defines the
    expression's value, and computes the operator's meaning on any two words.
   */
  lemma EvalComputes(st: State, vars: VarTable, e: Expr)
    requires st.Ready()
    ensures var r := EvalSpec(st, vars, e);
      r.Ok? ==>
        var insts := r.value.st.blocks[st.current.value].insts;
        && |insts| > 0
        && var i := insts[|insts| - 1];
        && (i.Arith? || i.Icmp?)
        && i.dst == r.value.value && i.lhs == st.values && i.rhs == st.values + 1
        && forall a, b :: Interpret(i, a, b) == Meaning(e.op, a, b)
  {
    var r := EvalSpec(st, vars, e);
    if r.Ok? {
      var l := ValSpec(st, vars, e.left).value;
      var rt := ValSpec(l.st, vars, e.right).value;
      ValEvaluates(st, vars, e.left);
      ValEvaluates(l.st, vars, e.right);
      assert r == OperatorSpec(rt.st, e.op, st.values, st.values + 1);
      OperatorComputes(rt.st, e.op, st.values, st.values + 1);
    }
  }

  lemma OperatorComputes(st: State, op: Operation, lhs: SsaValue, rhs: SsaValue)
    requires st.Ready()
    ensures var r := OperatorSpec(st, op, lhs, rhs);
      r.Ok? ==>
        var insts := r.value.st.blocks[st.current.value].insts;
        && |insts| > 0
        && var i := insts[|insts| - 1];
        && (i.Arith? || i.Icmp?)
        && i.dst == r.value.value && i.lhs == lhs && i.rhs == rhs
        && forall a, b :: Interpret(i, a, b) == Meaning(op, a, b)
  {
  }
}
