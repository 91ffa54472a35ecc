/**
  The prologue and epilogue of `compile` (src/main.rs): the variable table, the
  declaration of the program's variables, the entry block with the function's
  argument bound to `input`, the call of `jit`, and the return of `output` (or 0)
  followed by sealing every block.
 */
module Compile {
  import opened Wrappers
  import opened Structure
  import opened Backend
  import opened Lowering
  import opened LoweringInvariant
  import opened LoweringFacts

  /** The variable bound to the function's argument. */
  const INPUT := "input"

  /** The variable whose value the function returns. */
  const OUTPUT := "output"

  /**
    The table `compile` collects from the program's variable list: the `i`-th name
    goes to variable `i`, and of a name listed more than once the last position
    wins, as when pairs are collected into a hash map one after the other.
   */
  function TableOf(names: seq<string>): (r: VarTable)
    ensures forall name :: name in r <==> name in names
    ensures forall name | name in r ::
      && r[name] < |names| && names[r[name]] == name
      && forall j | r[name] < j < |names| :: names[j] != name
    decreases |names|
  {
    if names == [] then map[]
    else TableOf(names[..|names| - 1])[names[|names| - 1] := |names| - 1]
  }

  /** Declares the variables `0` up to `n - 1` in order. */
  function DeclareAll(st: State, n: nat): State {
    if n == 0 then st else DeclareAll(st, n - 1).DeclareVar(n - 1)
  }

  /**
    `DeclareAll` adds `0` up to `n - 1` to the declared variables and appends
    exactly their declarations, in order, to the log; nothing else changes.
   */
  lemma {:induction false} DeclareAllState(st: State, n: nat)
    ensures var r := DeclareAll(st, n);
      && r == st.(declared := st.declared + Span(0, n), varLog := r.varLog)
      && st.varLog <= r.varLog && |r.varLog| == |st.varLog| + n
      && forall i | |st.varLog| <= i < |r.varLog| :: r.varLog[i].Declare?
  {
    if n > 0 {
      DeclareAllState(st, n - 1);
      assert Span(0, n) == Span(0, n - 1) + {n - 1};
    }
  }

  lemma {:induction false} DeclareAllDeclares(st: State, n: nat)
    ensures var r := DeclareAll(st, n);
      && st.varLog <= r.varLog
      && DeclaredIn(r.varLog[|st.varLog|..]) == Range(0, n)
  {
    if n > 0 {
      var before := DeclareAll(st, n - 1);
      DeclareAllDeclares(st, n - 1);
      var r := before.DeclareVar(n - 1);
      assert r.varLog[|st.varLog|..] == before.varLog[|st.varLog|..] + [Declare(n - 1)];
      DeclaredInAppend(before.varLog[|st.varLog|..], [Declare(n - 1)]);
      RangeSplit(0, n - 1, n);
    }
  }

  /**
    Declaring the program's variables on a builder object: one declaration per
    position of the list, in order, and the table of `TableOf`.
   */
  method DeclareVariables(b: FunctionBuilder, names: seq<string>) returns (vars: VarTable)
    modifies b
    ensures vars == TableOf(names)
    ensures b.Snapshot() == DeclareAll(old(b.Snapshot()), |names|)
  {
    vars := map[];
    var i := 0;
    while i < |names|
      invariant i <= |names|
      invariant vars == TableOf(names[..i])
      invariant b.Snapshot() == DeclareAll(old(b.Snapshot()), i)
    {
      b.DeclareVar(i);
      assert names[..i + 1][..i] == names[..i];
      vars := vars[names[i] := i];
      i := i + 1;
    }
    assert names[..i] == names;
  }

  /**
    The builder after the prologue: the variables declared, the entry block
    created with one parameter for the function's argument and made current, and
    `input`, when the program has it, defined to that parameter.
   */
  function Entered(names: seq<string>): State {
    EnterEntry(DeclareAll(EmptyState, |names|), TableOf(names))
  }

  /**
    The prologue after the declarations: the entry block created, given the
    function's parameter and made current, and `input` bound to that parameter.
   */
  function EnterEntry(declared: State, vars: VarTable): State {
    var entry := |declared.blocks|;
    var created := declared.CreateBlock();
    var param := created.values;
    var switched := created.AppendParam(entry).SwitchToBlock(entry);
    if INPUT in vars then switched.DefVar(vars[INPUT], param) else switched
  }

  /**
    The builder after the epilogue: the value of `output`, or the constant 0 when
    the program has no `output`, is returned from the current block, and then
    every block still open is sealed.
   */
  function Finished(st: State, vars: VarTable): State {
    var retval := st.values;
    var loaded := if OUTPUT in vars then st.UseVar(vars[OUTPUT]) else st.InsIconst(0);
    loaded.InsReturn(retval).SealAllBlocks()
  }

  /** What `compile` builds for a program, or the panic it stops with. */
  function CompileSpec(p: Program): Result<State, Panic> {
    var vars := TableOf(p.variables);
    var l :- JitSpec(Entered(p.variables), vars, p.instructions, |p.variables|);
    Ok(Finished(l.st, vars))
  }

  /** `compile` up to the finished function, on a fresh builder object. */
  method Compile(p: Program) returns (r: Result<State, Panic>)
    ensures r == CompileSpec(p)
  {
    var b := new FunctionBuilder();
    var vars := DeclareVariables(b, p.variables);
    var varcount := |p.variables|;
    var entry := b.CreateBlock();
    var param := b.AppendParam(entry);
    b.SwitchToBlock(entry);
    if INPUT in vars {
      b.DefVar(vars[INPUT], param);
    }
    var lowered := Jit(b, vars, p.instructions, varcount);
    if lowered.Err? {
      return Err(lowered.error);
    }
    var retval;
    if OUTPUT in vars {
      retval := b.UseVar(vars[OUTPUT]);
    } else {
      retval := b.InsIconst(0);
    }
    b.InsReturn(retval);
    b.SealAllBlocks();
    r := Ok(b.Snapshot());
  }

  /**
    After the prologue there is one block, the entry, current, unsealed, without
    instructions, and with one parameter, the value 0; the log holds the
    declarations of the variables `0` up to `n - 1` and then, exactly when the
    program has `input`, the definition of `input`'s variable to that parameter;
    and the invariant of lowering holds with the counters starting at `n`.
   */
  lemma EnteredFacts(names: seq<string>)
    ensures var st, n := Entered(names), |names|;
      && st.blocks == [Block([0], [])] && st.current == Some(0)
      && st.seals == [] && st.edges == [] && st.values == 1
      && |st.varLog| == n + (if INPUT in names then 1 else 0)
      && (forall i | 0 <= i < n :: st.varLog[i].Declare?)
      && DeclaredIn(st.varLog) == Range(0, n)
      && (INPUT in names ==> st.varLog[n] == Def(TableOf(names)[INPUT], 0, 0))
      && Inv(st, TableOf(names), n)
  {
    var n, vars := |names|, TableOf(names);
    var declared := DeclareAll(EmptyState, n);
    DeclareAllState(EmptyState, n);
    DeclareAllDeclares(EmptyState, n);
    assert declared.varLog[0..] == declared.varLog;
    var bound := if INPUT in vars then [Def(vars[INPUT], 0, 0)] else [];
    EnterEntryState(declared, vars);
    DeclaredInAppend(declared.varLog, bound);
    assert DeclaredIn(bound) == [];
  }

  /** The prologue's builder state after the declarations, written out. */
  lemma EnterEntryState(declared: State, vars: VarTable)
    requires declared.blocks == [] && declared.current == None && declared.values == 0
    requires INPUT in vars ==> vars[INPUT] in declared.declared
    ensures EnterEntry(declared, vars)
      == declared.(blocks := [Block([0], [])], current := Some(0), values := 1,
                   varLog := declared.varLog + (if INPUT in vars then [Def(vars[INPUT], 0, 0)] else []))
  {
    var created := declared.CreateBlock();
    assert created.blocks[0].params + [created.values] == [0];
  }

  /**
    The epilogue keeps the builder intact and leaves every block sealed; besides
    the seals it only appends to the current block: a return of the value of
    `output` read through its variable, or, without `output`, of a constant 0
    defined just before it. It adds no edge and declares nothing.
   */
  lemma FinishedFacts(st: State, vars: VarTable, vc: nat)
    requires Inv(st, vars, vc)
    ensures var r, cur, retval := Finished(st, vars), st.current.value, st.values;
      var tail := if OUTPUT in vars then [Return(retval)] else [Iconst(retval, 0), Return(retval)];
      && r.intact && r.Sealed() == Span(0, |r.blocks|)
      && r.blocks == st.blocks[cur := Block(st.blocks[cur].params, st.blocks[cur].insts + tail)]
      && r.edges == st.edges && r.current == st.current && r.declared == st.declared
      && r.varLog == st.varLog + (if OUTPUT in vars then [Use(vars[OUTPUT], retval, cur)] else [])
  {
    var cur, retval := st.current.value, st.values;
    var block := st.blocks[cur];
    var loaded := if OUTPUT in vars then st.UseVar(vars[OUTPUT]) else st.InsIconst(0);
    if OUTPUT in vars {
      assert loaded == st.(varLog := st.varLog + [Use(vars[OUTPUT], retval, cur)], values := retval + 1);
    } else {
      assert loaded == st.(blocks := st.blocks[cur := Block(block.params, block.insts + [Iconst(retval, 0)])], values := retval + 1);
    }
    var loadedInsts := if OUTPUT in vars then block.insts else block.insts + [Iconst(retval, 0)];
    assert loaded.Ready() && loaded.blocks == st.blocks[cur := Block(block.params, loadedInsts)];
    var returned := loaded.InsReturn(retval);
    var tail := if OUTPUT in vars then [Return(retval)] else [Iconst(retval, 0), Return(retval)];
    assert loadedInsts + [Return(retval)] == block.insts + tail;
    assert returned.blocks == st.blocks[cur := Block(block.params, block.insts + tail)];
    SealFromSealsRest(returned, 0);
    assert returned.seals == st.seals && |returned.blocks| == |st.blocks|;
    forall s | s in returned.Sealed()
      ensures s < |returned.blocks|
    {
      var i :| 0 <= i < |st.seals| && st.seals[i].block == s;
    }
  }

  /**
    A compiled program is well formed: the builder was never misused, every block
    is sealed, and the declared variables are exactly the table's `0` up to `n - 1` followed by
    one loop counter per `Loop`, each declared once, so no counter shares a
    variable with the program's names.
   */
  lemma CompileSound(p: Program)
    ensures var r := CompileSpec(p);
      r.Ok? ==>
        && r.value.intact && r.value.Sealed() == Span(0, |r.value.blocks|)
        && DeclaredIn(r.value.varLog) == Range(0, |p.variables| + Loops(p.instructions))
  {
    var vars, n := TableOf(p.variables), |p.variables|;
    var st := Entered(p.variables);
    EnteredFacts(p.variables);
    var j := JitSpec(st, vars, p.instructions, n);
    JitKeepsInv(st, vars, p.instructions, n);
    JitCounts(st, vars, p.instructions, n);
    JitLogs(st, vars, p.instructions, n);
    if j.Ok? {
      FinishedSound(st, j.value.st, vars, n, Loops(p.instructions));
      assert CompileSpec(p) == Ok(Finished(j.value.st, vars));
    }
  }

  /** A compiled program has the entry block and two more per `If` and per `Loop`. */
  lemma CompileBlocks(p: Program)
    ensures var r := CompileSpec(p); r.Ok? ==> |r.value.blocks| == 1 + 2 * Compounds(p.instructions)
  {
    var vars, n := TableOf(p.variables), |p.variables|;
    var st := Entered(p.variables);
    EnteredFacts(p.variables);
    var j := JitSpec(st, vars, p.instructions, n);
    JitKeepsInv(st, vars, p.instructions, n);
    JitCounts(st, vars, p.instructions, n);
    if j.Ok? {
      FinishedFacts(j.value.st, vars, j.value.varcount);
      assert CompileSpec(p) == Ok(Finished(j.value.st, vars));
    }
  }

  /**
    Before the epilogue the statements have sealed one block per `If` and per
    `Loop`, each once, all odd-numbered: after the entry the blocks come in
    pairs, the then-block or header first. So the entry block and every
    continue-block and exit block, the even-numbered ones, are still open and
    are sealed only by `seal_all_blocks`.
   */
  lemma EarlySeals(p: Program)
    ensures var r := JitSpec(Entered(p.variables), TableOf(p.variables), p.instructions, |p.variables|);
      r.Ok? ==> var st := r.value.st;
        && |st.blocks| == 1 + 2 * Compounds(p.instructions)
        && |st.seals| == Compounds(p.instructions)
        && (forall i | 0 <= i < |st.seals| :: st.seals[i].block % 2 == 1)
        && (forall i, j | 0 <= i < j < |st.seals| :: st.seals[i].block != st.seals[j].block)
        && (forall b | 0 <= b < |st.blocks| && b % 2 == 0 :: b !in st.Sealed())
  {
    var vars, n := TableOf(p.variables), |p.variables|;
    var st := Entered(p.variables);
    EnteredFacts(p.variables);
    var j := JitSpec(st, vars, p.instructions, n);
    JitSeals(st, vars, p.instructions, n);
    if j.Ok? {
      SealsAfterEntry(st, j.value.st, Compounds(p.instructions));
    }
  }

  lemma SealsAfterEntry(st: State, st': State, n: nat)
    requires |st.blocks| == 1 && st.seals == [] && SealsPairFirsts(st, st', n)
    ensures |st'.seals| == n && (forall i | 0 <= i < |st'.seals| :: st'.seals[i].block % 2 == 1)
    ensures forall b | 0 <= b < |st'.blocks| && b % 2 == 0 :: b !in st'.Sealed()
  {
    forall b | 0 <= b < |st'.blocks| && b % 2 == 0
      ensures b !in st'.Sealed()
    {
      forall s | s in st'.seals
        ensures s.block != b
      {
        var i :| 0 <= i < |st'.seals| && st'.seals[i] == s;
        EvenIsParity(s.block - 1);
      }
    }
    forall i | 0 <= i < |st'.seals|
      ensures st'.seals[i].block % 2 == 1
    {
      EvenIsParity(st'.seals[i].block - 1);
    }
  }

  lemma FinishedSound(st: State, body: State, vars: VarTable, n: nat, loops: nat)
    requires DeclaredIn(st.varLog) == Range(0, n)
    requires Inv(body, vars, n + loops) && Logged(st, body, vars, n, n + loops)
    ensures var r := Finished(body, vars);
      && r.intact && r.Sealed() == Span(0, |r.blocks|)
      && DeclaredIn(r.varLog) == Range(0, n + loops)
  {
    var vc' := n + loops;
    FinishedFacts(body, vars, vc');
    var epilogue := if OUTPUT in vars then [Use(vars[OUTPUT], body.values, body.current.value)] else [];
    assert body.varLog == st.varLog + body.varLog[|st.varLog|..];
    DeclaredInAppend(st.varLog, body.varLog[|st.varLog|..]);
    DeclaredInAppend(body.varLog, epilogue);
    DeclaredInNone(epilogue);
    RangeSplit(0, n, vc');
  }

  /**
    `compile` panics exactly with the first fault of the program's statements
    against its variable table, and builds a function otherwise.
   */
  lemma CompilePanics(p: Program)
    ensures ErrorOf(CompileSpec(p)) == Fault(TableOf(p.variables), p.instructions)
  {
    JitPanics(Entered(p.variables), TableOf(p.variables), p.instructions, |p.variables|);
  }

  /**
    The function's argument, the entry block's parameter (value 0), is stored in
    a variable exactly when the program has `input`, and then once, into `input`'s
    variable, right after the declarations of the program's variables, so before
    any statement is lowered.
   */
  lemma CompileBindsInput(p: Program)
    ensures var r := CompileSpec(p); var n := |p.variables|;
      r.Ok? ==>
        && (forall i | 0 <= i < |r.value.varLog| && r.value.varLog[i].Def? && r.value.varLog[i].value == 0 ::
              INPUT in p.variables && i == n)
        && (INPUT in p.variables ==> n < |r.value.varLog| && r.value.varLog[n] == Def(TableOf(p.variables)[INPUT], 0, 0))
  {
    var vars, n := TableOf(p.variables), |p.variables|;
    var st := Entered(p.variables);
    EnteredFacts(p.variables);
    var j := JitSpec(st, vars, p.instructions, n);
    JitKeepsInv(st, vars, p.instructions, n);
    JitLogs(st, vars, p.instructions, n);
    if j.Ok? {
      FinishedBindsInput(st, j.value.st, vars, n, j.value.varcount);
      assert CompileSpec(p) == Ok(Finished(j.value.st, vars));
    }
  }

  lemma FinishedBindsInput(st: State, body: State, vars: VarTable, n: nat, vc': nat)
    requires st.values == 1 && |st.varLog| == n + (if INPUT in vars then 1 else 0)
    requires forall i | 0 <= i < n :: st.varLog[i].Declare?
    requires INPUT in vars ==> st.varLog[n] == Def(vars[INPUT], 0, 0)
    requires Inv(body, vars, vc') && Logged(st, body, vars, n, vc')
    ensures var r := Finished(body, vars);
      && (forall i | 0 <= i < |r.varLog| && r.varLog[i].Def? && r.varLog[i].value == 0 :: INPUT in vars && i == n)
      && (INPUT in vars ==> n < |r.varLog| && r.varLog[n] == Def(vars[INPUT], 0, 0))
  {
    FinishedFacts(body, vars, vc');
    var r := Finished(body, vars);
    forall i | 0 <= i < |r.varLog|
      ensures r.varLog[i].Def? && r.varLog[i].value == 0 ==> INPUT in vars && i == n
    {
      if i < |st.varLog| {
        assert r.varLog[i] == st.varLog[i];
      } else if i < |body.varLog| {
        assert r.varLog[i] == body.varLog[i];
      }
    }
    if INPUT in vars {
      assert r.varLog[n] == st.varLog[n];
    }
  }

  /**
    The block the statements end in ends by returning the value of `output`, read
    through its variable there, or a constant 0 when the program has no `output`.
   */
  lemma CompileReturns(p: Program)
    ensures var r := CompileSpec(p);
      r.Ok? ==>
        && r.value.Ready()
        && var cur, insts := r.value.current.value, r.value.blocks[r.value.current.value].insts;
          && |insts| > 0 && insts[|insts| - 1].Return?
          && (OUTPUT in p.variables ==>
                && |r.value.varLog| > 0
                && r.value.varLog[|r.value.varLog| - 1] == Use(TableOf(p.variables)[OUTPUT], insts[|insts| - 1].result, cur))
          && (OUTPUT !in p.variables ==> |insts| > 1 && insts[|insts| - 2] == Iconst(insts[|insts| - 1].result, 0))
  {
    var vars, n := TableOf(p.variables), |p.variables|;
    var st := Entered(p.variables);
    EnteredFacts(p.variables);
    var j := JitSpec(st, vars, p.instructions, n);
    JitKeepsInv(st, vars, p.instructions, n);
    if j.Ok? {
      FinishedFacts(j.value.st, vars, j.value.varcount);
      assert CompileSpec(p) == Ok(Finished(j.value.st, vars));
    }
  }
}
