# loop-jit-attempt in Dafny

A model of the compiler core of loop-jit-attempt. The compiler translates a tiny imperative
language into Cranelift IR: programs declare named 64-bit integer variables and run
statements. A statement is an assignment of one binary operation, an `If` without an else
branch, or a `Loop` that repeats its body a given number of times.

The model covers these parts:

- **The program model** (`Structure`, from `src/structure.rs`): `Program`, `Instruction`,
  `Expr`, `Operation` (seven operators, `Modulo` among them) and `Value`. They are plain
  datatypes. Expressions do not nest, and a loop count is a single operand.
- **Word arithmetic** (`Words`): what the emitted instructions compute. That is wrapping
  64-bit addition, subtraction and multiplication, unsigned division (a trap on zero), and
  comparisons yielding 0 or 1.
- **The function builder** (`Backend`): the part of Cranelift's `FunctionBuilder` that the
  compiler drives, as an abstract state. It holds:
  - blocks with their parameters and instructions, and the current block;
  - the control-flow edges that branches and jumps add;
  - the seals, in order, each with the number of edges known when it was taken;
  - the declared variables, and a log of declarations, definitions and reads;
  - an SSA value counter, and a flag `intact`. The flag is cleared by any operation the
    backend forbids:
    - switching to, adding a parameter to, branching or jumping to, or sealing a block that
      does not exist;
    - using or defining a variable that is undeclared, or while there is no current block;
    - emitting an instruction with no current block;
    - branching or jumping to a sealed block;
    - sealing a block twice.

  `State` is this state as a value, and each builder call is a function on it. The class
  `FunctionBuilder` holds the same state in fields, and its methods are proved to perform
  exactly those functions.
- **Lowering** (`Lowering`): `val`, `eval` and `jit` of `src/main.rs`. They are
  specification functions (`ValSpec`, `EvalSpec`, `JitSpec`, ...) over the builder state.
  The methods (`Val`, `Eval`, `Jit`, ...) drive a `FunctionBuilder` object and are proved
  equal to them. A Rust panic is an `Err`:
  - `unwrap` of a missing target, and indexing the table with an undeclared name, are
    `UndeclaredVariable`;
  - `unimplemented!()` for `Modulo` is `UnsupportedOperation`.

  The loop-counter number `varcount`, which Rust updates through `&mut usize`, is threaded
  through and returned.
- **What lowering guarantees** (`LoweringInvariant`, `LoweringFacts`):
  - it never misuses the builder;
  - it only branches to, jumps to and seals blocks it created itself;
  - the exact edges and seals of `If` and `Loop`, including when the loop header is sealed;
  - how many blocks are created and how many counters are numbered, and that the
    declarations are fresh;
  - which blocks are sealed before `seal_all_blocks`: the then-blocks and loop headers only;
  - the counter is defined exactly once;
  - which programs panic, and with which panic;
  - what each expression's instruction computes.
- **The prologue and epilogue of `compile`** (`Compile`):
  - the variable table, where the `i`-th name is variable `i` and the last occurrence of a
    duplicated name wins, as when the pairs are collected into a `HashMap`;
  - declaring the variables;
  - the entry block with its parameter bound to `input`;
  - returning `output` or 0;
  - `seal_all_blocks`.

The proofs expose the following behaviour of the source:

- The block in which an `If` body ends gets no jump to the continue-block (`IfShaped`).
  That block is the then-block itself when the body holds no `If` or `Loop`; otherwise it is
  the block the last nested statement left current. The continue-block's only predecessor
  is the jump from the block before the `If`, and the end of the `If` adds no instruction
  (`IfExitFacts`). By Cranelift's rules, not by a proof here, that block is then left without
  a terminator, and the body's definitions do not reach the code after the `If`.
- The loop counter is defined exactly once, to the count, in the block before the loop, and
  never again (`CounterFixed`). Nothing decrements it. Read with Cranelift's semantics,
  which the model does not execute, a loop with a positive count never takes its exit
  branch.
- `jit` seals only then-blocks and loop headers, one per `If` and per `Loop`. Every
  continue-block and exit block, and the entry block, stays open until `seal_all_blocks`
  (`JitSeals`, `EarlySeals`).
- The loop body is emitted into the header itself, after the exit test's `br_icmp`.
- Counters start at `variables.len()` and so never share a number with a program variable
  (`CompileSound`).
- `Divided` is unsigned division (`DivisionIsUnsigned`: -1 / 2 is the largest signed
  value).

## Model

| member | source | states |
|---|---|---|
| Words.WrapIsCongruence | src/main.rs:196-198 | the wrapped result of `iadd`/`isub`/`imul` is the one signed 64-bit value congruent to the exact result modulo 2^64 |
| Words.AddWrapsAround | src/main.rs:196 | `iadd` of the largest value and 1 wraps to the smallest |
| Words.SubUndoesAdd | src/main.rs:196-197 | `isub` undoes `iadd` on every pair of words, overflow or not |
| Words.UnsignedDiv | src/main.rs:200 | `udiv` traps exactly on a zero divisor; otherwise the quotient's bit pattern is the unsigned quotient of the operands' bit patterns |
| Words.DivisionIsUnsigned | src/main.rs:200 | `Divided` reads operands as unsigned: -1 divided by 2 gives the largest signed value |
| Words.Flag | src/main.rs:201-202 | a comparison yields 1 exactly when it holds, else 0 |
| Backend.ArithOp.Apply | src/main.rs:196-200 | of the four arithmetic instructions, only `udiv` by zero has no result |
| Backend.CompareResult | src/main.rs:201-202 | `icmp` yields 0 or 1, and 1 exactly when its condition holds |
| Backend.SealFromSealsRest | src/main.rs:92 | `seal_all_blocks` seals every block still open and changes nothing but the seals |
| Backend.FunctionBuilder.SealAllBlocks | src/main.rs:92 | the builder object's `seal_all_blocks` performs exactly the state's `SealAllBlocks` |
| Lowering.ValSpec | src/main.rs:207-219 | `val` panics exactly on an undeclared variable name; otherwise the operand's value is the next SSA value |
| Lowering.OperatorSpec | src/main.rs:195-204 | the operator step panics exactly on `Modulo`; otherwise it yields one new SSA value |
| Lowering.EvalSpec | src/main.rs:186-205 | `eval` panics exactly when an operand is undeclared or the operator is `Modulo`; otherwise the two operands and the result are the next three SSA values |
| Lowering.Val | src/main.rs:207-219 | `val` on the builder object returns what `ValSpec` gives and leaves the builder in its state |
| Lowering.Eval | src/main.rs:186-205 | `eval` on the builder object returns what `EvalSpec` gives and leaves the builder in its state |
| Lowering.Jit | src/main.rs:109-184 | `jit` on the builder object panics as `JitSpec` does, or leaves the builder in `JitSpec`'s state and returns its `varcount` |
| Lowering.LowerAssign | src/main.rs:124-128 | the `Assign` arm on the builder object equals `AssignSpec` |
| Lowering.LowerIf | src/main.rs:129-152 | the `If` arm on the builder object equals `IfSpec` |
| Lowering.EnterIf | src/main.rs:134-146 | the straight-line start of the `If` arm yields `IfEntry`'s state, and the then-block is the first new block |
| Lowering.ExitIf | src/main.rs:148-151 | the straight-line end of the `If` arm yields `IfExit`'s state |
| Lowering.LowerLoop | src/main.rs:153-180 | the `Loop` arm on the builder object equals `LoopSpec` |
| Lowering.EnterLoop | src/main.rs:159-172 | the straight-line start of the `Loop` arm yields `LoopEntry`'s state, and the header is the first new block |
| Lowering.ExitLoop | src/main.rs:176-179 | the straight-line end of the `Loop` arm yields `LoopExit`'s state |
| LoweringInvariant.JitKeepsInv | src/main.rs:109-184 | from an intact builder with every table variable declared, `jit` never misuses the builder. It keeps the invariant, never lowers `varcount`, and only adds edges into, and seals of, blocks it created |
| LoweringInvariant.InstrKeepsInv | src/main.rs:123-181 | the same for one statement |
| LoweringInvariant.AssignKeepsInv | src/main.rs:124-128 | the same for `Assign`, which leaves `varcount` unchanged |
| LoweringInvariant.IfKeepsInv | src/main.rs:129-152 | the same for `If` |
| LoweringInvariant.LoopKeepsInv | src/main.rs:153-180 | the same for `Loop`, whose new counter is declared before any use |
| LoweringInvariant.EvalEvaluates | src/main.rs:186-205 | `eval` creates no block, edge, seal or declaration, only appends reads to the log, and keeps an intact builder intact |
| LoweringInvariant.ValEvaluates | src/main.rs:207-219 | the same for `val` |
| LoweringInvariant.IfEntryFacts | src/main.rs:134-146 | the start of `If` adds two blocks, the branch to the then-block and the jump to the continue-block, and makes the then-block current |
| LoweringInvariant.IfExitFacts | src/main.rs:148-151 | the end of `If` seals the then-block with every edge known so far and makes the continue-block current |
| LoweringInvariant.LoopEntryFacts | src/main.rs:159-172 | the start of `Loop` declares and defines the counter, adds two blocks, the entry jump and the header's exit branch, and reads the counter in the header |
| LoweringInvariant.LoopExitFacts | src/main.rs:176-179 | the end of `Loop` adds the back-edge, then seals the header with that edge known, and makes the exit block current |
| LoweringFacts.JitEmpty | src/main.rs:115-117 | an empty statement list leaves the builder and `varcount` unchanged |
| LoweringFacts.JitInOrder | src/main.rs:119-120 | lowering `first + rest` lowers `first`, then `rest` from the state and `varcount` it left (the tail call at line 183) |
| LoweringFacts.JitCounts | src/main.rs:109-184 | `jit` creates two blocks per `If` and per `Loop`, nested ones included, and advances `varcount` by exactly the number of `Loop` statements |
| LoweringFacts.InstrCounts | src/main.rs:123-181 | the same for one statement; `Assign` creates no block |
| LoweringFacts.IfCounts | src/main.rs:134-135 | `If` creates its two blocks plus those of its body |
| LoweringFacts.LoopCounts | src/main.rs:159-165 | `Loop` advances `varcount` by one plus its body's loops, and creates its two blocks plus those of its body |
| LoweringFacts.JitSeals | src/main.rs:109-184 | `jit` adds one seal per `If` and per `Loop`, nested ones included, each of a different block created in it, and each the first of the two blocks its statement created: a then-block or a loop header |
| LoweringFacts.InstrSeals | src/main.rs:123-181 | the same for one statement; `Assign` seals nothing |
| LoweringFacts.IfSeals | src/main.rs:147-148 | `If` seals its then-block after the seals of its body, and no other block of its own |
| LoweringFacts.LoopSeals | src/main.rs:175-178 | `Loop` seals its header after the seals of its body, and no other block of its own |
| LoweringFacts.IfBranches | src/main.rs:134-146 | entering `If` places the constant 1, a branch to the then-block taken when the condition equals it, and a jump to the continue-block; the then-block becomes current |
| LoweringFacts.IfShape | src/main.rs:133-151 | `If` adds exactly the branch and the jump from the block before it; all the body's edges go to blocks created in the body. It seals the then-block last, with every edge known, and leaves the continue-block current and unsealed |
| LoweringFacts.LoopBranches | src/main.rs:159-172 | entering `Loop` ends the block before it with a jump to the header. The header reads the counter and branches to the exit when the counter is at most 0, signed. The log gains the counter's declaration, its definition to the count, and the read |
| LoweringFacts.LoopShape | src/main.rs:164-179 | `Loop` adds the entry jump and the exit branch, the body's inner edges, and last the back-edge. It seals the header only after the back-edge exists, and leaves the exit block current and unsealed |
| LoweringFacts.AssignShape | src/main.rs:124-128 | `Assign` creates no block, edge or seal; it reads operands, then adds exactly one definition, of the target's variable to the expression's value, in the current block |
| LoweringFacts.JitLogs | src/main.rs:109-184 | `jit` declares exactly the counters `varcount`, `varcount + 1`, ... up to its final `varcount`, once each and in order. It defines only table variables and those counters, with values it created |
| LoweringFacts.InstrLogs | src/main.rs:123-181 | the same for one statement |
| LoweringFacts.IfLogs | src/main.rs:133-151 | the same for `If` |
| LoweringFacts.LoopLogs | src/main.rs:157-179 | `Loop` declares its counter `varcount` and its body's counters. Among the definitions it logs, exactly one is of the counter: to the count, in the block before the header |
| LoweringFacts.ValEmits | src/main.rs:212-217 | a constant becomes an `iconst` in the current block; a variable becomes a logged read of its current definition; nothing else changes |
| LoweringFacts.EvalComputes | src/main.rs:191-204 | `eval` ends the current block with one instruction on the left and then the right operand's value. On any two words, that instruction computes wrapping add/sub/mul, unsigned division, or a 0/1 equality test |
| LoweringFacts.OperatorComputes | src/main.rs:195-204 | the operator's instruction computes the operator's meaning on any two words |
| LoweringFacts.EvalPanics | src/main.rs:191-203 | `eval` panics exactly at the first undeclared operand, left before right, or else on `Modulo` |
| LoweringFacts.JitPanics | src/main.rs:109-184 | `jit` panics exactly with the first fault of its statements in program order, and never otherwise, whatever the builder state |
| LoweringFacts.InstrPanics | src/main.rs:123-181 | a statement panics with its own fault: an undeclared `Assign` target before its expression, the condition or count before the body |
| Compile.TableOf | src/main.rs:60-70 | a name is in the table exactly when it is listed; it maps to its last position, which is below the number of names |
| Compile.DeclareAllState | src/main.rs:60-68 | declaring the variables adds exactly `0`..`n-1` to the declared set and changes nothing else |
| Compile.DeclareAllDeclares | src/main.rs:60-68 | the declarations logged are exactly `0`..`n-1`, in order |
| Compile.DeclareVariables | src/main.rs:59-70 | the map-and-collect loop declares variable `i` for the `i`-th name and builds `TableOf` |
| Compile.Compile | src/main.rs:59-92 | the function body `compile` builds on a fresh builder object is `CompileSpec`'s |
| Compile.EnterEntryState | src/main.rs:72-79 | after the declarations, the prologue creates the one entry block with the parameter value 0, makes it current, and defines `input` to the parameter only when it is in the table |
| Compile.EnteredFacts | src/main.rs:72-79 | after the prologue, the builder satisfies lowering's invariant with counters starting at `n`, and the log is the `n` declarations plus, exactly when `input` is declared, its definition to the parameter |
| Compile.FinishedFacts | src/main.rs:84-92 | the epilogue returns the value of `output`, or a constant 0 defined just before the return, from the current block. It keeps the builder intact and leaves every block sealed |
| Compile.CompileSound | src/main.rs:59-92 | a compiled function never misused the builder, has every block sealed, and declares exactly `0`..`n-1 + loops`, each once: table variables, then one counter per `Loop` |
| Compile.EarlySeals | src/main.rs:72-92 | before the epilogue, one block per `If` and per `Loop` is sealed, each once, all odd-numbered (then-blocks and headers); the entry block and every continue-block and exit block are still open |
| Compile.CompileBlocks | src/main.rs:72-92 | a compiled function has the entry block plus two blocks per `If` and per `Loop` |
| Compile.CompilePanics | src/main.rs:81 | `compile` panics exactly with the first fault of the program against its variable table |
| Compile.CompileBindsInput | src/main.rs:77-79 | the parameter is stored into a variable exactly when `input` is declared, and then once, into `input`'s variable, before any statement |
| Compile.CompileReturns | src/main.rs:84-89 | the last block ends by returning `output`'s value, read there, or a constant 0 when `output` is not declared |

## Left out

- JIT module set-up, the signature, function declaration and definition, the trap and
  stack-map sinks, `finalize_definitions`, and the `transmute` to a native pointer
  (`src/main.rs:37-57`, `94-106`). These are foreign calls into Cranelift and unsafe
  pointer handling. `compile` is modelled up to the finished function body.
- `builder.finalize()` (`src/main.rs:93`) and Cranelift's IR verifier.
- Cranelift's debug check that a block is filled before switching away from it. The model
  does not count switching away from the block an `If` body ends in, which gets no jump to
  the continue-block, as a misuse.
- Cranelift's SSA construction behind `declare_var`/`def_var`/`use_var`/`seal_block`:
  phi placement, block arguments, and which definition a read sees. A read is logged and
  yields a fresh SSA value.
- IR type details, such as the result type of `icmp` next to the `I64` constant it is
  compared with (`src/main.rs:137-142`).
- The demo driver `main` (`src/main.rs:11-34`), which is I/O.
- Running the compiled function. The model states what each instruction computes
  (`EvalComputes`, `Words`), not whole executions.
- The width of Cranelift's variable index: variable and counter numbers are unbounded.
- `append_block_params_for_function_params` and `block_params(entry)[0]` are modelled for
  the one `I64` parameter of the signature only.
- The source's `If` passes `varcount` and the `Loop` passes `&mut varcount`. Both reach
  the same counter, and both are modelled as one value threaded through lowering.
- LoweringFacts.EvalComputes: requires a current block. The source always has one there,
  because the prologue switches to the entry block before any statement is lowered.
- LoweringFacts.ValEmits: requires every table variable to be declared, as the prologue
  ensures; otherwise the read is a builder misuse.
