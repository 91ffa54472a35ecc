/**
  The program model: a compile unit is a list of declared variable names and an
  ordered list of instructions. These are plain values; nothing here has behaviour.
 */
module Structure {

  /** A signed 64-bit integer, the only data type of the language. */
  type i64 = x: int | -0x8000_0000_0000_0000 <= x < 0x8000_0000_0000_0000

  /** An operand: a variable read or a literal. */
  datatype Value =
    | Variable(name: string)
    | Constant(n: i64)

  /** The seven binary operators; `Modulo` exists but is not supported by the compiler. */
  datatype Operation = Plus | Minus | Times | Divided | Modulo | Equal | NotEqual

  /** Exactly one binary operation over two operands: expressions do not nest. */
  datatype Expr = Expr(left: Value, right: Value, op: Operation)

  /** A statement. `If` has no else branch; `Loop` repeats a body `times` times. */
  datatype Instruction =
    | Assign(to: string, expr: Expr)
    | If(condition: Expr, body: seq<Instruction>)
    | Loop(times: Value, body: seq<Instruction>)

  /** A compile unit: declared names and the top-level instructions, in order. */
  datatype Program = Program(variables: seq<string>, instructions: seq<Instruction>)
}
