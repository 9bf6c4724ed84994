/** The rule language: its expressions. */
module Rules {
  datatype BinaryOp = Eq | Ne | Le | Ge | Lt | Gt | And | Or | BitAnd | Shr | Add | Sub | Mul | Div | Rem

  datatype Builtin =
    | HasParseFact | Size | IsEmpty | Contains | All | Exists | Matches | Split
    | FilterEquals | FilterNotEquals | FilterMatches | FilterNotMatches
    | Slice | IndexOf | FindIndexEquals | Search | Abs

  /** A number literal is kept as it was written. */
  datatype Expr =
    | BoolLit(flag: bool)
    | NumberLit(digits: string)
    | StringLit(text: string)
    | NullLit
    | Property(path: seq<string>)
    | Not(operand: Expr)
    | Binary(op: BinaryOp, left: Expr, right: Expr)
    | Conditional(condition: Expr, whenTrue: Expr, whenFalse: Expr)
    | Call(builtin: Builtin, args: seq<Expr>)
}
