/** The expression tree of lox/src/expr.rs, with the `Condition` (ternary)
    variant that lox/src/interpreter.rs matches on. Every subtree is owned by
    its parent: a Dafny datatype is exactly such a finite tree. */
module Syntax {
  import opened Tokens

  datatype Expr =
    | Binary(left: Expr, operator: Token, right: Expr)
    | Grouping(inner: Expr)
    | Literal(lit: Tokens.Literal)
    | Unary(operator: Token, operand: Expr)
    | Condition(cond: Expr, thenBranch: Expr, elseBranch: Expr)

  /** `Grouping` applied `n` times around `e`. */
  function Grouped(e: Expr, n: nat): Expr
  {
    if n == 0 then e else Grouping(Grouped(e, n - 1))
  }
}
