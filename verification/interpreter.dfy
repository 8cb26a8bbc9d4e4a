/** Runtime values and the part of the evaluator that exists in
    lox/src/interpreter.rs: only `Literal` and `Grouping` are evaluated. */
module Interpreting {
  import opened Wrappers
  import opened Tokens
  import opened Syntax

  /** A value computed at run time; the same shape as `Literal`, but a
      separate type. */
  datatype Value =
    | Number(n: F64)
    | String(s: string)
    | Bool(b: bool)
    | Nil

  /** `From<&Literal> for Value`. */
  function FromLiteral(lit: Tokens.Literal): (v: Value)
    ensures lit.Number? <==> v.Number?
    ensures lit.Number? ==> v.n == lit.n
    ensures lit.String? <==> v.String?
    ensures lit.String? ==> v.s == lit.s
    ensures lit.True? <==> v == Bool(true)
    ensures lit.False? <==> v == Bool(false)
    ensures lit.Nil? <==> v.Nil?
  {
    match lit
    case Number(n) => Value.Number(n)
    case String(s) => Value.String(s)
    case True => Bool(true)
    case False => Bool(false)
    case Nil => Value.Nil
  }

  /** The inverse conversion, used only to state that `FromLiteral` loses
      nothing. */
  function ToLiteral(v: Value): Tokens.Literal
  {
    match v
    case Number(n) => Tokens.Literal.Number(n)
    case String(s) => Tokens.Literal.String(s)
    case Bool(b) => if b then Tokens.Literal.True else Tokens.Literal.False
    case Nil => Tokens.Literal.Nil
  }

  /** Literals and values are in one-to-one correspondence. */
  lemma LiteralValueBijection(lit: Tokens.Literal, v: Value)
    ensures ToLiteral(FromLiteral(lit)) == lit
    ensures FromLiteral(ToLiteral(v)) == v
    ensures FromLiteral(lit) == v <==> lit == ToLiteral(v)
  {
  }

  /** `visit_expr`. The `Binary`, `Unary` and `Condition` arms are `todo!()`
      in the source, which panics; `None` stands for that panic. The
      `Literal` arm is `interpret_literal` and the `Grouping` arm is
      `interpret_grouping`. */
  function Evaluate(e: Expr): (r: Option<Value>)
  {
    match e
    case Literal(lit) => Some(FromLiteral(lit))
    case Grouping(inner) => Evaluate(inner)
    case Binary(_, _, _) => None
    case Unary(_, _) => None
    case Condition(_, _, _) => None
  }

  /** The expression with every enclosing `Grouping` removed. */
  function StripGroupings(e: Expr): (core: Expr)
    ensures !core.Grouping?
    ensures exists n: nat :: e == Grouped(core, n)
  {
    match e
    case Grouping(inner) =>
      var core := StripGroupings(inner);
      var n: nat :| inner == Grouped(core, n);
      assert e == Grouped(core, n + 1);
      core
    case _ =>
      assert e == Grouped(e, 0);
      e
  }

  /** Evaluation succeeds exactly on literals wrapped in any number of
      groupings, and then gives the literal's value. */
  lemma {:induction false} EvaluateSpec(e: Expr)
    ensures Evaluate(e).Some? <==> StripGroupings(e).Literal?
    ensures Evaluate(e).Some? ==> Evaluate(e) == Some(FromLiteral(StripGroupings(e).lit))
  {
    match e
    case Grouping(inner) => EvaluateSpec(inner);
    case _ =>
  }

  /** Any nesting of groupings around a literal evaluates to that literal's
      value. */
  lemma {:induction false} EvaluateGroupedLiteral(lit: Tokens.Literal, n: nat)
    ensures Evaluate(Grouped(Literal(lit), n)) == Some(FromLiteral(lit))
  {
    if n > 0 {
      EvaluateGroupedLiteral(lit, n - 1);
    }
  }
}
