/** The recursive-descent expression parser of lox/src/parser.rs. The
    parser state is a value (the token vector and the cursor); each parsing
    function takes a state and returns the state it leaves behind together
    with its result, on the error path as well as on success, as the Rust
    methods do through `&mut self`. */
module Parsing {
  import opened Wrappers
  import opened Tokens
  import opened Syntax

  datatype Error =
    | OutOfBounds(index: int)
    | EmptyLiteral(token: Token)
    | UnexpectedToken(token: Token, at: int)
    | MismatchedToken(line: int32, expected: TokenType, actual: TokenType, message: string)
    | SyncBoundaryNotFound

  datatype Parser = Parser(tokens: seq<Token>, current: nat)

  /** The state a parsing function leaves behind, and what it parsed. */
  datatype Parsed = Parsed(after: Parser, result: Result<Expr, Error>)

  /** `Parser::new`. */
  function New(tokens: seq<Token>): (p: Parser)
    ensures p.tokens == tokens && p.current == 0
  {
    Parser(tokens, 0)
  }

  /** The number of tokens not yet consumed: the termination measure. */
  function Remaining(p: Parser): nat
  {
    if p.current <= |p.tokens| then |p.tokens| - p.current else 0
  }

  /** The position of the first `Eof` at or after `i`; the length of the
      vector when there is none, and `i` itself when `i` is already
      outside the vector. */
  function EofFrom(tokens: seq<Token>, i: nat): (k: nat)
    ensures i <= k
    ensures i <= |tokens| ==> k <= |tokens|
    ensures k < |tokens| ==> tokens[k].tokenType == Eof
    decreases |tokens| - i
  {
    if i >= |tokens| then i
    else if tokens[i].tokenType == Eof then i
    else EofFrom(tokens, i + 1)
  }

  /** `EofFrom` finds the first `Eof`: no token before it is one. */
  lemma {:induction false} EofFromIsFirst(tokens: seq<Token>, i: nat, j: nat)
    requires i <= j < EofFrom(tokens, i) && j < |tokens|
    ensures tokens[j].tokenType != Eof
    decreases |tokens| - i
  {
    if j > i {
      EofFromIsFirst(tokens, i + 1, j);
    }
  }

  /** Moving within the stretch before the first `Eof` does not change
      where that `Eof` is. */
  lemma {:induction false} EofFromStable(tokens: seq<Token>, i: nat, j: nat)
    requires i <= j <= EofFrom(tokens, i)
    ensures EofFrom(tokens, j) == EofFrom(tokens, i)
    decreases j - i
  {
    if i < j {
      EofFromStable(tokens, i + 1, j);
    }
  }

  /** How the cursor may move between two states: the tokens stay and the
      cursor only goes forward, never past the first `Eof` ahead of it
      (and so never out of the vector, unless it started outside). */
  predicate Progress(p: Parser, q: Parser)
  {
    && q.tokens == p.tokens
    && p.current <= q.current <= EofFrom(p.tokens, p.current)
  }

  /** Cursor movement composes. */
  lemma ProgressTransitive(p: Parser, q: Parser, r: Parser)
    requires Progress(p, q) && Progress(q, r)
    ensures Progress(p, r) && Remaining(r) <= Remaining(p)
  {
    EofFromStable(p.tokens, p.current, q.current);
  }

  /** `peek`. */
  function Peek(p: Parser): (r: Result<Token, Error>)
    ensures r.Ok? <==> p.current < |p.tokens|
    ensures r.Ok? ==> r.value == p.tokens[p.current]
    ensures r.Err? ==> r.error == OutOfBounds(p.current)
  {
    if p.current < |p.tokens| then Ok(p.tokens[p.current]) else Err(OutOfBounds(p.current))
  }

  /** `previous`; at cursor 0 the index is -1, which is out of bounds. */
  function Previous(p: Parser): (r: Result<Token, Error>)
    ensures r.Ok? <==> 0 < p.current <= |p.tokens|
    ensures r.Ok? ==> r.value == p.tokens[p.current - 1]
    ensures r.Err? ==> r.error == OutOfBounds(p.current - 1)
  {
    if 0 < p.current <= |p.tokens| then Ok(p.tokens[p.current - 1]) else Err(OutOfBounds(p.current - 1))
  }

  /** `is_at_end`: an `Eof` under the cursor, or a cursor outside the
      vector. */
  predicate IsAtEnd(p: Parser)
  {
    match Peek(p)
    case Ok(token) => token.tokenType == Eof
    case Err(_) => true
  }

  /** `check`: the token under the cursor has the given kind; never true at
      the end, so never true for `Eof`. */
  predicate Check(p: Parser, kind: TokenType)
  {
    if IsAtEnd(p) || Peek(p).Err? then false
    else Peek(p).value.tokenType == kind
  }

  /** `advance`: move the cursor unless at the end. The Rust method also
      returns `previous().unwrap()`; see `ParserProperties.AdvanceSpec` for when
      that unwrap succeeds. */
  function Advance(p: Parser): (q: Parser)
  {
    if !IsAtEnd(p) then p.(current := p.current + 1) else p
  }

  /** `match_types`: consume the token under the cursor if its kind is one
      of `types`, trying the kinds in order. */
  function MatchTypes(p: Parser, types: seq<TokenType>): (r: (bool, Parser))
    ensures r.0 <==> p.current < |p.tokens| && p.tokens[p.current].tokenType != Eof
                     && p.tokens[p.current].tokenType in types
    ensures r.0 ==> r.1 == p.(current := p.current + 1)
    ensures !r.0 ==> r.1 == p
  {
    if |types| == 0 then (false, p)
    else if Check(p, types[0]) then (true, Advance(p))
    else MatchTypes(p, types[1..])
  }

  /** `consume`: take a token of the expected kind, or report what was
      found instead without moving. */
  function Consume(p: Parser, kind: TokenType, message: string): (r: (Parser, Result<Token, Error>))
    ensures r.1.Ok? <==> p.current < |p.tokens| && p.tokens[p.current].tokenType == kind && kind != Eof
    ensures r.1.Ok? ==> r.0 == p.(current := p.current + 1) && r.1.value == p.tokens[p.current]
    ensures r.1.Err? ==> r.0 == p
    ensures r.1.Err? && p.current < |p.tokens| ==>
      r.1.error == MismatchedToken(p.tokens[p.current].line, kind, p.tokens[p.current].tokenType, message)
    ensures r.1.Err? && p.current >= |p.tokens| ==> r.1.error == OutOfBounds(p.current)
  {
    if Check(p, kind) then
      var q := Advance(p);
      (q, Ok(Previous(q).value))
    else
      match Peek(p)
      case Err(e) => (p, Err(e))
      case Ok(actual) => (p, Err(MismatchedToken(actual.line, kind, actual.tokenType, message)))
  }

  /** The four binary precedence levels, loosest first. */
  datatype Level = Equality | Comparison | Term | Factor

  /** How tightly a level binds: 1 for equality up to 4 for factor; unary
      and primary expressions bind at 5. */
  function Binding(level: Level): nat
  {
    match level
    case Equality => 1
    case Comparison => 2
    case Term => 3
    case Factor => 4
  }

  const Atomic: nat := 5

  /** The operator kinds of each level, in the order `match_types` tries
      them. */
  function Operators(level: Level): seq<TokenType>
  {
    match level
    case Equality => [BangEqual, EqualEqual]
    case Comparison => [LessEqual, Less, Greater, GreaterEqual]
    case Term => [Minus, Plus]
    case Factor => [Slash, Star]
  }

  /** The level a kind is a binary operator of, if any. */
  function LevelOf(kind: TokenType): (r: Option<Level>)
    ensures r.Some? ==> kind in Operators(r.value)
    ensures forall level :: kind in Operators(level) ==> r == Some(level)
  {
    if kind.BangEqual? || kind.EqualEqual? then Some(Equality)
    else if kind.LessEqual? || kind.Less? || kind.Greater? || kind.GreaterEqual? then Some(Comparison)
    else if kind.Minus? || kind.Plus? then Some(Term)
    else if kind.Slash? || kind.Star? then Some(Factor)
    else None
  }

  /** The trees the parser can build at binding strength `b`: a binary
      node's operator belongs to a level binding at least as tightly as `b`,
      its left operand binds at least as tightly as that level and its right
      operand strictly more tightly; a grouping holds any expression; there
      are no `Unary` or `Condition` nodes. */
  predicate WellFormed(e: Expr, b: nat)
  {
    match e
    case Literal(_) => true
    case Grouping(inner) => WellFormed(inner, 1)
    case Binary(left, operator, right) =>
      && LevelOf(operator.tokenType).Some?
      && var h := Binding(LevelOf(operator.tokenType).value);
      && b <= h && WellFormed(left, h) && WellFormed(right, h + 1)
    case Unary(_, _) => false
    case Condition(_, _, _) => false
  }

  /** `parse`: one expression. */
  function Parse(p: Parser): (r: Parsed)
    ensures Progress(p, r.after)
    ensures r.result.Ok? ==> WellFormed(r.result.value, 1)
  {
    Expression(p)
  }

  /** `expression`. */
  function Expression(p: Parser): (r: Parsed)
    ensures Progress(p, r.after)
    ensures r.result.Ok? ==> WellFormed(r.result.value, 1)
    decreases Remaining(p), 20
  {
    BinaryLevel(Equality, p)
  }

  /** `equality`, `comparison`, `term` and `factor`: one operand of the next
      tighter level, then the operator loop. */
  function BinaryLevel(level: Level, p: Parser): (r: Parsed)
    ensures Progress(p, r.after)
    ensures r.result.Ok? ==> WellFormed(r.result.value, Binding(level))
    decreases Remaining(p), 4 * (Atomic - Binding(level)) + 3
  {
    var operand := Operand(level, p);
    match operand.result
    case Err(_) => operand
    case Ok(left) =>
      var r := LevelLoop(level, left, operand.after);
      ProgressTransitive(p, operand.after, r.after);
      r
  }

  /** The `while self.match_types(..)` loop of a level: each operator and
      right operand found is folded into a new node whose left operand is
      everything parsed so far. */
  function LevelLoop(level: Level, left: Expr, p: Parser): (r: Parsed)
    ensures Progress(p, r.after)
    ensures r.result.Ok? && WellFormed(left, Binding(level)) ==> WellFormed(r.result.value, Binding(level))
    decreases Remaining(p), 4 * (Atomic - Binding(level)) + 1
  {
    var m := MatchTypes(p, Operators(level));
    if !m.0 then Parsed(m.1, Ok(left))
    else
      assert Progress(p, m.1) && Remaining(m.1) < Remaining(p);
      var r := LevelStep(level, left, m.1);
      ProgressTransitive(p, m.1, r.after);
      r
  }

  /** One turn of that loop once an operator of the level was consumed:
      take it as the operator, parse the right operand, fold, continue. */
  function LevelStep(level: Level, left: Expr, p: Parser): (r: Parsed)
    requires 0 < p.current <= |p.tokens| && p.tokens[p.current - 1].tokenType in Operators(level)
    ensures Progress(p, r.after)
    ensures r.result.Ok? && WellFormed(left, Binding(level)) ==> WellFormed(r.result.value, Binding(level))
    decreases Remaining(p), 4 * (Atomic - Binding(level)) + 2
  {
    match Previous(p)
    case Err(e) => Parsed(p, Err(e))
    case Ok(operator) =>
      var operand := Operand(level, p);
      match operand.result
      case Err(_) => operand
      case Ok(right) =>
        assert LevelOf(operator.tokenType) == Some(level);
        assert WellFormed(right, Binding(level) + 1);
        assert WellFormed(left, Binding(level)) ==> WellFormed(Binary(left, operator, right), Binding(level));
        var r := LevelLoop(level, Binary(left, operator, right), operand.after);
        ProgressTransitive(p, operand.after, r.after);
        r
  }

  /** The next tighter level, which parses the operands of `level`. */
  function Operand(level: Level, p: Parser): (r: Parsed)
    ensures Progress(p, r.after)
    ensures r.result.Ok? ==> WellFormed(r.result.value, Binding(level) + 1)
    decreases Remaining(p), 4 * (Atomic - Binding(level))
  {
    match level
    case Equality => BinaryLevel(Comparison, p)
    case Comparison => BinaryLevel(Term, p)
    case Term => BinaryLevel(Factor, p)
    case Factor => Unary(p)
  }

  /** `unary`: a leading `!` or `-` is consumed and then ignored. */
  function Unary(p: Parser): (r: Parsed)
    ensures Progress(p, r.after)
    ensures r.result.Ok? ==> WellFormed(r.result.value, Atomic)
    decreases Remaining(p), 1
  {
    var m := MatchTypes(p, [Bang, Minus]);
    var p1 := m.1;
    assert Progress(p, p1);
    var r := Primary(p1);
    ProgressTransitive(p, p1, r.after);
    r
  }

  /** `primary`. */
  function Primary(p: Parser): (r: Parsed)
    ensures Progress(p, r.after)
    ensures r.result.Ok? ==> WellFormed(r.result.value, Atomic)
    decreases Remaining(p), 0
  {
    var keyword := MatchTypes(p, [TokenType.False, TokenType.True, TokenType.Nil]);
    if keyword.0 then
      var p1 := keyword.1;
      match Previous(p1)
      case Err(e) => Parsed(p1, Err(e))
      case Ok(token) => Parsed(p1, Ok(Literal(LiteralOfKind(token.tokenType))))
    else
      var constant := MatchTypes(p, [TokenType.Number, TokenType.String]);
      if constant.0 then
        var p2 := constant.1;
        match Previous(p2)
        case Err(e) => Parsed(p2, Err(e))
        case Ok(token) =>
          match token.literal
          case None => Parsed(p2, Err(EmptyLiteral(token)))
          case Some(lit) => Parsed(p2, Ok(Literal(lit)))
      else
        var group := MatchTypes(p, [LeftParen]);
        if group.0 then
          assert Progress(p, group.1) && Remaining(group.1) < Remaining(p);
          var r := Group(group.1);
          ProgressTransitive(p, group.1, r.after);
          r
        else
          match Peek(p)
          case Err(err) => Parsed(p, Err(err))
          case Ok(token) => Parsed(p, Err(UnexpectedToken(token, p.current)))
  }

  /** The rest of `primary` after a `(` was consumed: an expression and
      the closing `)`. */
  function Group(p: Parser): (r: Parsed)
    ensures Progress(p, r.after)
    ensures r.result.Ok? ==> r.result.value.Grouping? && WellFormed(r.result.value, Atomic)
    decreases Remaining(p), 21
  {
    var inner := Expression(p);
    match inner.result
    case Err(_) => inner
    case Ok(e) =>
      var closing := Consume(inner.after, RightParen, "Expect ')' after expression.");
      assert Progress(inner.after, closing.0);
      ProgressTransitive(p, inner.after, closing.0);
      match closing.1
      case Err(err) => Parsed(closing.0, Err(err))
      case Ok(_) => Parsed(closing.0, Ok(Grouping(e)))
  }

  /** The kinds that begin a statement, at which `synchronize` stops. */
  predicate StartsStatement(kind: TokenType)
  {
    kind.Class? || kind.Fun? || kind.Var? || kind.For? || kind.If? || kind.While? || kind.Print? || kind.Return?
  }

  /** Cursor position `i` is a statement boundary: just after a `;`, or
      just before a statement keyword. */
  predicate BoundaryAt(tokens: seq<Token>, i: nat)
  {
    || (0 < i <= |tokens| && tokens[i - 1].tokenType == Semicolon)
    || (i < |tokens| && StartsStatement(tokens[i].tokenType))
  }

  /** Cursor position `i` is at the end (`Eof` or outside the vector). */
  predicate EndAt(tokens: seq<Token>, i: nat)
  {
    i >= |tokens| || tokens[i].tokenType == Eof
  }

  /** The `while !self.is_at_end()` loop of `synchronize`: skip tokens
      until a boundary, failing when the end comes first. */
  function SyncLoop(p: Parser): (r: (Parser, Result<(), Error>))
    decreases Remaining(p)
  {
    if IsAtEnd(p) then (p, Err(SyncBoundaryNotFound))
    else
      match Previous(p)
      case Err(e) => (p, Err(e))
      case Ok(prev) =>
        if prev.tokenType == Semicolon then (p, Ok(()))
        else
          match Peek(p)
          case Err(e) => (p, Err(e))
          case Ok(next) =>
            if StartsStatement(next.tokenType) then (p, Ok(()))
            else SyncLoop(Advance(p))
  }

  /** The loop stops at the first boundary before the end, or fails with
      `SyncBoundaryNotFound` at the end; every token it skips is neither.
      The only other outcome is the `OutOfBounds` of `previous` at cursor
      0, which the loop never meets after `synchronize`'s first advance. */
  lemma {:induction false} SyncLoopSpec(p: Parser)
    ensures var r := SyncLoop(p);
      && Progress(p, r.0)
      && (forall i :: p.current <= i < r.0.current ==> !EndAt(p.tokens, i) && !BoundaryAt(p.tokens, i))
      && (r.1.Ok? ==> !EndAt(p.tokens, r.0.current) && BoundaryAt(p.tokens, r.0.current))
      && (r.1 == Err(SyncBoundaryNotFound) <==> EndAt(p.tokens, r.0.current))
      && (r.1.Err? && r.1.error != SyncBoundaryNotFound ==>
            p.current == 0 && r.0 == p && r.1.error == OutOfBounds(-1))
    decreases Remaining(p)
  {
    var r := SyncLoop(p);
    if IsAtEnd(p) {
      assert r == (p, Err(SyncBoundaryNotFound));
    } else if p.current == 0 {
      assert r == (p, Err(OutOfBounds(-1)));
    } else if p.tokens[p.current - 1].tokenType == Semicolon || StartsStatement(p.tokens[p.current].tokenType) {
      assert r == (p, Ok(()));
    } else {
      var q := Advance(p);
      assert q == p.(current := p.current + 1);
      assert r == SyncLoop(q);
      SyncLoopSpec(q);
      ProgressTransitive(p, q, r.0);
      assert !EndAt(p.tokens, p.current) && !BoundaryAt(p.tokens, p.current);
      forall i | p.current <= i < r.0.current
        ensures !EndAt(p.tokens, i) && !BoundaryAt(p.tokens, i)
      {
        if i > p.current {
          assert q.current <= i;
        }
      }
    }
  }

  /** `synchronize`, with the unconditional first `advance`. Its Rust
      version panics in one case; see `SynchronizeAsWritten`. */
  function Synchronize(p: Parser): (r: (Parser, Result<(), Error>))
  {
    SyncLoop(Advance(p))
  }

  /** `synchronize` stops at the first boundary after its first advance, or
      fails with `SyncBoundaryNotFound` exactly when it reaches the end. */
  lemma SynchronizeSpec(p: Parser)
    ensures var r := Synchronize(p);
      && Progress(p, r.0)
      && (forall i :: Advance(p).current <= i < r.0.current ==> !EndAt(p.tokens, i) && !BoundaryAt(p.tokens, i))
      && (r.1.Ok? ==> !EndAt(p.tokens, r.0.current) && BoundaryAt(p.tokens, r.0.current))
      && (r.1.Err? <==> r.1 == Err(SyncBoundaryNotFound))
      && (r.1.Err? <==> EndAt(p.tokens, r.0.current))
  {
    SyncLoopSpec(Advance(p));
    ProgressTransitive(p, Advance(p), Synchronize(p).0);
  }

  /** `synchronize` exactly as written: `advance` returns
      `previous().unwrap()`, which panics (`None` here) when the cursor
      could not move and there is no previous token. */
  function SynchronizeAsWritten(p: Parser): Option<(Parser, Result<(), Error>)>
  {
    var q := Advance(p);
    if Previous(q).Err? then None else Some(SyncLoop(q))
  }
}
