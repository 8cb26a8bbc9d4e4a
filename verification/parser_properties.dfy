/** What the expression parser of lox/src/parser.rs builds, stated against
    an independent reference: an unparser that writes a tree back out as
    tokens. Parsing the unparsed form of every well-formed tree gives the
    tree back, which pins down precedence and left associativity. */
module ParserProperties {
  import opened Wrappers
  import opened Tokens
  import opened Syntax
  import opened Parsing
  import Scanning

  /** A canonical token for a literal. */
  function LiteralToken(lit: Tokens.Literal): (t: Token)
    ensures t.tokenType in [TokenType.Number, TokenType.String, TokenType.True, TokenType.False, TokenType.Nil]
  {
    match lit
    case Number(_) => Token(TokenType.Number, "0", Some(lit), 1)
    case String(s) => Token(TokenType.String, "\"" + s + "\"", Some(lit), 1)
    case True => Token(TokenType.True, "true", None, 1)
    case False => Token(TokenType.False, "false", None, 1)
    case Nil => Token(TokenType.Nil, "nil", None, 1)
  }

  const LeftParenToken: Token := Token(LeftParen, "(", None, 1)
  const RightParenToken: Token := Token(RightParen, ")", None, 1)
  const QuestionMarkToken: Token := Token(QuestionMark, "?", None, 1)
  const ColonToken: Token := Token(Colon, ":", None, 1)

  /** The reference unparser: the tokens of a tree, operators taken from
      the tree, parentheses for every grouping. */
  function Unparse(e: Expr): (ts: seq<Token>)
    ensures |ts| >= 1
  {
    match e
    case Literal(lit) => [LiteralToken(lit)]
    case Grouping(inner) => [LeftParenToken] + Unparse(inner) + [RightParenToken]
    case Binary(left, operator, right) => Unparse(left) + [operator] + Unparse(right)
    case Unary(operator, operand) => [operator] + Unparse(operand)
    case Condition(c, t, f) => Unparse(c) + [QuestionMarkToken] + Unparse(t) + [ColonToken] + Unparse(f)
  }

  /** A kind that ends an expression of binding strength `b`: it is no
      operator of a level binding at least that tightly. */
  predicate Stops(kind: TokenType, b: nat)
  {
    LevelOf(kind).None? || Binding(LevelOf(kind).value) < b
  }

  /** The number of tokens in `e`'s spelling. */
  function Width(e: Expr): nat
  {
    match e
    case Literal(_) => 1
    case Grouping(inner) => Width(inner) + 2
    case Binary(left, _, right) => Width(left) + 1 + Width(right)
    case Unary(_, operand) => 1 + Width(operand)
    case Condition(c, t, f) => Width(c) + 1 + Width(t) + 1 + Width(f)
  }

  /** `ts` holds `e`'s spelling from `pos` on, stated token by token so that
      proofs about the parser need no sequence algebra. Only the trees the
      parser builds have one. */
  predicate SpellsAt(ts: seq<Token>, pos: nat, e: Expr)
    decreases e
  {
    match e
    case Literal(lit) => pos < |ts| && ts[pos] == LiteralToken(lit)
    case Grouping(inner) =>
      && pos < |ts| && ts[pos] == LeftParenToken
      && SpellsAt(ts, pos + 1, inner)
      && pos + 1 + Width(inner) < |ts| && ts[pos + 1 + Width(inner)] == RightParenToken
    case Binary(left, operator, right) =>
      && SpellsAt(ts, pos, left)
      && pos + Width(left) < |ts| && ts[pos + Width(left)] == operator
      && SpellsAt(ts, pos + Width(left) + 1, right)
    case Unary(_, _) => false
    case Condition(_, _, _) => false
  }

  /** `ts` holds `Unparse(e)` from `pos` on, token by token. */
  predicate Holds(ts: seq<Token>, pos: nat, spelling: seq<Token>)
  {
    pos + |spelling| <= |ts| && forall k :: 0 <= k < |spelling| ==> ts[pos + k] == spelling[k]
  }

  /** A part of a spelling held in `ts` is held there too, shifted by its
      offset. */
  lemma HoldsPart(ts: seq<Token>, pos: nat, spelling: seq<Token>, from: nat, to: nat)
    requires Holds(ts, pos, spelling) && from <= to <= |spelling|
    ensures Holds(ts, pos + from, spelling[from..to])
  {
    forall k | 0 <= k < to - from
      ensures ts[pos + from + k] == spelling[from..to][k]
    {
      assert ts[pos + (from + k)] == spelling[from + k];
    }
  }

  /** Where the parts of a grouping's or prefix node's spelling are. */
  lemma HoldsWrapped(ts: seq<Token>, pos: nat, first: Token, middle: seq<Token>, last: seq<Token>)
    requires Holds(ts, pos, [first] + middle + last)
    ensures pos < |ts| && ts[pos] == first
    ensures Holds(ts, pos + 1, middle)
    ensures |last| == 1 ==> pos + 1 + |middle| < |ts| && ts[pos + 1 + |middle|] == last[0]
  {
    var u := [first] + middle + last;
    assert ts[pos + 0] == u[0];
    assert u[1..1 + |middle|] == middle;
    HoldsPart(ts, pos, u, 1, 1 + |middle|);
    if |last| == 1 {
      assert ts[pos + (1 + |middle|)] == u[1 + |middle|];
    }
  }

  /** Where the parts of an infix spelling `a op b` are. */
  lemma HoldsInfix(ts: seq<Token>, pos: nat, a: seq<Token>, op: Token, b: seq<Token>)
    requires Holds(ts, pos, a + [op] + b)
    ensures Holds(ts, pos, a)
    ensures pos + |a| < |ts| && ts[pos + |a|] == op
    ensures Holds(ts, pos + |a| + 1, b)
  {
    var u := a + [op] + b;
    assert u[..|a|] == a;
    assert u[|a| + 1..] == b;
    HoldsPart(ts, pos, u, 0, |a|);
    HoldsPart(ts, pos, u, |a| + 1, |u|);
    assert ts[pos + |a|] == u[|a|];
  }

  /** `Unparse` writes exactly the spelling `SpellsAt` describes, wherever
      it is placed. */
  lemma {:induction false} SpellsUnparse(ts: seq<Token>, pos: nat, e: Expr, b: nat)
    requires WellFormed(e, b) && Holds(ts, pos, Unparse(e))
    ensures Width(e) == |Unparse(e)|
    ensures SpellsAt(ts, pos, e)
    decreases e, 1
  {
    match e
    case Literal(_) =>
      assert ts[pos + 0] == Unparse(e)[0];
    case Grouping(inner) => SpellsUnparseGrouping(ts, pos, e);
    case Binary(left, operator, right) => SpellsUnparseBinary(ts, pos, e, b);
  }

  lemma {:induction false} SpellsUnparseGrouping(ts: seq<Token>, pos: nat, e: Expr)
    requires e.Grouping? && WellFormed(e, Atomic) && Holds(ts, pos, Unparse(e))
    ensures Width(e) == |Unparse(e)|
    ensures SpellsAt(ts, pos, e)
    decreases e, 0
  {
    HoldsWrapped(ts, pos, LeftParenToken, Unparse(e.inner), [RightParenToken]);
    SpellsUnparse(ts, pos + 1, e.inner, 1);
  }

  lemma {:induction false} SpellsUnparseBinary(ts: seq<Token>, pos: nat, e: Expr, b: nat)
    requires e.Binary? && WellFormed(e, b) && Holds(ts, pos, Unparse(e))
    ensures Width(e) == |Unparse(e)|
    ensures SpellsAt(ts, pos, e)
    decreases e, 0
  {
    var h := Binding(LevelOf(e.operator.tokenType).value);
    HoldsInfix(ts, pos, Unparse(e.left), e.operator, Unparse(e.right));
    SpellsUnparse(ts, pos, e.left, h);
    SpellsUnparse(ts, pos + |Unparse(e.left)| + 1, e.right, h + 1);
  }

  /** The spelling after a prefix of the vector. */
  lemma SpellsUnparseAfter(before: seq<Token>, e: Expr, b: nat, after: seq<Token>)
    requires WellFormed(e, b)
    ensures Width(e) == |Unparse(e)|
    ensures SpellsAt(before + Unparse(e) + after, |before|, e)
  {
    var ts := before + Unparse(e) + after;
    forall k | 0 <= k < |Unparse(e)|
      ensures ts[|before| + k] == Unparse(e)[k]
    {
    }
    SpellsUnparse(ts, |before|, e, b);
  }

  /** The spelling at the front of the vector. */
  lemma SpellsUnparseFront(e: Expr, b: nat, after: seq<Token>)
    requires WellFormed(e, b)
    ensures Width(e) == |Unparse(e)|
    ensures SpellsAt(Unparse(e) + after, 0, e)
  {
    var ts := Unparse(e) + after;
    forall k | 0 <= k < |Unparse(e)|
      ensures ts[0 + k] == Unparse(e)[k]
    {
    }
    SpellsUnparse(ts, 0, e, b);
  }

  /** `unary` consumes a leading `!` or `-` and hands the rest to
      `primary`. */
  lemma UnaryWithPrefix(p: Parser)
    requires p.current < |p.tokens| && p.tokens[p.current].tokenType in [Bang, Minus]
    ensures Parsing.Unary(p) == Primary(p.(current := p.current + 1))
  {
    var m := MatchTypes(p, [Bang, Minus]);
    assert m.1 == p.(current := p.current + 1);
  }

  /** Without such an operator `unary` is `primary`. */
  lemma UnaryWithoutPrefix(p: Parser)
    requires p.current < |p.tokens| ==> p.tokens[p.current].tokenType !in [Bang, Minus]
    ensures Parsing.Unary(p) == Primary(p)
  {
    var m := MatchTypes(p, [Bang, Minus]);
    assert m.1 == p;
  }

  /** `match_types` consumes a token of one of the given kinds. */
  lemma MatchHit(p: Parser, types: seq<TokenType>)
    requires p.current < |p.tokens| && p.tokens[p.current].tokenType != Eof && p.tokens[p.current].tokenType in types
    ensures MatchTypes(p, types) == (true, p.(current := p.current + 1))
  {
  }

  /** `match_types` leaves the cursor alone on a token of any other kind. */
  lemma MatchMiss(p: Parser, types: seq<TokenType>)
    requires p.current < |p.tokens| && p.tokens[p.current].tokenType !in types
    ensures MatchTypes(p, types) == (false, p)
  {
  }

  /** `primary` on `true`, `false` or `nil`. */
  lemma PrimaryOfKeyword(ts: seq<Token>, pos: nat)
    requires pos < |ts| && ts[pos].tokenType in [TokenType.False, TokenType.True, TokenType.Nil]
    ensures Primary(Parser(ts, pos)) == Parsed(Parser(ts, pos + 1), Ok(Literal(LiteralOfKind(ts[pos].tokenType))))
  {
    var p := Parser(ts, pos);
    var q := Parser(ts, pos + 1);
    MatchHit(p, [TokenType.False, TokenType.True, TokenType.Nil]);
    assert MatchTypes(p, [TokenType.False, TokenType.True, TokenType.Nil]).1 == q;
    assert Previous(q) == Ok(ts[pos]);
  }

  /** `primary` on a number or a string: the literal the token carries. */
  lemma PrimaryOfConstant(ts: seq<Token>, pos: nat)
    requires pos < |ts| && ts[pos].tokenType in [TokenType.Number, TokenType.String]
    ensures Primary(Parser(ts, pos)) ==
      Parsed(Parser(ts, pos + 1), if ts[pos].literal.Some? then Ok(Literal(ts[pos].literal.value)) else Err(EmptyLiteral(ts[pos])))
  {
    var p := Parser(ts, pos);
    var q := Parser(ts, pos + 1);
    MatchMiss(p, [TokenType.False, TokenType.True, TokenType.Nil]);
    MatchHit(p, [TokenType.Number, TokenType.String]);
    assert MatchTypes(p, [TokenType.Number, TokenType.String]).1 == q;
    assert Previous(q) == Ok(ts[pos]);
  }

  /** `primary` on a literal's canonical token. */
  lemma PrimaryOfLiteral(ts: seq<Token>, pos: nat, lit: Tokens.Literal)
    requires pos < |ts| && ts[pos] == LiteralToken(lit)
    ensures Primary(Parser(ts, pos)) == Parsed(Parser(ts, pos + 1), Ok(Literal(lit)))
  {
    if lit.Number? || lit.String? {
      PrimaryOfConstant(ts, pos);
    } else {
      PrimaryOfKeyword(ts, pos);
    }
  }

  /** `primary` on a `(` continues with the group after it. */
  lemma PrimaryOfLeftParen(ts: seq<Token>, pos: nat)
    requires pos < |ts| && ts[pos].tokenType == LeftParen
    ensures Primary(Parser(ts, pos)) == Group(Parser(ts, pos + 1))
  {
    var p := Parser(ts, pos);
    var keyword := MatchTypes(p, [TokenType.False, TokenType.True, TokenType.Nil]);
    var constant := MatchTypes(p, [TokenType.Number, TokenType.String]);
    var group := MatchTypes(p, [LeftParen]);
    MatchMiss(p, [TokenType.False, TokenType.True, TokenType.Nil]);
    MatchMiss(p, [TokenType.Number, TokenType.String]);
    MatchHit(p, [LeftParen]);
    assert !keyword.0 && !constant.0 && group.0;
    assert Primary(p) == Group(group.1);
  }

  /** The operator loop of a level stops, keeping what it has, at a token
      that is not one of the level's operators. */
  lemma LoopStops(level: Level, left: Expr, ts: seq<Token>, i: nat)
    requires i < |ts| && ts[i].tokenType !in Operators(level)
    ensures LevelLoop(level, left, Parser(ts, i)) == Parsed(Parser(ts, i), Ok(left))
  {
    MatchMiss(Parser(ts, i), Operators(level));
  }

  /** At one of its operators the loop consumes it, parses the right
      operand and continues with the folded node. */
  lemma LoopTakesOperator(level: Level, left: Expr, ts: seq<Token>, i: nat, right: Expr, q: Parser)
    requires i < |ts| && ts[i].tokenType in Operators(level)
    requires Operand(level, Parser(ts, i + 1)) == Parsed(q, Ok(right))
    ensures LevelLoop(level, left, Parser(ts, i)) == LevelLoop(level, Binary(left, ts[i], right), q)
  {
    LoopEntersStep(level, left, ts, i);
    StepTakesOperand(level, left, ts, i, right, q);
  }

  /** At one of its operators the loop consumes it and takes a step. */
  lemma LoopEntersStep(level: Level, left: Expr, ts: seq<Token>, i: nat)
    requires i < |ts| && ts[i].tokenType in Operators(level)
    ensures LevelLoop(level, left, Parser(ts, i)) == LevelStep(level, left, Parser(ts, i + 1))
  {
    var p := Parser(ts, i);
    var q := Parser(ts, i + 1);
    assert ts[i].tokenType != Eof;
    MatchHit(p, Operators(level));
    assert MatchTypes(p, Operators(level)) == (true, q);
  }

  /** A step takes the consumed operator and the right operand after it. */
  lemma StepTakesOperand(level: Level, left: Expr, ts: seq<Token>, i: nat, right: Expr, q: Parser)
    requires i < |ts| && ts[i].tokenType in Operators(level)
    requires Operand(level, Parser(ts, i + 1)) == Parsed(q, Ok(right))
    ensures LevelStep(level, left, Parser(ts, i + 1)) == LevelLoop(level, Binary(left, ts[i], right), q)
  {
    assert Previous(Parser(ts, i + 1)) == Ok(ts[i]);
  }

  /** A level continues with its loop once its operand parsed. */
  lemma LevelAfterOperand(level: Level, p: Parser, left: Expr, q: Parser)
    requires Operand(level, p) == Parsed(q, Ok(left))
    ensures BinaryLevel(level, p) == LevelLoop(level, left, q)
  {
  }

  /** `expression` followed by a `)` closes the group. */
  lemma GroupCloses(p: Parser, inner: Expr, q: Parser)
    requires Expression(p) == Parsed(q, Ok(inner))
    requires q.current < |q.tokens| && q.tokens[q.current].tokenType == RightParen
    ensures Group(p) == Parsed(q.(current := q.current + 1), Ok(Grouping(inner)))
  {
    var closing := Consume(q, RightParen, "Expect ')' after expression.");
    assert closing == (q.(current := q.current + 1), Ok(q.tokens[q.current]));
  }

  /** `expression` followed by anything else is a `MismatchedToken` that
      names the token found. */
  lemma GroupUnclosed(p: Parser, inner: Expr, q: Parser)
    requires Expression(p) == Parsed(q, Ok(inner))
    requires q.current < |q.tokens| && q.tokens[q.current].tokenType != RightParen
    ensures var t := q.tokens[q.current];
      Group(p) == Parsed(q, Err(MismatchedToken(t.line, RightParen, t.tokenType, "Expect ')' after expression.")))
  {
    var closing := Consume(q, RightParen, "Expect ')' after expression.");
    var t := q.tokens[q.current];
    assert closing == (q, Err(MismatchedToken(t.line, RightParen, t.tokenType, "Expect ')' after expression.")));
  }

  /** `e`, binding at least as tightly as `b`, is spelled in `ts` from
      `pos` up to (not including) `end`. */
  predicate Placed(ts: seq<Token>, pos: nat, end: nat, e: Expr, b: nat)
  {
    WellFormed(e, b) && SpellsAt(ts, pos, e) && end == pos + Width(e)
  }

  /** The token at `end` ends an expression of binding strength `b`. */
  predicate EndsAt(ts: seq<Token>, end: nat, b: nat)
  {
    end < |ts| && Stops(ts[end].tokenType, b)
  }

  /** The operands of a binary node of `level`, and where they are
      spelled. */
  lemma BinaryParts(e: Expr, level: Level, ts: seq<Token>, pos: nat, mid: nat, end: nat)
    requires e.Binary? && LevelOf(e.operator.tokenType) == Some(level)
    requires Placed(ts, pos, end, e, Binding(level)) && mid == pos + Width(e.left)
    ensures Placed(ts, pos, mid, e.left, Binding(level)) && EndsAt(ts, mid, Binding(level) + 1)
    ensures Placed(ts, mid + 1, end, e.right, Binding(level) + 1)
    ensures mid < |ts| && ts[mid] == e.operator && e.operator.tokenType in Operators(level)
  {
  }

  /** The inner expression of a grouping, and where its `)` is. */
  lemma GroupingParts(e: Expr, ts: seq<Token>, pos: nat, close: nat, end: nat)
    requires e.Grouping? && Placed(ts, pos, end, e, Atomic) && close == pos + 1 + Width(e.inner)
    ensures Placed(ts, pos + 1, close, e.inner, 1) && EndsAt(ts, close, 1)
    ensures pos < close < |ts| && ts[pos].tokenType == LeftParen && ts[close].tokenType == RightParen
    ensures end == close + 1
  {
  }

  /** An end for a binding strength ends every weaker one. */
  lemma EndsAtWeaker(ts: seq<Token>, end: nat, b: nat)
    requires EndsAt(ts, end, b)
    ensures EndsAt(ts, end, b + 1)
  {
  }

  /** `unary` on a literal's canonical token. */
  lemma UnaryParsesLiteral(lit: Tokens.Literal, ts: seq<Token>, pos: nat, end: nat)
    requires pos < |ts| && ts[pos] == LiteralToken(lit) && end == pos + 1
    ensures Parsing.Unary(Parser(ts, pos)) == Parsed(Parser(ts, end), Ok(Literal(lit)))
  {
    UnaryWithoutPrefix(Parser(ts, pos));
    PrimaryOfLiteral(ts, pos, lit);
  }

  /** `unary` on `(`, an expression that ends at `)`, and that `)`. */
  lemma UnaryAfterGroup(ts: seq<Token>, pos: nat, inner: Expr, close: nat, end: nat)
    requires pos < close < |ts| && ts[pos].tokenType == LeftParen && ts[close].tokenType == RightParen
    requires end == close + 1
    requires Expression(Parser(ts, pos + 1)) == Parsed(Parser(ts, close), Ok(inner))
    ensures Parsing.Unary(Parser(ts, pos)) == Parsed(Parser(ts, end), Ok(Grouping(inner)))
  {
    UnaryWithoutPrefix(Parser(ts, pos));
    PrimaryOfLeftParen(ts, pos);
    GroupCloses(Parser(ts, pos + 1), inner, Parser(ts, close));
  }

  /* The round trip proper. Every lemma below takes the position where the
     spelling of its tree ends as a parameter `end`, so that the parser
     states it relates are always written at plain positions. */

  /** `unary` on the spelling of a literal or a grouping parses exactly
      that spelling. */
  lemma {:induction false} UnaryParses(e: Expr, ts: seq<Token>, pos: nat, end: nat)
    requires Placed(ts, pos, end, e, Atomic)
    ensures Parsing.Unary(Parser(ts, pos)) == Parsed(Parser(ts, end), Ok(e))
    decreases e, 1
  {
    match e
    case Literal(lit) => UnaryParsesLiteral(lit, ts, pos, end);
    case Grouping(inner) => GroupParses(e, ts, pos, end);
  }

  /** The grouping case: the inner expression is parsed up to its `)`. */
  lemma {:induction false} GroupParses(e: Expr, ts: seq<Token>, pos: nat, end: nat)
    requires e.Grouping? && Placed(ts, pos, end, e, Atomic)
    ensures Parsing.Unary(Parser(ts, pos)) == Parsed(Parser(ts, end), Ok(e))
    decreases e, 0
  {
    var close := pos + 1 + Width(e.inner);
    GroupingParts(e, ts, pos, close, end);
    LevelParses(Equality, e.inner, ts, pos + 1, close);
    UnaryAfterGroup(ts, pos, e.inner, close, end);
  }

  /** A level parses the spelling of a tree it can build, followed by a
      token that ends it. */
  lemma {:induction false} LevelParses(level: Level, e: Expr, ts: seq<Token>, pos: nat, end: nat)
    requires Placed(ts, pos, end, e, Binding(level)) && EndsAt(ts, end, Binding(level))
    ensures BinaryLevel(level, Parser(ts, pos)) == Parsed(Parser(ts, end), Ok(e))
    decreases e, 4 * (Atomic - Binding(level)) + 3
  {
    EndsAtWeaker(ts, end, Binding(level));
    LevelPrefix(level, e, ts, pos, end);
    LoopStops(level, e, ts, end);
  }

  /** When the token after `e`'s spelling may continue the level's loop,
      the level has parsed `e` by the time it reaches that token. */
  lemma {:induction false} LevelPrefix(level: Level, e: Expr, ts: seq<Token>, pos: nat, end: nat)
    requires Placed(ts, pos, end, e, Binding(level)) && EndsAt(ts, end, Binding(level) + 1)
    ensures BinaryLevel(level, Parser(ts, pos)) == LevelLoop(level, e, Parser(ts, end))
    decreases e, 4 * (Atomic - Binding(level)) + 2
  {
    if e.Binary? && LevelOf(e.operator.tokenType) == Some(level) {
      LevelPrefixBinary(level, e, ts, pos, end);
    } else {
      assert Placed(ts, pos, end, e, Binding(level) + 1);
      OperandParses(level, e, ts, pos, end);
      LevelAfterOperand(level, Parser(ts, pos), e, Parser(ts, end));
    }
  }

  /** The case of a node of the level itself: its left operand is the
      prefix parsed before its operator, which the loop then takes. */
  lemma {:induction false} LevelPrefixBinary(level: Level, e: Expr, ts: seq<Token>, pos: nat, end: nat)
    requires e.Binary? && LevelOf(e.operator.tokenType) == Some(level)
    requires Placed(ts, pos, end, e, Binding(level)) && EndsAt(ts, end, Binding(level) + 1)
    ensures BinaryLevel(level, Parser(ts, pos)) == LevelLoop(level, e, Parser(ts, end))
    decreases e, 4 * (Atomic - Binding(level)) + 1
  {
    var mid := pos + Width(e.left);
    BinaryParts(e, level, ts, pos, mid, end);
    LevelPrefix(level, e.left, ts, pos, mid);
    OperandParses(level, e.right, ts, mid + 1, end);
    FoldPrefix(level, e, ts, pos, mid, end);
  }

  /** The last step of `LevelPrefixBinary`: the loop folds the right
      operand into the node. */
  lemma FoldPrefix(level: Level, e: Expr, ts: seq<Token>, pos: nat, mid: nat, end: nat)
    requires e.Binary? && mid < |ts| && ts[mid] == e.operator
    requires e.operator.tokenType in Operators(level)
    requires BinaryLevel(level, Parser(ts, pos)) == LevelLoop(level, e.left, Parser(ts, mid))
    requires Operand(level, Parser(ts, mid + 1)) == Parsed(Parser(ts, end), Ok(e.right))
    ensures BinaryLevel(level, Parser(ts, pos)) == LevelLoop(level, e, Parser(ts, end))
  {
    LoopTakesOperator(level, e.left, ts, mid, e.right, Parser(ts, end));
  }

  /** The operand level of `level` parses the spelling of a tree binding
      more tightly than `level`. */
  lemma {:induction false} OperandParses(level: Level, e: Expr, ts: seq<Token>, pos: nat, end: nat)
    requires Placed(ts, pos, end, e, Binding(level) + 1) && EndsAt(ts, end, Binding(level) + 1)
    ensures Operand(level, Parser(ts, pos)) == Parsed(Parser(ts, end), Ok(e))
    decreases e, 4 * (Atomic - Binding(level))
  {
    match level
    case Equality => LevelParses(Comparison, e, ts, pos, end);
    case Comparison => LevelParses(Term, e, ts, pos, end);
    case Term => LevelParses(Factor, e, ts, pos, end);
    case Factor => UnaryParses(e, ts, pos, end);
  }

  /** Round trip: parsing the unparsed form of any well-formed tree,
      followed by any token that is not a binary operator, gives the tree
      back and stops at that token. */
  lemma ParseUnparse(e: Expr, rest: seq<Token>)
    requires WellFormed(e, 1)
    requires |rest| >= 1 && LevelOf(rest[0].tokenType).None?
    ensures Parse(New(Unparse(e) + rest)) == Parsed(Parser(Unparse(e) + rest, |Unparse(e)|), Ok(e))
  {
    var ts := Unparse(e) + rest;
    SpellsUnparseFront(e, 1, rest);
    LevelParses(Equality, e, ts, 0, |Unparse(e)|);
  }

  /** The same round trip for a whole scanned stream: the spelling followed
      by the scanner's `Eof` token. */
  lemma ParseUnparseEof(e: Expr)
    requires WellFormed(e, 1)
    ensures Parse(New(Unparse(e) + [Scanning.EofToken])).result == Ok(e)
  {
    ParseUnparse(e, [Scanning.EofToken]);
  }

  /** Precedence and associativity for three operands `x op1 y op2 z`: the
      second operator takes `y` as its left operand exactly when it binds
      more tightly than the first; otherwise the first node is built first
      and becomes the left operand of the second (left associativity). So
      `1 + 2 * 3` is `1 + (2 * 3)` and `a - b - c` is `(a - b) - c`. */
  lemma ThreeOperands(x: Tokens.Literal, op1: Token, y: Tokens.Literal, op2: Token, z: Tokens.Literal)
    requires LevelOf(op1.tokenType).Some? && LevelOf(op2.tokenType).Some?
    ensures var ts := [LiteralToken(x), op1, LiteralToken(y), op2, LiteralToken(z), Scanning.EofToken];
      Parse(New(ts)).result ==
        if Binding(LevelOf(op2.tokenType).value) > Binding(LevelOf(op1.tokenType).value)
        then Ok(Binary(Literal(x), op1, Binary(Literal(y), op2, Literal(z))))
        else Ok(Binary(Binary(Literal(x), op1, Literal(y)), op2, Literal(z)))
  {
    if Binding(LevelOf(op2.tokenType).value) > Binding(LevelOf(op1.tokenType).value) {
      var e := Binary(Literal(x), op1, Binary(Literal(y), op2, Literal(z)));
      ThreeOperandsSpelling(e, x, op1, y, op2, z);
      ParseUnparseEof(e);
    } else {
      var e := Binary(Binary(Literal(x), op1, Literal(y)), op2, Literal(z));
      ThreeOperandsSpelling(e, x, op1, y, op2, z);
      ParseUnparseEof(e);
    }
  }

  /** Both ways of grouping `x op1 y op2 z` are spelled the same. */
  lemma ThreeOperandsSpelling(e: Expr, x: Tokens.Literal, op1: Token, y: Tokens.Literal, op2: Token, z: Tokens.Literal)
    requires e == Binary(Literal(x), op1, Binary(Literal(y), op2, Literal(z)))
          || e == Binary(Binary(Literal(x), op1, Literal(y)), op2, Literal(z))
    ensures Unparse(e) + [Scanning.EofToken] == [LiteralToken(x), op1, LiteralToken(y), op2, LiteralToken(z), Scanning.EofToken]
  {
    if e.left.Literal? {
      assert Unparse(e.right) == [LiteralToken(y), op2, LiteralToken(z)];
    } else {
      assert Unparse(e.left) == [LiteralToken(x), op1, LiteralToken(y)];
    }
  }

  /** A level whose operand failed fails the same way. */
  lemma LevelOperandFails(level: Level, p: Parser)
    requires Operand(level, p).result.Err?
    ensures BinaryLevel(level, p) == Operand(level, p)
  {
  }

  /** Once `unary` has produced a tree, or failed, every level above it
      passes that outcome up unchanged, as long as the tree is followed by
      a token that ends the level. */
  lemma {:induction false} LevelOfUnary(level: Level, ts: seq<Token>, pos: nat)
    requires var u := Parsing.Unary(Parser(ts, pos));
      u.result.Err? || (u.after.current < |ts| && LevelOf(ts[u.after.current].tokenType).None?)
    ensures BinaryLevel(level, Parser(ts, pos)) == Parsing.Unary(Parser(ts, pos))
    decreases Atomic - Binding(level)
  {
    var p := Parser(ts, pos);
    var u := Parsing.Unary(p);
    var operand := Operand(level, p);
    match level {
      case Equality => LevelOfUnary(Comparison, ts, pos);
      case Comparison => LevelOfUnary(Term, ts, pos);
      case Term => LevelOfUnary(Factor, ts, pos);
      case Factor =>
    }
    assert operand == u;
    if u.result.Ok? {
      assert u.after == Parser(ts, u.after.current);
      LoopStops(level, u.result.value, ts, u.after.current);
      LevelAfterOperand(level, p, u.result.value, u.after);
    } else {
      LevelOperandFails(level, p);
    }
  }

  /** `unary` consumes a leading `!` or `-` and drops it: `-x` and `!x`
      parse to the same tree as `x`, for every `x` the parser can build.
      The operator binds only to the first operand, which is then
      forgotten, so `-1 + 2` parses as `1 + 2`. */
  lemma UnaryDropsOperator(operator: Token, e: Expr)
    requires operator.tokenType in [Bang, Minus]
    requires WellFormed(e, 1)
    ensures Parse(New([operator] + Unparse(e) + [Scanning.EofToken])).result == Ok(e)
  {
    PrefixedSpelling(operator, e);
    PrefixedParse([operator] + Unparse(e) + [Scanning.EofToken], e, 1 + |Unparse(e)|);
  }

  /** Where the parts of `[operator] + Unparse(e) + [Eof]` are. */
  lemma PrefixedSpelling(operator: Token, e: Expr)
    requires WellFormed(e, 1)
    ensures var ts := [operator] + Unparse(e) + [Scanning.EofToken];
      && ts[0] == operator
      && Placed(ts, 1, 1 + |Unparse(e)|, e, 1) && EndsAt(ts, 1 + |Unparse(e)|, 1)
  {
    var ts := [operator] + Unparse(e) + [Scanning.EofToken];
    SpellsUnparseAfter([operator], e, 1, [Scanning.EofToken]);
    assert ts[1 + |Unparse(e)|] == Scanning.EofToken;
  }

  /** `parse` on a prefix operator followed by the spelling of `e` and a
      token that ends an expression. */
  lemma PrefixedParse(ts: seq<Token>, e: Expr, end: nat)
    requires 1 <= |ts| && ts[0].tokenType in [Bang, Minus]
    requires Placed(ts, 1, end, e, 1) && EndsAt(ts, end, 1)
    ensures Parse(New(ts)).result == Ok(e)
  {
    NoPrefixAt(ts, 1, e, 1);
    UnaryWithPrefix(Parser(ts, 0));
    UnaryWithoutPrefix(Parser(ts, 1));
    SameUnarySameLevel(Equality, Parser(ts, 0), Parser(ts, 1));
    LevelParses(Equality, e, ts, 1, end);
  }

  /** A level's outcome depends on its starting state only through what
      `unary` makes of it. */
  lemma {:induction false} SameUnarySameLevel(level: Level, p: Parser, q: Parser)
    requires Parsing.Unary(p) == Parsing.Unary(q)
    ensures BinaryLevel(level, p) == BinaryLevel(level, q)
    decreases Atomic - Binding(level)
  {
    match level
    case Equality => SameUnarySameLevel(Comparison, p, q);
    case Comparison => SameUnarySameLevel(Term, p, q);
    case Term => SameUnarySameLevel(Factor, p, q);
    case Factor =>
  }

  /** The spelling of a tree the parser builds never starts with a prefix
      operator: its first token is a literal's or a `(`. */
  lemma {:induction false} NoPrefixAt(ts: seq<Token>, pos: nat, e: Expr, b: nat)
    requires WellFormed(e, b) && SpellsAt(ts, pos, e)
    ensures pos < |ts| && ts[pos].tokenType !in [Bang, Minus]
    decreases e
  {
    match e
    case Literal(_) =>
    case Grouping(_) =>
    case Binary(left, operator, _) =>
      NoPrefixAt(ts, pos, left, Binding(LevelOf(operator.tokenType).value));
  }

  /** Only one prefix operator is dropped: a second one reaches `primary`,
      which rejects it. */
  lemma DoublePrefixRejected(ts: seq<Token>)
    requires |ts| >= 2 && ts[0].tokenType in [Bang, Minus] && ts[1].tokenType in [Bang, Minus]
    ensures Parse(New(ts)).result == Err(UnexpectedToken(ts[1], 1))
  {
    UnaryWithPrefix(Parser(ts, 0));
    PrimaryRejects(Parser(ts, 1));
    LevelOfUnary(Equality, ts, 0);
  }

  /** `primary` on any token that cannot start a primary expression, `Eof`
      included, is an `UnexpectedToken` at the cursor, which stays put. */
  lemma PrimaryRejects(p: Parser)
    requires p.current < |p.tokens|
    requires p.tokens[p.current].tokenType !in [TokenType.False, TokenType.True, TokenType.Nil, TokenType.Number, TokenType.String, LeftParen]
    ensures Primary(p) == Parsed(p, Err(UnexpectedToken(p.tokens[p.current], p.current)))
  {
    var keyword := MatchTypes(p, [TokenType.False, TokenType.True, TokenType.Nil]);
    var constant := MatchTypes(p, [TokenType.Number, TokenType.String]);
    var group := MatchTypes(p, [LeftParen]);
    assert !keyword.0 && !constant.0 && !group.0;
  }

  /** `primary` outside the vector is the `OutOfBounds` of `peek`. */
  lemma PrimaryOutOfBounds(p: Parser)
    requires p.current >= |p.tokens|
    ensures Primary(p) == Parsed(p, Err(OutOfBounds(p.current)))
  {
    var keyword := MatchTypes(p, [TokenType.False, TokenType.True, TokenType.Nil]);
    var constant := MatchTypes(p, [TokenType.Number, TokenType.String]);
    var group := MatchTypes(p, [LeftParen]);
    assert !keyword.0 && !constant.0 && !group.0;
  }

  /** A group whose `)` is missing is a `MismatchedToken` that expects
      `RightParen`, reports the kind and line of the token found instead,
      and leaves the cursor on that token. */
  lemma MissingRightParen(e: Expr, after: seq<Token>)
    requires WellFormed(e, 1)
    requires |after| >= 1 && LevelOf(after[0].tokenType).None? && after[0].tokenType != RightParen
    ensures var ts := [LeftParenToken] + Unparse(e) + after;
      Parse(New(ts)) ==
        Parsed(Parser(ts, 1 + |Unparse(e)|),
               Err(MismatchedToken(after[0].line, RightParen, after[0].tokenType, "Expect ')' after expression.")))
  {
    var ts := [LeftParenToken] + Unparse(e) + after;
    var n := |Unparse(e)|;
    SpellsUnparseAfter([LeftParenToken], e, 1, after);
    assert ts[0] == LeftParenToken;
    assert ts[1 + n] == after[0];
    UnclosedParse(ts, e, 1 + n);
  }

  /** `parse` on `(` and the spelling of `e`, followed by a token that is
      neither an operator nor `)`. */
  lemma UnclosedParse(ts: seq<Token>, e: Expr, end: nat)
    requires 1 <= |ts| && ts[0].tokenType == LeftParen
    requires Placed(ts, 1, end, e, 1) && EndsAt(ts, end, 1) && ts[end].tokenType != RightParen
    ensures Parse(New(ts)) ==
      Parsed(Parser(ts, end), Err(MismatchedToken(ts[end].line, RightParen, ts[end].tokenType, "Expect ')' after expression.")))
  {
    UnclosedUnary(ts, e, end);
    LevelOfUnary(Equality, ts, 0);
  }

  /** The same at the level of `unary`. */
  lemma UnclosedUnary(ts: seq<Token>, e: Expr, end: nat)
    requires 1 <= |ts| && ts[0].tokenType == LeftParen
    requires Placed(ts, 1, end, e, 1) && EndsAt(ts, end, 1) && ts[end].tokenType != RightParen
    ensures Parsing.Unary(Parser(ts, 0)) ==
      Parsed(Parser(ts, end), Err(MismatchedToken(ts[end].line, RightParen, ts[end].tokenType, "Expect ')' after expression.")))
  {
    UnclosedGroup(ts, e, end);
    PrimaryOfLeftParen(ts, 0);
    UnaryWithoutPrefix(Parser(ts, 0));
  }

  /** The same at the level of the group after the `(`. */
  lemma UnclosedGroup(ts: seq<Token>, e: Expr, end: nat)
    requires Placed(ts, 1, end, e, 1) && EndsAt(ts, end, 1) && ts[end].tokenType != RightParen
    ensures Group(Parser(ts, 1)) ==
      Parsed(Parser(ts, end), Err(MismatchedToken(ts[end].line, RightParen, ts[end].tokenType, "Expect ')' after expression.")))
  {
    LevelParses(Equality, e, ts, 1, end);
    GroupUnclosed(Parser(ts, 1), e, Parser(ts, end));
  }

  /** An empty stream has no expression: `peek` fails at cursor 0. */
  lemma NothingToParse(ts: seq<Token>)
    requires |ts| == 0
    ensures Parse(New(ts)).result == Err(OutOfBounds(0))
  {
    UnaryWithoutPrefix(Parser(ts, 0));
    PrimaryOutOfBounds(Parser(ts, 0));
    LevelOfUnary(Equality, ts, 0);
  }

  /** A stream that starts with `Eof` has no expression: `primary`
      rejects the `Eof` itself. */
  lemma NothingBeforeEof(ts: seq<Token>)
    requires |ts| >= 1 && ts[0].tokenType == Eof
    ensures Parse(New(ts)).result == Err(UnexpectedToken(ts[0], 0))
  {
    UnaryWithoutPrefix(Parser(ts, 0));
    PrimaryRejects(Parser(ts, 0));
    LevelOfUnary(Equality, ts, 0);
  }

  /** `advance` never moves past an `Eof` or out of the vector, and the
      `previous().unwrap()` it returns fails only when the cursor is at 0
      and could not move. */
  lemma AdvanceSpec(p: Parser)
    requires p.current <= |p.tokens|
    ensures Progress(p, Advance(p))
    ensures Advance(p).current == if IsAtEnd(p) then p.current else p.current + 1
    ensures Previous(Advance(p)).Err? <==> p.current == 0 && IsAtEnd(p)
  {
  }

  /** `check` holds exactly for the kind under the cursor, never for `Eof`
      and never outside the vector. */
  lemma CheckSpec(p: Parser, kind: TokenType)
    ensures Check(p, kind) <==> p.current < |p.tokens| && p.tokens[p.current].tokenType == kind && kind != Eof
  {
  }

  /** As written, `synchronize` panics on a stream that is just `Eof`
      (or empty) with the cursor at 0: `advance` cannot move and unwraps
      the `previous` of cursor 0. The corrected version reports
      `SyncBoundaryNotFound` there. */
  lemma SynchronizePanicsAtStart()
    ensures SynchronizeAsWritten(New([Scanning.EofToken])).None?
    ensures SynchronizeAsWritten(New([])).None?
    ensures Synchronize(New([Scanning.EofToken])).1 == Err(SyncBoundaryNotFound)
    ensures Synchronize(New([])).1 == Err(SyncBoundaryNotFound)
  {
  }

  /** Everywhere else the two versions agree: the panic is the only
      difference. */
  lemma SynchronizeAsWrittenAgrees(p: Parser)
    requires p.current <= |p.tokens|
    ensures SynchronizeAsWritten(p).None? <==> p.current == 0 && IsAtEnd(p)
    ensures SynchronizeAsWritten(p).Some? ==> SynchronizeAsWritten(p).value == Synchronize(p)
  {
  }
}
