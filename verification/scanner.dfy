/** The single-character scanner draft of lox/src/scanner.rs. The source is
    a `string` of characters, indexed by character. The Rust code ends its
    loop at the byte length of the source instead; `LexAsWritten` models
    that, and shows it only works for ASCII text. The draft's private copies of
    `Token`, `TokenType` and `Literal` are identified with those of
    lox/src/token.rs: the scanner only ever emits the ten kinds below and
    `Eof`, and never attaches a literal. */
module Scanning {
  import opened Wrappers
  import opened Tokens
  import opened Sequences

  datatype Scanner = Scanner(source: string, tokens: seq<Token>, start: nat, current: nat, line: int32)

  /** `Scanner::new`. */
  function New(source: string): (s: Scanner)
    ensures s.source == source && s.tokens == []
    ensures s.start == 0 && s.current == 0 && s.line == 1
  {
    Scanner(source, [], 0, 0, 1)
  }

  /** `is_at_end`, comparing the cursor with the number of characters, the
      unit `advance` counts in. */
  predicate IsAtEnd(s: Scanner)
  {
    s.current >= |s.source|
  }

  /** `advance`: the character under the cursor, with the cursor moved by
      one. Reading past the end panics in the source, hence the requires. */
  function Advance(s: Scanner): (r: (Scanner, char))
    requires !IsAtEnd(s)
    ensures r.0 == s.(current := s.current + 1)
    ensures r.1 == s.source[s.current]
  {
    (s.(current := s.current + 1), s.source[s.current])
  }

  /** The kind of each recognised character; `None` for all others. */
  function CharKind(c: char): Option<TokenType>
  {
    match c
    case '(' => Some(LeftParen)
    case ')' => Some(RightParen)
    case '{' => Some(LeftBrace)
    case '}' => Some(RightBrace)
    case ',' => Some(Comma)
    case '.' => Some(Dot)
    case '-' => Some(Minus)
    case '+' => Some(Plus)
    case ';' => Some(Semicolon)
    case '*' => Some(Star)
    case _ => None
  }

  /** The kinds the scanner can produce from a character. */
  predicate SingleCharKind(kind: TokenType)
  {
    kind in {LeftParen, RightParen, LeftBrace, RightBrace, Comma, Dot, Minus, Plus, Semicolon, Star}
  }

  /** Exactly the ten characters `( ) { } , . - + ; *` are recognised, each
      to its own kind, and no two characters share a kind. */
  lemma CharKindSpec(c: char, d: char)
    ensures CharKind(c).Some? <==> c in "(){},.-+;*"
    ensures CharKind(c).Some? ==> SingleCharKind(CharKind(c).value)
    ensures CharKind(c).Some? && CharKind(c) == CharKind(d) ==> c == d
  {
  }

  /** `get_token`: a token whose lexeme is the window `start..current`. */
  function GetToken(s: Scanner, kind: TokenType, literal: Option<Literal>): (t: Option<Token>)
    requires s.start <= s.current <= |s.source|
    ensures t.Some?
    ensures t.value.tokenType == kind && t.value.literal == literal && t.value.line == s.line
    ensures t.value.lexeme == s.source[s.start..s.current]
  {
    Some(NewToken(kind, s.source[s.start..s.current], literal, s.line))
  }

  /** `scan_token`: consume one character and emit at most one token. */
  function ScanToken(s: Scanner): (r: (Scanner, Option<Token>))
    requires !IsAtEnd(s) && s.start == s.current
  {
    var (s', c) := Advance(s);
    match CharKind(c)
    case Some(kind) => (s', GetToken(s', kind, None))
    case None => (s', None)
  }

  /** One step of the scan consumes exactly one character; it yields a
      token iff that character is recognised, and the token is that one
      character, with no literal and the current line. */
  lemma ScanTokenSpec(s: Scanner)
    requires !IsAtEnd(s) && s.start == s.current
    ensures var (s', t) := ScanToken(s);
      && s' == s.(current := s.current + 1)
      && (t.Some? <==> CharKind(s.source[s.current]).Some?)
      && (t.Some? ==> t.value == Token(CharKind(s.source[s.current]).value, [s.source[s.current]], None, s.line))
  {
    var (s', t) := ScanToken(s);
    if t.Some? {
      assert s.source[s.current..s.current + 1] == [s.source[s.current]];
    }
  }

  /** The reference scan: the tokens of the characters from index `i` on,
      one per recognised character, in source order. */
  function Lex(source: string, i: nat, line: int32): seq<Token>
    decreases |source| - i
  {
    if i >= |source| then []
    else
      (match CharKind(source[i])
       case Some(kind) => [Token(kind, [source[i]], None, line)]
       case None => [])
      + Lex(source, i + 1, line)
  }

  /** What the reference scan promises: every token is one recognised
      source character at or after `i`, of that character's kind, with no
      literal and the given line; there are never more tokens than
      characters. */
  lemma {:induction false} LexSpec(source: string, i: nat, line: int32)
    ensures |Lex(source, i, line)| <= |source| - i || (i >= |source| && Lex(source, i, line) == [])
    ensures forall t :: t in Lex(source, i, line) ==>
      && |t.lexeme| == 1 && t.lexeme[0] in source[i..]
      && CharKind(t.lexeme[0]) == Some(t.tokenType)
      && SingleCharKind(t.tokenType)
      && t.literal.None? && t.line == line
    decreases |source| - i
  {
    if i < |source| {
      LexSpec(source, i + 1, line);
      forall t | t in Lex(source, i, line)
        ensures |t.lexeme| == 1 && t.lexeme[0] in source[i..]
      {
        if t in Lex(source, i + 1, line) {
          assert t.lexeme[0] in source[i + 1..];
          assert source[i + 1..] == source[i..][1..];
        } else {
          assert t.lexeme == [source[i]];
          assert source[i] == source[i..][0];
        }
      }
    }
  }

  /** Every recognised character of the input appears as a token, so a
      source of only recognised characters gives one token per character. */
  lemma {:induction false} LexAllRecognised(source: string, i: nat, line: int32)
    requires i <= |source|
    requires forall j :: i <= j < |source| ==> CharKind(source[j]).Some?
    ensures |Lex(source, i, line)| == |source| - i
    ensures forall j :: i <= j < |source| ==>
      Lex(source, i, line)[j - i] == Token(CharKind(source[j]).value, [source[j]], None, line)
    decreases |source| - i
  {
    if i < |source| {
      LexAllRecognised(source, i + 1, line);
      var rest := Lex(source, i + 1, line);
      var lexed := Lex(source, i, line);
      assert lexed == [Token(CharKind(source[i]).value, [source[i]], None, line)] + rest;
      forall j | i <= j < |source|
        ensures lexed[j - i] == Token(CharKind(source[j]).value, [source[j]], None, line)
      {
        if j > i {
          assert lexed[j - i] == rest[j - (i + 1)];
        }
      }
    }
  }

  /** The tokens of one character: its own token when it is recognised,
      nothing otherwise. */
  lemma LexChar(c: char, line: int32)
    ensures Lex([c], 0, line) == match CharKind(c)
      case Some(kind) => [Token(kind, [c], None, line)]
      case None => []
  {
    assert Lex([c], 1, line) == [];
  }

  /** The scan from index `i` depends only on the characters from `i` on. */
  lemma {:induction false} LexShift(s: string, i: nat, t: string, j: nat, line: int32)
    requires i <= |s| && j <= |t| && s[i..] == t[j..]
    ensures Lex(s, i, line) == Lex(t, j, line)
    decreases |s| - i
  {
    if i < |s| {
      assert s[i] == s[i..][0] == t[j..][0] == t[j];
      assert s[i + 1..] == s[i..][1..] == t[j..][1..] == t[j + 1..];
      LexShift(s, i + 1, t, j + 1, line);
    }
  }

  /** The scan of `a + b` from index `i` of `a`: the scan of the rest of
      `a`, then the scan of `b`. */
  lemma {:induction false} LexConcatFrom(a: string, b: string, i: nat, line: int32)
    requires i <= |a|
    ensures Lex(a + b, i, line) == Lex(a, i, line) + Lex(b, 0, line)
    decreases |a| - i
  {
    if i == |a| {
      LexShift(a + b, i, b, 0, line);
    } else {
      LexConcatFrom(a, b, i + 1, line);
      assert (a + b)[i] == a[i];
      var head := match CharKind(a[i])
        case Some(kind) => [Token(kind, [a[i]], None, line)]
        case None => [];
      Associative(head, Lex(a, i + 1, line), Lex(b, 0, line));
    }
  }

  /** The scan distributes over concatenation of sources. With `LexChar`
      this determines the scan of every source: each recognised character
      gives its token, in source order, and every other character is
      skipped. */
  lemma LexConcat(a: string, b: string, line: int32)
    ensures Lex(a + b, 0, line) == Lex(a, 0, line) + Lex(b, 0, line)
  {
    LexConcatFrom(a, b, 0, line);
  }

  /** For instance, `a(` scans to the one token of its `(`. */
  lemma LexMixed()
    ensures Lex("a(", 0, 1) == [Token(LeftParen, "(", None, 1)]
  {
    LexConcat("a", "(", 1);
    LexChar('a', 1);
    LexChar('(', 1);
    assert "a" + "(" == "a(";
  }

  /** The number of bytes of `c`'s UTF-8 encoding. */
  function Utf8Length(c: char): (n: nat)
    ensures 1 <= n <= 4
    ensures n == 1 <==> (c as int) < 0x80
  {
    if (c as int) < 0x80 then 1
    else if (c as int) < 0x800 then 2
    else if (c as int) < 0x1_0000 then 3
    else 4
  }

  /** Every character of `s` is ASCII. */
  predicate Ascii(s: string)
  {
    forall k :: 0 <= k < |s| ==> (s[k] as int) < 0x80
  }

  /** `String::len`: the length of the UTF-8 encoding of `s`, in bytes. It
      equals the number of characters exactly for ASCII text. */
  function ByteLength(s: string): (n: nat)
    ensures n >= |s|
    ensures n == |s| <==> Ascii(s)
  {
    if |s| == 0 then 0
    else
      assert forall k :: 0 < k < |s| ==> s[1..][k - 1] == s[k];
      Utf8Length(s[0]) + ByteLength(s[1..])
  }

  /** The loop of `scan_tokens` as written, from index `i`: `is_at_end`
      compares the index with the byte length of the source, while
      `advance` takes the `i`-th character. `None` is the panic of the
      `expect` in `advance` when the index has passed the last character
      but bytes remain. `get_token` slices at the same index, which is a
      byte index in Rust; only where a non-ASCII character comes earlier do
      the two differ, and then the run ends in that panic (or an earlier
      slicing panic) anyway, so no such lexeme is ever returned. */
  function LexAsWritten(source: string, i: nat, line: int32): Option<seq<Token>>
    decreases ByteLength(source) - i
  {
    if i >= ByteLength(source) then Some([])
    else if i >= |source| then None
    else
      match LexAsWritten(source, i + 1, line)
      case None => None
      case Some(rest) =>
        Some((match CharKind(source[i])
              case Some(kind) => [Token(kind, [source[i]], None, line)]
              case None => []) + rest)
  }

  /** As written, the scan panics on every source that holds a non-ASCII
      character, and on ASCII text it gives exactly the reference scan. */
  lemma {:induction false} LexAsWrittenSpec(source: string, i: nat, line: int32)
    requires i <= |source|
    ensures LexAsWritten(source, i, line).None? <==> !Ascii(source)
    ensures LexAsWritten(source, i, line).Some? ==> LexAsWritten(source, i, line).value == Lex(source, i, line)
    decreases |source| - i
  {
    if i < |source| {
      LexAsWrittenSpec(source, i + 1, line);
    }
  }

  /** A lone `é` (one character, two bytes) already panics, and so does
      `(é`, although its `(` alone would scan. */
  lemma NonAsciiPanics()
    ensures LexAsWritten("é", 0, 1).None?
    ensures LexAsWritten("(é", 0, 1).None?
  {
    assert !Ascii("é") by { assert ("é"[0] as int) >= 0x80; }
    assert !Ascii("(é") by { assert ("(é"[1] as int) >= 0x80; }
    LexAsWrittenSpec("é", 0, 1);
    LexAsWrittenSpec("(é", 0, 1);
  }

  /** The `Eof` token appended after the loop. */
  const EofToken: Token := Token(Eof, "", None, 0)

  /** The loop of `scan_tokens`: scan until the end, then push `Eof`. The
      Rust function then reaches `todo!()` and panics instead of returning;
      the model returns the scanner holding the vector it built. */
  method ScanTokens(s0: Scanner) returns (s: Scanner)
    ensures s.tokens == s0.tokens + Lex(s0.source, s0.current, s0.line) + [EofToken]
    ensures s.source == s0.source && s.line == s0.line
    ensures IsAtEnd(s) && s.current == if s0.current >= |s0.source| then s0.current else |s0.source|
  {
    s := s0;
    while !IsAtEnd(s)
      invariant s.source == s0.source && s.line == s0.line
      invariant s0.current <= s.current <= |s.source| || (s.current == s0.current && IsAtEnd(s))
      invariant s.tokens + Lex(s.source, s.current, s.line) == s0.tokens + Lex(s0.source, s0.current, s0.line)
      decreases |s.source| - s.current
    {
      s := s.(start := s.current);
      var (s', token) := ScanToken(s);
      ScanTokenSpec(s);
      s := s';
      if token.Some? {
        s := s.(tokens := s.tokens + [token.value]);
      }
    }
    s := s.(tokens := s.tokens + [EofToken]);
  }

  /** `scan_tokens` on a new scanner: the tokens of the source in order,
      then one `Eof`; the line stays 1 throughout. */
  method ScanSource(source: string) returns (tokens: seq<Token>)
    ensures |tokens| >= 1 && tokens[|tokens| - 1] == EofToken
    ensures tokens[..|tokens| - 1] == Lex(source, 0, 1)
    ensures forall t :: t in tokens[..|tokens| - 1] ==> t.line == 1 && |t.lexeme| == 1 && t.literal.None?
  {
    var s := ScanTokens(New(source));
    tokens := s.tokens;
    assert tokens == Lex(source, 0, 1) + [EofToken];
    assert tokens[..|tokens| - 1] == Lex(source, 0, 1);
    LexSpec(source, 0, 1);
  }
}
