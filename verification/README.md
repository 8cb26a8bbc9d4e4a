# Lox front end and unsafe linked lists, modelled in Dafny

This project models two parts of a Rust learning repository.

- The first is the front end of a Lox interpreter (`lox/src`):
  - the token vocabulary;
  - the single-character scanner draft;
  - the recursive-descent expression parser, with its error values and
    panic-mode `synchronize`;
  - the scope chain of variables;
  - the part of the evaluator that exists: literals and groupings.
- The second is two raw-pointer linked lists from `lists/src`:
  - a doubly linked list used as a stack through `push_front` and
    `pop_front`, with a borrowing iterator;
  - a singly linked FIFO queue with a tail pointer.

Everything is a pure function over immutable datatypes, or a method
whose loop drives such functions (`Scanning.ScanTokens`,
`Scanning.ScanSource`, `UnsafeDll.Collect`, `UnsafeQueue.Collect`,
`UnsafeQueue.Drain`). A `&mut self` method becomes a function that
returns the new state with its result. This holds on the error path as
well, so a parser that fails still reports where
its cursor stopped. Heap nodes become a sequence of records in chain order.
Each record carries its address and its link fields. Dereferencing is a
lookup by address, and an allocation takes a counter's next value. The
link invariants (`UnsafeDll.Valid`, `UnsafeQueue.Valid`) say what the raw
pointers must satisfy. Every operation is proved to keep them and to act on
the abstract contents as a stack or a queue.

Files:

- `wrappers.dfy`: `Option` and `Result`.
- `token.dfy`: `Tokens`.
- `expr.dfy`: `Syntax`.
- `scanner.dfy`: `Scanning`.
- `parser.dfy`: `Parsing`.
- `parser_properties.dfy`: `ParserProperties`. This file holds the parse
  round trip against an independent unparser, and precedence and error
  cases.
- `environment.dfy`: `Environments` and `EnvironmentProperties`.
- `interpreter.dfy`: `Interpreting`.
- `heap.dfy`: `Heap`, addresses and lookup by address.
- `sequences.dfy`: `Sequences`, two sequence lemmas.
- `unsafe_dll.dfy`: `UnsafeDll`.
- `unsafe_queue.dfy`: `UnsafeQueue`.

## Model

| member | source | states |
|---|---|---|
| Tokens.NewToken | lox/src/token.rs:49-73 | the accessors of a new token return exactly the type, lexeme, literal and line it was built from |
| Tokens.LiteralOfKind | lox/src/token.rs:12-27 | `True` and `False` become their literals, every other kind falls back to `Nil`, and no kind yields a number or a string |
| Tokens.Show | lox/src/token.rs:29-39 | a string literal displays as its text, and `true`, `false`, `nil` as those words |
| Tokens.ShowKindLiteral | lox/src/token.rs:12-39 | converting a kind to a literal and displaying it gives `true` or `false` for those keywords and `nil` for anything else |
| Scanning.New | lox/src/scanner.rs:13-21 | a new scanner holds the source, no tokens, both cursors at 0 and line 1 |
| Scanning.Advance | lox/src/scanner.rs:60-69 | `advance` returns the character under the cursor and moves the cursor by exactly one |
| Scanning.CharKindSpec | lox/src/scanner.rs:38-53 | exactly the ten characters `( ) { } , . - + ; *` are recognised, each to a kind of its own |
| Scanning.GetToken | lox/src/scanner.rs:55-58 | the token's lexeme is the source window from start to current; its kind, literal and line are the given ones |
| Scanning.ScanTokenSpec | lox/src/scanner.rs:38-53 | one step consumes exactly one character, and yields a token exactly when that character is recognised; the token is that one character |
| Scanning.LexSpec | lox/src/scanner.rs:23-30 | every scanned token is one recognised source character of its own kind, with no literal and the scanner's line; there are never more tokens than characters |
| Scanning.LexChar | lox/src/scanner.rs:38-53 | one character scans to its own token when it is recognised and to nothing otherwise |
| Scanning.LexConcat | lox/src/scanner.rs:23-30 | the scan of two sources joined is the scan of the first followed by the scan of the second; with `LexChar` this says every recognised character of any source gives its token, in source order, and every other character is skipped |
| Scanning.LexMixed | lox/src/scanner.rs:23-53 | `a(` scans to the single `(` token: the unrecognised `a` is skipped |
| Scanning.LexAllRecognised | lox/src/scanner.rs:23-53 | a source made only of recognised characters yields one token per character, in order |
| Scanning.ScanTokens | lox/src/scanner.rs:23-34 | the loop appends the reference scan of the rest of the source and then one `Eof`, and stops at the end of the source |
| Scanning.ScanSource | lox/src/scanner.rs:13-34 | scanning a new source yields its tokens in order, each on line 1, followed by exactly one `Eof` on line 0 |
| Scanning.LexAsWrittenSpec | lox/src/scanner.rs:23-30 | as written, the loop (end test on the byte length) panics exactly on sources with a non-ASCII character, and otherwise equals the reference scan |
| Scanning.NonAsciiPanics | lox/src/scanner.rs:60-73 | as written, `é` and `(é` make `advance` panic |
| Parsing.New | lox/src/parser.rs:35-37 | a new parser holds the tokens with the cursor at 0 |
| Parsing.Peek | lox/src/parser.rs:176-180 | `peek` succeeds exactly inside the vector with the token under the cursor, and otherwise fails with `OutOfBounds` of the cursor |
| Parsing.Previous | lox/src/parser.rs:182-186 | `previous` succeeds exactly when `0 < current <= len` with the token before the cursor, and otherwise fails with `OutOfBounds(current - 1)` |
| Parsing.MatchTypes | lox/src/parser.rs:142-158 | `match_types` consumes one token exactly when the token under the cursor is not `Eof` and has one of the kinds; otherwise nothing moves |
| Parsing.Consume | lox/src/parser.rs:188-201 | `consume` succeeds exactly on the expected kind (never `Eof`) and moves past it; otherwise the cursor stays and the error is `MismatchedToken` with the found token's line and kind, or `OutOfBounds` outside the vector |
| Parsing.LevelOf | lox/src/parser.rs:47-103 | each operator kind belongs to exactly one of equality, comparison, term and factor |
| Parsing.Parse | lox/src/parser.rs:39-45 | the cursor only moves forward and never past the first `Eof`, and every tree returned respects precedence (it is well formed at the loosest level) |
| Parsing.BinaryLevel | lox/src/parser.rs:47-103 | a binary level never moves the cursor backwards or past `Eof`, and returns only trees whose operators bind at least as tightly as the level |
| Parsing.LevelLoop | lox/src/parser.rs:50-58 | the operator loop keeps every tree it folds well formed for its level, and only moves forward |
| Parsing.Unary | lox/src/parser.rs:105-109 | `unary` only moves forward and returns only literals and groupings |
| Parsing.Primary | lox/src/parser.rs:111-139 | `primary` only moves forward and returns only literals and groupings |
| Parsing.Group | lox/src/parser.rs:126-133 | after a `(`, the result is a grouping of a well-formed tree |
| Parsing.SyncLoopSpec | lox/src/parser.rs:205-225 | the loop stops at the first statement boundary (after `;` or before a statement keyword), skipping only non-boundaries, and fails with `SyncBoundaryNotFound` exactly at the end; its only other failure is `previous` at cursor 0 |
| Parsing.SynchronizeSpec | lox/src/parser.rs:203-226 | after one advance, `synchronize` stops at the next boundary, and fails, only ever with `SyncBoundaryNotFound`, exactly when it reaches the end |
| ParserProperties.AdvanceSpec | lox/src/parser.rs:160-165 | `advance` moves by one unless at the end; its `previous().unwrap()` fails exactly when the cursor is 0 and could not move |
| ParserProperties.CheckSpec | lox/src/parser.rs:152-158 | `check` holds exactly for the kind under the cursor, never for `Eof` and never outside the vector |
| ParserProperties.MatchHit | lox/src/parser.rs:142-150 | a listed, non-`Eof` kind under the cursor is consumed |
| ParserProperties.MatchMiss | lox/src/parser.rs:142-150 | an unlisted kind leaves the parser unchanged |
| ParserProperties.UnaryWithPrefix | lox/src/parser.rs:105-109 | a leading `!` or `-` is consumed and the rest goes to `primary` |
| ParserProperties.UnaryWithoutPrefix | lox/src/parser.rs:105-109 | without such an operator, `unary` is `primary` |
| ParserProperties.PrimaryOfKeyword | lox/src/parser.rs:112-115 | `true`, `false` and `nil` parse to the literal converted from their kind, consuming one token |
| ParserProperties.PrimaryOfConstant | lox/src/parser.rs:117-124 | a number or string token parses to the literal it carries, or fails with `EmptyLiteral` of that token when it carries none; the token is consumed either way |
| ParserProperties.PrimaryOfLiteral | lox/src/parser.rs:111-124 | the canonical token of any literal parses back to that literal |
| ParserProperties.PrimaryOfLeftParen | lox/src/parser.rs:126-133 | a `(` is consumed and the group after it is parsed |
| ParserProperties.PrimaryRejects | lox/src/parser.rs:135-138 | any other token, `Eof` included, is an `UnexpectedToken` at the cursor, which stays put |
| ParserProperties.PrimaryOutOfBounds | lox/src/parser.rs:135-138 | outside the vector, `primary` fails with the `OutOfBounds` of `peek` |
| ParserProperties.GroupCloses | lox/src/parser.rs:126-133 | an expression followed by `)` becomes a grouping, and the `)` is consumed |
| ParserProperties.GroupUnclosed | lox/src/parser.rs:127-131 | an expression followed by another token is a `MismatchedToken` naming `)` and the token found |
| ParserProperties.LoopStops | lox/src/parser.rs:50-58 | the operator loop returns what it has at a token that is not one of its operators |
| ParserProperties.LoopTakesOperator | lox/src/parser.rs:50-56 | at one of its operators the loop folds the left tree, that operator and the right operand into a node, and continues |
| ParserProperties.LoopEntersStep | lox/src/parser.rs:50-52 | at one of its operators the loop consumes it |
| ParserProperties.StepTakesOperand | lox/src/parser.rs:52-55 | the node takes the operator consumed just before as its operator |
| ParserProperties.LevelAfterOperand | lox/src/parser.rs:47-48 | a level starts its loop with its operand's tree |
| ParserProperties.LevelOperandFails | lox/src/parser.rs:47-48 | a level whose operand failed fails the same way (the `?`) |
| ParserProperties.LevelParses | lox/src/parser.rs:47-103 | a level parses the spelling of any tree it can build, followed by a token that ends the level, into exactly that tree |
| ParserProperties.ParseUnparse | lox/src/parser.rs:39-139 | parsing the unparsed form of any well-formed tree, followed by a non-operator token, returns the tree and stops at that token |
| ParserProperties.ParseUnparseEof | lox/src/parser.rs:39-139 | the same round trip for a token stream ending in the scanner's `Eof` |
| ParserProperties.ThreeOperands | lox/src/parser.rs:47-103 | in `x op1 y op2 z`, `op2` takes `y` exactly when it binds more tightly than `op1`; otherwise the operators associate to the left |
| ParserProperties.LevelOfUnary | lox/src/parser.rs:43-109 | when `unary`'s outcome is followed by a non-operator token, or is an error, every level passes it up unchanged |
| ParserProperties.UnaryDropsOperator | lox/src/parser.rs:105-109 | for every tree `x` the parser can build, `-x` and `!x` parse to the same tree as `x`: the prefix operator is discarded, so `-1 + 2` parses as `1 + 2` |
| ParserProperties.SameUnarySameLevel | lox/src/parser.rs:43-109 | every level's outcome depends on where it starts only through what `unary` makes of that start |
| ParserProperties.DoublePrefixRejected | lox/src/parser.rs:105-138 | a second prefix operator reaches `primary` and is an `UnexpectedToken` at index 1 |
| ParserProperties.MissingRightParen | lox/src/parser.rs:126-131 | an unclosed group is a `MismatchedToken` that expects `)`, reports the found token's line and kind, and leaves the cursor on it |
| ParserProperties.NothingToParse | lox/src/parser.rs:135-138 | an empty stream fails with `OutOfBounds(0)` |
| ParserProperties.NothingBeforeEof | lox/src/parser.rs:135-138 | a stream that starts with `Eof` fails with `UnexpectedToken` of that `Eof` at 0 |
| ParserProperties.SynchronizePanicsAtStart | lox/src/parser.rs:203-204 | as written, `synchronize` panics at cursor 0 on `[Eof]` and on `[]`; the corrected version reports `SyncBoundaryNotFound` |
| ParserProperties.SynchronizeAsWrittenAgrees | lox/src/parser.rs:160-165 | the panic happens exactly at cursor 0 at the end; everywhere else the two versions agree |
| Environments.New | lox/src/environment.rs:22-27 | a new environment is one empty scope in front of the enclosing chain, if any |
| Environments.Define | lox/src/environment.rs:43-45 | `define` binds the name in the innermost scope only, replacing any binding there |
| Environments.Get | lox/src/environment.rs:47-58 | `get` returns the binding of the innermost scope that has the name, or `UndefinedVariable` of the name when no scope has it |
| Environments.Assign | lox/src/environment.rs:29-41 | `assign` rewrites the binding in the innermost scope that has the name and no other; with no such scope it fails with `UndefinedVariable` |
| EnvironmentProperties.DefineThenGet | lox/src/environment.rs:43-58 | after `define(n, v)`, `get(n)` is `v`, and every other name resolves as before |
| EnvironmentProperties.GetShadows | lox/src/environment.rs:47-51 | a binding in the innermost scope hides every outer binding of the name |
| EnvironmentProperties.GetFallsThrough | lox/src/environment.rs:53-57 | a name the innermost scope lacks is looked up in the enclosing scope, or is undefined without one |
| EnvironmentProperties.GetFailsIffUnbound | lox/src/environment.rs:47-58 | `get` fails exactly when no scope binds the name, and then names it |
| EnvironmentProperties.AssignSpec | lox/src/environment.rs:29-41 | `assign` fails exactly for unbound names; otherwise the name reads back as the new value, other names read as before, and no name becomes bound or unbound |
| EnvironmentProperties.AssignKeepsKeys | lox/src/environment.rs:29-38 | a successful `assign` changes one binding of one scope and keeps every scope's set of names |
| EnvironmentProperties.NewChildSpec | lox/src/environment.rs:22-27 | a child of `e` looks names up as `e` does, and an assignment through it lands in its copy of `e` |
| Interpreting.FromLiteral | lox/src/interpreter.rs:18-28 | each literal becomes the value of the same shape and payload: numbers, strings, `true`/`false` as booleans, `nil` |
| Interpreting.LiteralValueBijection | lox/src/interpreter.rs:11-28 | literals and values correspond one to one, so the conversion loses nothing |
| Interpreting.EvaluateSpec | lox/src/interpreter.rs:33-51 | evaluation succeeds exactly on literals inside any number of groupings, giving the literal's value; the other arms panic |
| Interpreting.EvaluateGroupedLiteral | lox/src/interpreter.rs:37-47 | any nesting of groupings around a literal evaluates to its value |
| UnsafeDll.New | lists/src/unsafe_dll.rs:21-28 | a new list is valid, empty and of length 0 |
| UnsafeDll.PushFront | lists/src/unsafe_dll.rs:30-52 | `push_front` keeps the links valid, puts the element in front of the contents and adds one to the length |
| UnsafeDll.PushFrontLinks | lists/src/unsafe_dll.rs:38-49 | relinking the old front to a fresh node gives a chain whose elements are the new one followed by the old, with the same back |
| UnsafeDll.PopFront | lists/src/unsafe_dll.rs:53-75 | `pop_front` returns `None` exactly on an empty list and leaves it unchanged; otherwise it returns the first element, keeps the links valid, and the rest is the remaining contents with length one less |
| UnsafeDll.PopFrontValid | lists/src/unsafe_dll.rs:58-71 | unlinking the front node and clearing the new front's `front` link leaves a valid list of the remaining elements |
| UnsafeDll.Len | lists/src/unsafe_dll.rs:77-79 | on a valid list, the stored length is the number of elements |
| UnsafeDll.Front | lists/src/unsafe_dll.rs:81-85 | `front` is the first element, or `None` on an empty list |
| UnsafeDll.FrontMut | lists/src/unsafe_dll.rs:87-89 | writing through `front_mut` replaces the first element and nothing else; on an empty list there is nothing to write |
| UnsafeDll.Iterate | lists/src/unsafe_dll.rs:90-97 | a new iterator has the whole contents still to yield |
| UnsafeDll.Next | lists/src/unsafe_dll.rs:121-128 | `next` yields the first element not yet yielded, or `None` exactly when none is left, and then changes nothing |
| UnsafeDll.SizeHint | lists/src/unsafe_dll.rs:130-132 | the size hint is exact: both bounds are the number of elements still to yield |
| UnsafeDll.Collect | lists/src/unsafe_dll.rs:118-143 | iterating a list to exhaustion yields its contents in order |
| UnsafeDll.PopAfterPush | lists/src/unsafe_dll.rs:30-75 | `pop_front` after `push_front(x)` returns `x` and restores the contents and the length |
| UnsafeQueue.New | lists/src/unsafe_queue.rs:22-27 | a new queue is valid and empty, with null head and tail |
| UnsafeQueue.Push | lists/src/unsafe_queue.rs:29-44 | `push` keeps the links valid and appends the element at the back; a non-null head is untouched |
| UnsafeQueue.PushLinks | lists/src/unsafe_queue.rs:31-42 | linking a fresh node after the tail gives a chain whose elements are the old ones followed by the new one, which is the new tail |
| UnsafeQueue.Pop | lists/src/unsafe_queue.rs:46-62 | `pop` returns `None` exactly on an empty queue and changes nothing; otherwise it returns the oldest element and keeps the rest; head and tail are null together |
| UnsafeQueue.PopValid | lists/src/unsafe_queue.rs:52-57 | freeing the head and moving the head pointer on leaves a valid queue of the remaining elements |
| UnsafeQueue.Peek | lists/src/unsafe_queue.rs:71-73 | `peek` is the oldest element, or `None` on an empty queue |
| UnsafeQueue.Iterate | lists/src/unsafe_queue.rs:63-69 | a new iterator has the whole contents still to yield |
| UnsafeQueue.Next | lists/src/unsafe_queue.rs:89-96 | `next` yields the first element not yet yielded, or `None` exactly when none is left, and then changes nothing |
| UnsafeQueue.NextStep | lists/src/unsafe_queue.rs:91-94 | following a node's `next` pointer moves the iterator to the following position in the chain |
| UnsafeQueue.Collect | lists/src/unsafe_queue.rs:86-96 | iterating a queue to exhaustion yields its contents in order |
| UnsafeQueue.Drain | lists/src/unsafe_queue.rs:80-84 | popping until `None` yields every element in order and leaves an empty queue with null head and tail |
| UnsafeQueue.DrainStep | lists/src/unsafe_queue.rs:81-82 | each pop of the drain moves the oldest element to the end of what was drained and shrinks the queue, or finds it empty |
| UnsafeQueue.PushThenPop | lists/src/unsafe_queue.rs:29-62 | first in, first out: on an empty queue `push(x)` then `pop` gives `x` back; otherwise `pop` is unaffected by the push and `x` stays at the back |
| UnsafeQueue.PopsFirst | lists/src/unsafe_queue.rs:46-62 | on a queue holding `x` then `rest`, `pop` returns `x` and leaves `rest` |
| UnsafeQueue.Basics | lists/src/unsafe_queue.rs:108-121 | `pop` on a new queue is `None`; after pushing 1, 2, 3, pops return 1 then 2 and leave 3 |

## Left out

- `lox/src/main.rs`, the reading of files and the prompt: this is I/O.
- The `Display` of `Literal::Number` and of `Token`: formatting of `f64`
  is not modelled. A number's payload is kept as its 64-bit pattern and
  nothing inspects it.
- Tokens.Show: it requires a non-number literal, because the `f64`
  formatting is not modelled.
- `Scanner::new`'s UTF-8 decoding of the byte slice, and its panic on
  invalid UTF-8: the model starts from a `string`.
- Scanning.Advance: it requires a character under the cursor. Past the
  last character the source's `expect` panics, and the scan loop never
  calls it there.
- The `todo!()` that ends `scan_tokens`: there the Rust function panics
  after pushing `Eof`. Scanning.ScanTokens returns the scanner holding
  the vector it built, which is what the function is evidently meant to
  return.
- The scanner's private copies of `Token`, `TokenType` and `Literal` are
  identified with those of `lox/src/token.rs`. The scanner only uses
  kinds they share.
- `lox/src/expr.rs` lists four variants; `lox/src/interpreter.rs`
  matches a fifth, `Condition`. The model's `Expr` has all five. The
  parser never builds `Unary` or `Condition` nodes, and the unparser is
  stated only for trees the parser builds.
- The integer widths: the parser's cursor is an `i32` and the lists'
  lengths are `usize`. The model uses unbounded integers, so overflow at
  2^31 tokens or 2^64 nodes is not modelled. Line numbers are a 32-bit
  type, but nothing computes with them.
- The `eprintln!` diagnostic that `From<&TokenType> for Literal` prints
  on an unexpected kind: this is I/O. The returned `Nil` is modelled.
- The `Binary`, `Unary` and `Condition` arms of `visit_expr` are
  `todo!()`. They are modelled as the panic (`None`), not as evaluation.
- `Environment` is cloned into its child by `new`: the model's
  environments are values, so the copy is implicit.
- `peek_mut` of the queue: its body is `todo!()`.
- The `Drop` implementations: the queue's is modelled as
  UnsafeQueue.Drain. The linked list's repeats `pop_front` the same way, and
  PopFront's contract covers every step of it.
- Raw pointers, `NonNull`, `Box::into_raw`/`from_raw`, `PhantomData` and
  lifetimes: pointers are addresses into a sequence of node records, and
  allocation takes the next value of a counter. No address is ever
  reused, which is stronger than what the allocator guarantees but makes
  no difference to any reachable node.
- `IntoIterator for &LinkedList`: it is `iter`.
- The `miri_food` test of the queue and the linked list's `test_basic_front`:
  they repeat the properties of UnsafeQueue.PushThenPop,
  UnsafeQueue.Peek, UnsafeQueue.Next and UnsafeDll.PopAfterPush on
  concrete values.

## Findings

| source | as written | input that shows it | evidently intended | confidence | as-written member | corrected member |
|---|---|---|---|---|---|---|
| lox/src/parser.rs:160-165, lox/src/parser.rs:203-204 | `synchronize` first calls `advance`, which returns `previous().unwrap()`; at cursor 0 on a stream that is empty or starts with `Eof`, the cursor cannot move and `previous` is out of bounds, so it panics | `synchronize` on a new parser over `[Eof]` (or `[]`) | report `SyncBoundaryNotFound`, as it does at the end everywhere else | not executed | Parsing.SynchronizeAsWritten, ParserProperties.SynchronizePanicsAtStart | Parsing.Synchronize, Parsing.SynchronizeSpec |
| lox/src/scanner.rs:60-73 | `is_at_end` compares the cursor with `source.len()`, a byte count, while `advance` takes the cursor-th character; on text with a non-ASCII character the loop runs past the last character and the `expect` panics | `é` (one character, two bytes), or `(é` | stop after the last character, whatever its encoding | not executed | Scanning.LexAsWritten, Scanning.LexAsWrittenSpec, Scanning.NonAsciiPanics | Scanning.IsAtEnd, Scanning.ScanTokens |
