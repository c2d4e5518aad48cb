# kyber refactoring scripts and editor input, in Dafny

kyber suggests refactorings to an editor. A refactoring is a small script,
for example `let x = find("foo" .. name:(/\w+/)); x.replace(x.name);`. Running
one takes four steps:

1. The script text is tokenised (`cli/src/refactorings/parser/lex.rs`).
2. The tokens are parsed into top-level items, statements and expressions
   by a recursive-descent parser over a token queue
   (`cli/src/refactorings/parser/mod.rs`).
3. The script is evaluated against the editor's buffer
   (`cli/src/refactorings/script.rs`). The buffer is a list of regions, one
   of which may be flagged as the selection. `find(pattern)` scans the
   buffer for a match of the pattern that covers the selection.
   `range.replace(text)` turns "replace this range" into cursor-relative
   commands: some deletes, some backspaces, then typing the text.
4. The script's result is that list of commands.

The GUI contributes two stateful pieces:

- a key-chord recogniser (`gui/src/keyboard_control.rs`). It collects typed
  text and named keys in a history string and turns its front into the
  action of a key sequence from a keymap, skipping input that can never
  match;
- a text cursor (`gui/src/cursor.rs`). It is a (row, column) pair moved by
  arrow keys and mapped to a byte offset clamped to the line it lands on.

The model is organised as follows.

- `basics.dfy`: bytes, `Option`, `Result` and half-open spans.
- `lexer.dfy`: the token rules as functions. `Lex` is the imperative
  tokeniser loop, proved equal to `Tokenize`.
- `ast.dfy`: the syntax tree.
- `grammar.dfy`: the grammar as a functional reference parser over token
  sequences.
- `parser.dfy`: the source's imperative parser. It works over a mutable
  `TokenQueue` class with push-back, and every parse method is proved to
  agree with the reference parser, both on the result and on the tokens
  left in the queue.
- `grammar_facts.dfy`: properties of the grammar.
- `printer.dfy`: a printer from syntax trees to tokens, with a round trip
  through the parser and, for lexable tokens, through the lexer.
- `matcher.dfy`: `range`, which says where a pattern matches.
- `edits.dfy`: the selection, `overlaps` and `delete_range`, plus a small
  editor that the commands are replayed on. It proves that the commands
  really replace the range.
- `script.dfy`: `eval`, `find`, `exec`, `perform` and `directive_value`.
- `keyboard.dfy`: the `KeyboardControl` class.
- `cursor.dfy`: the `Cursor` class and the free `byte_pos` function.

Behaviour of the code that the model keeps, though it may surprise a reader:

- `find(x).replace(y)` is not a valid expression. A method call ends a dot
  chain, and a method call cannot start one.
- `a.m().c;` fails to parse. The `.c` after the call is left over where the
  `;` is required.
- `take_until` accepts a separator right before the terminal (`{ a, }`).
- Directives are parsed and kept but never checked.
- The `for` and `in` tokens exist in the parser, but the lexer never produces
  them. `for` loops are therefore reachable only from tokens, and the
  evaluator does not support them.
- On the cursor, a `\r` before a `\n` counts as a byte of its line.

## Model

| member | source | states |
|---|---|---|
| Lexer.IdentLen | cli/src/refactorings/parser/lex.rs:40 | the identifier rule takes the longest run of letters, digits and `_`: every byte it takes is one, and the byte after it is not |
| Lexer.IndexOf | cli/src/refactorings/parser/lex.rs:55-58 | the closing quote or slash of a literal is the first occurrence of that byte, or there is none |
| Lexer.Word | cli/src/refactorings/parser/lex.rs:23-41 | a word lexes to the token that prints back as that word, and to an identifier exactly when it is not one of the keywords `import`, `from`, `let` |
| Lexer.Punctuation | cli/src/refactorings/parser/lex.rs:30-63 | exactly the nine characters `{ } ( ) , ; : @ =` are single-character tokens, each printing back as that character |
| Lexer.TokenRules | cli/src/refactorings/parser/lex.rs:17-64 | on input that starts with no blank, the token rules either emit a token of positive length within the input or fail at its first byte; they never report the end of input |
| Lexer.NextToken | cli/src/refactorings/parser/lex.rs:17-64 | one step of the lexer emits a token of positive length within the input, or fails at a position inside it |
| Lexer.Tokenize | cli/src/refactorings/parser/lex.rs:6-15 | lexing until the input ends or the first error fails only at a position inside the input |
| Lexer.Lex | cli/src/refactorings/parser/lex.rs:6-15 | the imperative lexing loop returns exactly what `Tokenize` specifies |
| Lexer.TokenizeSkipsSpace | cli/src/refactorings/parser/lex.rs:20 | a blank (space, tab, newline, form feed) produces no token and is skipped |
| Lexer.TokenizeBlank | cli/src/refactorings/parser/lex.rs:20 | blank input lexes to no tokens |
| Lexer.CarriageReturnIsError | cli/src/refactorings/parser/lex.rs:19-21 | a carriage return is not a blank and is a lexing error at its position |
| Lexer.NextTokenPrefix | cli/src/refactorings/parser/lex.rs:17-64 | a token depends only on its own bytes: cutting the input after the token does not change it |
| Lexer.TokenizeErrorIsFirst | cli/src/refactorings/parser/lex.rs:6-15 | a lexing error is reported at the first place where no rule applies, and everything before it lexes |
| Lexer.FailAfterBlank | cli/src/refactorings/parser/lex.rs:19-21 | a failing step skips blanks only, then fails right at the next byte |
| Lexer.NextTokenSpelling | cli/src/refactorings/parser/lex.rs:23-64 | every token the lexer can produce is read back from its spelling followed by a blank |
| Lexer.WordSpelling | cli/src/refactorings/parser/lex.rs:23-41 | a word is read back as its keyword or identifier |
| Lexer.TokenizeRender | cli/src/refactorings/parser/lex.rs:6-64 | rendering lexable tokens with blanks between them and lexing the text gives the same tokens |
| Parser.TokenQueue.constructor | cli/src/refactorings/parser/mod.rs:10-18 | the queue holds the lexed tokens in order |
| Parser.TokenQueue.Get | cli/src/refactorings/parser/mod.rs:141-163 | lookahead `get(i)` sees the `i`-th queued token, and nothing past the end |
| Parser.TokenQueue.PopFront | cli/src/refactorings/parser/mod.rs:238-252 | popping returns the front token, if any, and removes exactly it |
| Parser.TokenQueue.PushFront | cli/src/refactorings/parser/mod.rs:76-78 | push-back puts a token back in front of the queue |
| Parser.Take | cli/src/refactorings/parser/mod.rs:238-247 | `take` consumes the expected token, or fails naming the expected and the found token (or end of input) |
| Parser.TakeAny | cli/src/refactorings/parser/mod.rs:249-252 | `take_any` returns and removes the front token, and fails on an empty queue |
| Parser.TryTake | cli/src/refactorings/parser/mod.rs:278-286 | `try_take` pops the front token exactly when it equals the expected one, and otherwise leaves the queue unchanged |
| Parser.TakeIdent | cli/src/refactorings/parser/mod.rs:288-294 | `take_ident` consumes an identifier and returns its name, or fails |
| Parser.TakeStringLit | cli/src/refactorings/parser/mod.rs:296-302 | `take_string_lit` consumes a string literal and returns its text, or fails |
| Parser.ParseExpr | cli/src/refactorings/parser/mod.rs:109-111 | `expr` gives the reference grammar's expression and leaves its remaining tokens |
| Parser.ParseConcat | cli/src/refactorings/parser/mod.rs:113-139 | the infix loop gives the reference grammar's left fold of `..` operands |
| Parser.ParseBinding | cli/src/refactorings/parser/mod.rs:141-151 | `binding_expr` (two-token lookahead) agrees with the reference grammar |
| Parser.ParseFn | cli/src/refactorings/parser/mod.rs:153-163 | `fn_expr` agrees with the reference grammar |
| Parser.ParseDotAccess | cli/src/refactorings/parser/mod.rs:165-181 | the dot-chain loop agrees with the reference grammar |
| Parser.ParseParen | cli/src/refactorings/parser/mod.rs:183-191 | `paren_expr` agrees with the reference grammar |
| Parser.ParseLeaf | cli/src/refactorings/parser/mod.rs:193-204 | `leaf_expr` agrees with the reference grammar, including the regex compile check |
| Parser.TakeArgs | cli/src/refactorings/parser/mod.rs:304-321 | `take_until(CloseParen, Comma, expr)` agrees with the reference list grammar |
| Parser.ParseStmt | cli/src/refactorings/parser/mod.rs:212-236 | `stmt` (`let`, `for` and expression statements) agrees with the reference grammar |
| Parser.ParseBody | cli/src/refactorings/parser/mod.rs:206-210 | `body` agrees with the reference grammar |
| Parser.TakeStmts | cli/src/refactorings/parser/mod.rs:304-321 | `take_until(CloseBrace, SemiColon, stmt)` agrees with the reference grammar |
| Parser.TakeIdents | cli/src/refactorings/parser/mod.rs:304-321 | `take_until(CloseBrace, Comma, take_ident)` agrees with the reference grammar |
| Parser.ParseImport | cli/src/refactorings/parser/mod.rs:88-98 | `import` agrees with the reference grammar |
| Parser.ParseDirective | cli/src/refactorings/parser/mod.rs:100-107 | `directive` agrees with the reference grammar |
| Parser.ParseTopLevel | cli/src/refactorings/parser/mod.rs:69-86 | `top_level` agrees with the reference grammar, including the `;` demanded by `requires_terminal` |
| Parser.Parse | cli/src/refactorings/parser/mod.rs:10-18 | `parse` (lex, then top-level items until the queue is empty) returns exactly the reference parse of the text |
| Grammar.Take | cli/src/refactorings/parser/mod.rs:238-247 | `take` succeeds exactly when the expected token is next, consumes one token, and otherwise reports the expected and the found token |
| Grammar.TakeIdent | cli/src/refactorings/parser/mod.rs:288-294 | succeeds exactly on an identifier, returning its name and consuming it |
| Grammar.TakeStringLit | cli/src/refactorings/parser/mod.rs:296-302 | succeeds exactly on a string literal, returning its text and consuming it |
| Grammar.ListStep | cli/src/refactorings/parser/mod.rs:304-321 | after a list item, exactly the separator or the terminal is accepted, and one token is consumed |
| Grammar.ParseExpr | cli/src/refactorings/parser/mod.rs:109-111 | a successful expression parse consumes at least one token |
| Grammar.ParseConcat | cli/src/refactorings/parser/mod.rs:113-139 | a successful concatenation parse consumes at least one token |
| Grammar.ConcatTail | cli/src/refactorings/parser/mod.rs:118-136 | the infix loop never gives back tokens |
| Grammar.ParseBinding | cli/src/refactorings/parser/mod.rs:141-151 | a successful binding parse consumes at least one token |
| Grammar.ParseFn | cli/src/refactorings/parser/mod.rs:153-163 | a successful `fn_expr` parse consumes at least one token |
| Grammar.ParseDotAccess | cli/src/refactorings/parser/mod.rs:165-181 | a successful dot-access parse consumes at least one token |
| Grammar.DotTail | cli/src/refactorings/parser/mod.rs:168-179 | the dot-chain loop never gives back tokens |
| Grammar.ParseParen | cli/src/refactorings/parser/mod.rs:183-191 | a successful atom parse consumes at least one token |
| Grammar.ParseLeaf | cli/src/refactorings/parser/mod.rs:193-204 | a leaf is exactly one token |
| Grammar.ParseArgs | cli/src/refactorings/parser/mod.rs:304-321 | a successful argument list consumes at least its terminal |
| Grammar.ParseStmt | cli/src/refactorings/parser/mod.rs:212-236 | a successful statement parse consumes at least one token |
| Grammar.ParseBody | cli/src/refactorings/parser/mod.rs:206-210 | a successful body parse consumes at least one token |
| Grammar.ParseStmts | cli/src/refactorings/parser/mod.rs:304-321 | a successful statement list consumes at least its terminal |
| Grammar.ParseIdents | cli/src/refactorings/parser/mod.rs:304-321 | a successful name list consumes at least its terminal |
| Grammar.ParseImport | cli/src/refactorings/parser/mod.rs:88-98 | a successful import parse consumes tokens |
| Grammar.ParseDirective | cli/src/refactorings/parser/mod.rs:100-107 | a successful directive parse consumes tokens |
| Grammar.ParseTopLevels | cli/src/refactorings/parser/mod.rs:13-16 | the `while let` loop of `parse` keeps the items parsed so far as a prefix, in order, and adds at least one exactly when tokens remain |
| Grammar.ParseTokens | cli/src/refactorings/parser/mod.rs:10-18 | a parse that succeeds gives the empty script exactly when there are no tokens |
| Grammar.ParseSource | cli/src/refactorings/parser/mod.rs:10-18 | a source parses only when it lexes, and it gives the empty script exactly when it has no tokens |
| Grammar.ParseTopLevel | cli/src/refactorings/parser/mod.rs:69-86 | no item is produced exactly when the tokens have run out, and an item consumes tokens |
| GrammarFacts.TerminalRequired | cli/src/refactorings/parser/mod.rs:60-86 | at top level an expression or `let` statement needs and consumes a `;`, and its absence is an error naming `;`; a `for` loop needs none |
| GrammarFacts.AtomIsFnExpr | cli/src/refactorings/parser/mod.rs:153-181 | an atom followed by no `.` is a whole `fn_expr` |
| GrammarFacts.FnExprIsExpr | cli/src/refactorings/parser/mod.rs:109-151 | a `fn_expr` that is neither a binding nor followed by `..` is a whole expression |
| GrammarFacts.ExprStmtParse | cli/src/refactorings/parser/mod.rs:212-236 | an expression not starting with `let` or `for` is an expression statement |
| GrammarFacts.AssignmentParse | cli/src/refactorings/parser/mod.rs:213-219 | `let name = value` is an assignment of the parsed value |
| GrammarFacts.ExprAtTopLevel | cli/src/refactorings/parser/mod.rs:69-86 | a top-level expression is a statement that needs its `;` |
| GrammarFacts.SoleTopLevel | cli/src/refactorings/parser/mod.rs:10-18 | tokens holding one item parse to the script of that item |
| GrammarFacts.ForLoopStmt | cli/src/refactorings/parser/mod.rs:221-230 | `for name in source { body }` is a for loop of the parsed source and body |
| GrammarFacts.CallWithoutSemicolon | cli/src/refactorings/parser/mod.rs:342-345 | the tokens of `foo()` are rejected for lack of a `;` |
| GrammarFacts.ForLoopWithoutSemicolon | cli/src/refactorings/parser/mod.rs:337-340 | the tokens of `for foo in bar() {}` parse without a `;` |
| GrammarFacts.IdentOperand | cli/src/refactorings/parser/mod.rs:141-204 | a lone identifier is one operand when nothing after it extends it |
| GrammarFacts.ConcatTailFolds | cli/src/refactorings/parser/mod.rs:118-136 | the infix loop folds any number of operands to the left |
| GrammarFacts.ConcatLeftAssoc | cli/src/refactorings/parser/mod.rs:113-139 | `a .. b .. c` and longer chains associate to the left |
| GrammarFacts.ConcatOfThree | cli/src/refactorings/parser/mod.rs:113-139 | `a .. b .. c` parses as `(a .. b) .. c` |
| GrammarFacts.BindingWrapsFnExpr | cli/src/refactorings/parser/mod.rs:141-151 | `name:` is a binding exactly when an identifier and a colon come next, and it wraps exactly one `fn_expr` |
| GrammarFacts.DotTailShape | cli/src/refactorings/parser/mod.rs:165-181 | the dot chain only adds field accesses and one final method call |
| GrammarFacts.FnExprIsNotConcat | cli/src/refactorings/parser/mod.rs:153-191 | without parentheses a `fn_expr` is never a concatenation or a binding |
| GrammarFacts.BindingInsideConcat | cli/src/refactorings/parser/mod.rs:113-151 | `a: b .. c` binds only `b` |
| GrammarFacts.FnCallOrDotAccess | cli/src/refactorings/parser/mod.rs:153-163 | `name (` starts a call whose arguments are the list up to `)`, and otherwise the dot chain is parsed |
| GrammarFacts.DotChain | cli/src/refactorings/parser/mod.rs:168-179 | each `.field` wraps the chain so far in a field access |
| GrammarFacts.MethodCallEndsChain | cli/src/refactorings/parser/mod.rs:171-176 | `.m(args)` makes a method call and ends the chain, leaving what follows |
| GrammarFacts.ChainedDotAccess | cli/src/refactorings/parser/mod.rs:327-330 | the tokens of `foo.bar.baz;`, for any three names, parse as two nested field accesses |
| GrammarFacts.MethodCallStatement | cli/src/refactorings/parser/mod.rs:332-335 | the tokens of `foo.bar();` parse as a method call statement |
| GrammarFacts.TakeUntilEmpty | cli/src/refactorings/parser/mod.rs:304-321 | for the `{ a, b }` name list of an import: the terminal straight away gives the empty list |
| GrammarFacts.TakeUntilStep | cli/src/refactorings/parser/mod.rs:304-321 | for the `{ a, b }` name list of an import: after an item the separator asks for another item and the terminal ends the list |
| GrammarFacts.TakeUntilItems | cli/src/refactorings/parser/mod.rs:304-321 | for the `{ a, b }` name list of an import: items separated and closed, with or without a trailing separator, give the items in order |
| GrammarFacts.TakeUntilMissingSeparator | cli/src/refactorings/parser/mod.rs:304-321 | for the `{ a, b }` name list of an import: an item followed by neither separator nor terminal is an error naming the terminal |
| GrammarFacts.TopLevelsStep | cli/src/refactorings/parser/mod.rs:10-18 | one turn of the `parse` loop: an error aborts, end of input stops, an item is appended |
| GrammarFacts.TopLevelsAcc | cli/src/refactorings/parser/mod.rs:10-18 | the items parsed so far are kept in front of the rest, and an error discards them |
| GrammarFacts.ParseTokensCons | cli/src/refactorings/parser/mod.rs:10-18 | the script is the first item followed by the script of the rest, any error aborts the parse, and no tokens give the empty script |
| Printer.ShowExpr | cli/src/refactorings/parser/mod.rs:46-58 | a printed expression is a single leaf token or a parenthesised group |
| Printer.ShowStmt | cli/src/refactorings/parser/mod.rs:39-44 | a printed statement never starts with a token that would end a body or start another kind of item |
| Printer.ShowTopLevel | cli/src/refactorings/parser/mod.rs:20-25 | a printed item is never empty |
| Printer.ParenAround | cli/src/refactorings/parser/mod.rs:183-191 | a parenthesised expression is an atom |
| Printer.AtomRoundTrip | cli/src/refactorings/parser/mod.rs:183-204 | any printed expression parses back as an atom, whatever follows it |
| Printer.BindingAtom | cli/src/refactorings/parser/mod.rs:141-151 | a printed binding parses back |
| Printer.DotAccessAtom | cli/src/refactorings/parser/mod.rs:165-181 | a printed field access parses back |
| Printer.FnCallAtom | cli/src/refactorings/parser/mod.rs:153-163 | a printed function call parses back |
| Printer.MethodCallAtom | cli/src/refactorings/parser/mod.rs:165-181 | a printed method call parses back |
| Printer.ConcatAtom | cli/src/refactorings/parser/mod.rs:113-139 | a printed concatenation parses back |
| Printer.BindingExpr | cli/src/refactorings/parser/mod.rs:141-151 | `name: fn_expr` is a whole expression when no `..` follows |
| Printer.DotChainIsExpr | cli/src/refactorings/parser/mod.rs:165-181 | an atom with a dot chain is a whole expression when no `..` follows |
| Printer.FnRoundTrip | cli/src/refactorings/parser/mod.rs:153-163 | a printed expression is one `fn_expr` when no `(` or `.` follows |
| Printer.BindingRoundTrip | cli/src/refactorings/parser/mod.rs:141-151 | a printed expression is one `..` operand when no `:`, `(` or `.` follows |
| Printer.ExprRoundTrip | cli/src/refactorings/parser/mod.rs:109-204 | a printed expression parses back to itself when nothing after it extends it |
| Printer.ArgStep | cli/src/refactorings/parser/mod.rs:304-321 | one printed argument followed by `,` or `)` parses back |
| Printer.ArgsRoundTrip | cli/src/refactorings/parser/mod.rs:304-321 | a printed argument list parses back to the same arguments |
| Printer.StmtRoundTrip | cli/src/refactorings/parser/mod.rs:212-236 | a printed statement parses back to itself |
| Printer.ForLoopRoundTrip | cli/src/refactorings/parser/mod.rs:221-230 | a printed for loop parses back to itself |
| Printer.StmtThenSemi | cli/src/refactorings/parser/mod.rs:304-321 | one printed statement followed by `;` parses back and the body goes on |
| Printer.StmtThenClose | cli/src/refactorings/parser/mod.rs:304-321 | one printed statement followed by `}` parses back and ends the body |
| Printer.StmtsMore | cli/src/refactorings/parser/mod.rs:304-321 | the first of several printed statements parses and hands over to the rest |
| Printer.StmtsLast | cli/src/refactorings/parser/mod.rs:304-321 | the last printed statement and `}` end the body |
| Printer.StmtsRoundTrip | cli/src/refactorings/parser/mod.rs:206-210 | a printed body parses back to the same statements |
| Printer.ImportRoundTrip | cli/src/refactorings/parser/mod.rs:88-98 | a printed import parses back |
| Printer.DirectiveRoundTrip | cli/src/refactorings/parser/mod.rs:100-107 | a printed directive parses back |
| Printer.StatementRoundTrip | cli/src/refactorings/parser/mod.rs:69-86 | a printed top-level statement, with its `;` when it needs one, parses back |
| Printer.TopLevelRoundTrip | cli/src/refactorings/parser/mod.rs:69-86 | a printed top-level item parses back, whatever follows it |
| Printer.TopLevelsRoundTrip | cli/src/refactorings/parser/mod.rs:10-18 | printed items parse back in order |
| Printer.ScriptRoundTrip | cli/src/refactorings/parser/mod.rs:10-18 | parsing a printed script gives the script back |
| Printer.SourceRoundTrip | cli/src/refactorings/parser/mod.rs:10-18 | printing, rendering as text, lexing and parsing give a script back when its tokens can be written as text |
| Matcher.FirstOccurrence | cli/src/refactorings/script.rs:186-192 | a string pattern is found at its first occurrence, and not found exactly when it occurs nowhere |
| Matcher.Range | cli/src/refactorings/script.rs:180-232 | a match of any pattern is a valid range inside the text |
| Matcher.LiteralMatch | cli/src/refactorings/script.rs:186-192 | a string literal matches its own text at its first occurrence, and fails exactly when it does not occur |
| Matcher.BindingCapture | cli/src/refactorings/script.rs:222-226 | a binding matches where its inner pattern does and adds the matched text under its name, keeping the other captures |
| Matcher.ConcatAdjacent | cli/src/refactorings/script.rs:201-220 | when the right match starts right after the left one, the concatenation spans both and the right captures win |
| Matcher.ConcatRetry | cli/src/refactorings/script.rs:208-211 | when the right match comes later, the whole pattern is searched again after the left match, which never ends when the left match is empty at the start |
| Matcher.ConcatContiguous | cli/src/refactorings/script.rs:201-220 | a concatenation's match is a left match immediately followed by a right match, as long as both together, with merged captures |
| Matcher.CapturesShift | cli/src/refactorings/script.rs:212-218 | moving a match found in a suffix back into the whole text keeps its captures the text they name |
| Matcher.CapturesWiden | cli/src/refactorings/script.rs:212-218 | captures inside a match stay inside a larger range |
| Matcher.CapturesMerge | cli/src/refactorings/script.rs:212-218 | merging two sets of captures inside a range stays inside it |
| Matcher.CapturesLieInMatch | cli/src/refactorings/script.rs:180-232 | every capture of a pattern is the text of a part of its matched range |
| Matcher.ConcatExamples | cli/src/refactorings/script.rs:320-345 | the `concatenated` test (lines 320-324): `"te" .. "st"` matches all of `test`; and the `multiple_tries_for_concat` test (lines 341-345): in `tetest` it matches from the second `te` |
| Matcher.ConcatTest | cli/src/refactorings/script.rs:320-324 | `"te" .. "st"` matches all of `test` |
| Matcher.ConcatRetest | cli/src/refactorings/script.rs:341-345 | in `tetest`, `"te" .. "st"` gives up on the first `te`, whose `st` comes too late, and matches `test` |
| Edits.FirstSelected | cli/src/refactorings/script.rs:242-253 | the first region flagged as selected, or none exactly when no region is |
| Edits.SelectedSpan | cli/src/refactorings/script.rs:242-253 | the selection is a valid range inside the whole buffer |
| Edits.FlattenSplit | cli/src/refactorings/script.rs:242-253 | the buffer is the regions before `i`, region `i`, then the rest |
| Edits.Selected | cli/src/refactorings/script.rs:242-253 | the imperative scan of `selected` returns exactly the selection |
| Edits.EditScript | cli/src/refactorings/script.rs:99-107 | the commands are the deletes first when there are any, then the backspaces when there are any, then the one insertion, which ends the list; a zero count is never emitted |
| Edits.Overlaps | cli/src/refactorings/script.rs:255-257 | only a non-empty candidate overlaps anything, and it holds the byte at the selection's start |
| Edits.DeleteRange | cli/src/refactorings/script.rs:259-269 | keystrokes exist exactly when the selection lies inside the target, and then the deletes and backspaces together number the target's bytes outside the selection, plus one for a non-empty selection |
| Edits.OverlapsByPositions | cli/src/refactorings/script.rs:255-257 | `overlaps` holds exactly when the candidate holds every byte of the selection and the byte at its start |
| Edits.OverlapsExamples | cli/src/refactorings/script.rs:376-379 | the source's test vectors for `overlaps` |
| Edits.DeleteRangeCases | cli/src/refactorings/script.rs:259-269 | `delete_range` fails exactly when the selection reaches outside the target, and otherwise counts the bytes after the selection (plus one to drop a non-empty selection) and the bytes before it |
| Edits.OverlapsCanReplace | cli/src/refactorings/script.rs:255-269 | a candidate that overlaps the selection can always be turned into commands |
| Edits.DeleteRangeExamples | cli/src/refactorings/script.rs:443-452 | the source's test vectors for `delete_range` |
| Edits.SelectedExamples | cli/src/refactorings/script.rs:382-393 | the source's test vectors for `selected` |
| Edits.DeletesAtCursor | cli/src/refactorings/script.rs:99-101 | `n` deletes at a cursor remove the `n` bytes after it |
| Edits.BackspacesAtCursor | cli/src/refactorings/script.rs:102-104 | `n` backspaces at a cursor remove the `n` bytes before it |
| Edits.DeletePhase | cli/src/refactorings/script.rs:95-101 | the deletes of `replace` remove the selection and the rest of the target after it |
| Edits.BackspacePhase | cli/src/refactorings/script.rs:95-104 | the backspaces of `replace` then remove the target's bytes before the cursor |
| Edits.ReplayScript | cli/src/refactorings/script.rs:99-107 | the command list replays as deletes, then backspaces, then typing |
| Edits.ReplaceRealisesEdit | cli/src/refactorings/script.rs:84-108 | replaying the commands of `replace` turns the buffer into the buffer with the target replaced by the text, with the cursor after the text |
| Script.Candidate | cli/src/refactorings/script.rs:124-128 | a candidate found from an offset lies between the offset and the end of the buffer |
| Script.FindFrom | cli/src/refactorings/script.rs:124-136 | a scan result is a range that overlaps the selection and lies after the scan's start |
| Script.FindIn | cli/src/refactorings/script.rs:115-137 | `find` yields a valid range inside the buffer |
| Script.FindScan | cli/src/refactorings/script.rs:115-137 | the imperative `find` loop returns exactly what `FindIn` specifies |
| Script.Exec | cli/src/refactorings/script.rs:50-72 | the imperative `exec` loop returns exactly what `Execute` specifies |
| Script.AppliesTo | cli/src/refactorings/script.rs:13-15 | `applies_to` never holds for a script with an import or a for-loop |
| Script.PerformAppend | cli/src/refactorings/script.rs:13-19 | a script split in two applies exactly when its first part runs and its second part runs on the scope the first left; then `perform` gives the first part's commands followed by the second's, and an error in the first part is the script's error |
| Script.Execute | cli/src/refactorings/script.rs:50-72 | a script that runs holds only directives, `let` and expression statements, and the empty script gives no commands |
| Script.Run | cli/src/refactorings/script.rs:54-69 | running items never unbinds a variable: every name bound before the run is bound after it |
| Script.RunSupported | cli/src/refactorings/script.rs:55-67 | every item of a run that succeeds is a directive, a `let` or an expression statement |
| Script.Eval | cli/src/refactorings/script.rs:74-178 | only `replace` produces commands and only `find` produces ranges, unless a variable holds them; reading a variable fails exactly when it is unbound |
| Script.Replace | cli/src/refactorings/script.rs:84-108 | the commands exist exactly when the selection lies inside the target, and they end by typing the new text |
| Script.DirectiveFrom | cli/src/refactorings/script.rs:39-48 | the index of the first directive with the name at or after `i` |
| Script.DirectiveValue | cli/src/refactorings/script.rs:39-48 | `directive_value` is the value of the first directive with that name |
| Script.FindStopsAfterSelection | cli/src/refactorings/script.rs:129-131 | a candidate starting after the selection ends the search with not-found |
| Script.FindMovesOn | cli/src/refactorings/script.rs:132-135 | a candidate that neither covers nor passes the selection moves the scan to its end, and one empty at the offset never lets the scan move |
| Script.FindSound | cli/src/refactorings/script.rs:124-136 | what `find` returns is reached by a path of offsets from the scan's start: each step skips a candidate that starts no later than the selection's end, does not overlap it and ends further on; the last candidate starts no later than the selection's end, overlaps it, and is the returned range |
| Script.FindAlongPath | cli/src/refactorings/script.rs:124-136 | conversely, a scan along such a path ends with `NotFound` when the last candidate starts after the selection, and returns the last candidate when it overlaps the selection |
| Script.FindFollowsPath | cli/src/refactorings/script.rs:132-135 | moving on past skipped candidates does not change what the scan returns |
| Script.FindCoversSelection | cli/src/refactorings/script.rs:115-137 | the found range holds the selection and lies in the buffer, so replacing it cannot fail |
| Script.UnknownVariableFails | cli/src/refactorings/script.rs:143-146 | reading an unbound variable is an error |
| Script.DotAccessReadsCapture | cli/src/refactorings/script.rs:161-172 | `range.name` reads the capture `name`, and fails when there is none |
| Script.EvalReplace | cli/src/refactorings/script.rs:84-108 | `range.replace(text)` evaluates to the commands replacing that range |
| Script.ReplaceEdits | cli/src/refactorings/script.rs:84-108 | the commands of `range.replace(text)` turn the buffer into the buffer with the range replaced |
| Script.RunAppend | cli/src/refactorings/script.rs:50-72 | running two lists of items one after the other is running them together, the scope flowing between them |
| Script.AssignmentBinds | cli/src/refactorings/script.rs:57-61 | `let` evaluates its value and binds it for the following items, and an evaluation error aborts the run |
| Script.DirectiveSkipped | cli/src/refactorings/script.rs:54-55 | a directive does not affect the run |
| Script.ImportAndLoopUnsupported | cli/src/refactorings/script.rs:53-67 | imports and for loops are unsupported |
| Script.EvalFind | cli/src/refactorings/script.rs:115-137 | `find(pattern)` evaluates to the scan's result |
| Script.ExprStmtEmits | cli/src/refactorings/script.rs:62-66 | an expression statement contributes its value's commands before those of the following items |
| Script.FindReplaceFails | cli/src/refactorings/script.rs:13-19 | when `find` fails, the find-and-replace script fails with its error |
| Script.FindReplacePerform | cli/src/refactorings/script.rs:50-137 | when `find` succeeds, the find-and-replace script emits the commands replacing the found range |
| Script.FindReplaceRealisesEdit | cli/src/refactorings/script.rs:13-137 | the find-and-replace script applies exactly when `find` succeeds, and its commands replace the found range by the text |
| Script.SingleCharExamples | cli/src/refactorings/script.rs:294-299 | `find("t")` applies to `t` and not to `u` |
| Script.FindSingleChar | cli/src/refactorings/script.rs:294-299 | in `t` with no selection, `find("t")` finds the `t` |
| Script.SingleCharReplacement | cli/src/refactorings/script.rs:400-407 | replacing the found `t` by `r` is one delete and typing `r` |
| Script.ThreeRegions | cli/src/refactorings/script.rs:432-439 | the regions `rrr`, an empty selection and `r` are `rrrr` with the cursor at 3 |
| Script.ScanPastOccurrences | cli/src/refactorings/script.rs:124-136 | the scan for `r` in `rrrr` passes the three `r` before the cursor and stops at the fourth |
| Script.FindPastOccurrences | cli/src/refactorings/script.rs:432-439 | `find("r")` with the cursor at 3 finds the fourth `r` |
| Script.MultipleOccurrences | cli/src/refactorings/script.rs:432-439 | replacing that `r` by `t` is one delete and typing `t` |
| Script.FindWithBinding | cli/src/refactorings/script.rs:420-429 | `find("r" .. foo:(/\w+/))` in `rate` finds the word and captures `ate` |
| Script.UsingBinding | cli/src/refactorings/script.rs:420-429 | replacing the found word by its capture deletes four bytes and types `ate` |
| Script.ReplaceAtCursor | cli/src/refactorings/script.rs:96-107 | a match that starts at the cursor is replaced by one delete of its length and typing the new text |
| Script.ReplaceByCapture | cli/src/refactorings/script.rs:99-107 | replacing a match at the cursor by its capture deletes the match and types the capture |
| Keyboard.Resync | gui/src/keyboard_control.rs:38-49 | the history left after skipping is no longer than before, empty with an empty keymap, and otherwise matches or begins some key sequence |
| Keyboard.ResyncIsSuffix | gui/src/keyboard_control.rs:48-49 | skipping only drops leading characters: what is left is a suffix of the history |
| Keyboard.KeyboardControl.constructor | gui/src/keyboard_control.rs:10-15 | a new control has the keymap and an empty history |
| Keyboard.KeyboardControl.OnKey | gui/src/keyboard_control.rs:17-22 | a key named by more than one character appends `<Name>` to the history, and others change nothing |
| Keyboard.KeyboardControl.OnText | gui/src/keyboard_control.rs:24-26 | typed text is appended to the history |
| Keyboard.KeyboardControl.Take | gui/src/keyboard_control.rs:28-50 | `take` skips dead input, then returns the action of some matching key sequence and removes exactly it, or returns nothing |
| Keyboard.ResyncKeepsLive | gui/src/keyboard_control.rs:29-41 | a history that matches or begins a key sequence is not skipped |
| Keyboard.ResyncDropsOnlyDead | gui/src/keyboard_control.rs:38-49 | every character skipped starts a dead history |
| Keyboard.ResyncSkipsJunk | gui/src/keyboard_control.rs:48-49 | dead leading characters are all skipped up to the first live suffix |
| Keyboard.TookMatch | gui/src/keyboard_control.rs:29-36 | when one key sequence is a prefix of the history, `take` returns its action and removes exactly that prefix |
| Keyboard.TookInProgress | gui/src/keyboard_control.rs:38-41 | when the history only begins a key sequence, `take` returns nothing and keeps the history |
| Keyboard.TookEmptyMap | gui/src/keyboard_control.rs:43-46 | with an empty keymap `take` returns nothing and clears the history |
| Keyboard.TookWaits | gui/src/keyboard_control.rs:38-49 | when `take` returns nothing with a non-empty keymap, what is left begins some key sequence |
| Keyboard.TookConsumes | gui/src/keyboard_control.rs:28-50 | `take` only removes a prefix of the history, and a returned action consumes its key sequence |
| Keyboard.TookAfterJunk | gui/src/keyboard_control.rs:48-49 | input that cannot start any key sequence is skipped before a key sequence matches |
| Keyboard.TookOnlyKeyAfterJunk | gui/src/keyboard_control.rs:48-49 | with a single key sequence, leading input that never matches it is skipped and the sequence is taken, leaving nothing |
| Keyboard.TookOneOfTwo | gui/src/keyboard_control.rs:29-36 | with two key sequences, the one the history starts with is taken, and exactly it is removed |
| Keyboard.UnrecognizedIsNone | gui/src/keyboard_control.rs:57-64 | with an empty keymap, typing `o` gives nothing |
| Keyboard.TypeOnlyKey | gui/src/keyboard_control.rs:66-75 | typing the only key sequence of a keymap yields its action |
| Keyboard.SingleChar | gui/src/keyboard_control.rs:66-75 | with `j` mapped to `down`, typing `j` gives `down` |
| Keyboard.CapitalChar | gui/src/keyboard_control.rs:159-168 | with `J` mapped to `cursor_down`, typing `J` gives `cursor_down` |
| Keyboard.TypeKeyInPieces | gui/src/keyboard_control.rs:77-87 | the only key sequence, typed in two pieces, yields its action |
| Keyboard.CharSequence | gui/src/keyboard_control.rs:77-87 | with `of` mapped to `open_file`, typing `o` then `f` gives `open_file` |
| Keyboard.PrefixedFree | gui/src/keyboard_control.rs:132-143 | with `f` and `of` both mapped, typing `o` then `f` gives `of`'s action, not `f`'s |
| Keyboard.TypeTwoKeys | gui/src/keyboard_control.rs:89-103 | typing one key sequence and then another yields both actions in order, then nothing |
| Keyboard.SequenceOfActions | gui/src/keyboard_control.rs:89-103 | `jof` with `j` and `of` yields cursor_down, open_file, then nothing |
| Keyboard.SkipThenMatch | gui/src/keyboard_control.rs:105-130 | leading input that starts no key sequence is skipped before the only key sequence matches |
| Keyboard.UnrecognizedInput | gui/src/keyboard_control.rs:105-116 | `jof` with only `of` yields open_file |
| Keyboard.UnrecognizedPartialInput | gui/src/keyboard_control.rs:118-130 | `orof` with only `of` yields open_file |
| Keyboard.AbandonPartial | gui/src/keyboard_control.rs:145-157 | a started key sequence that cannot be completed is abandoned for one that matches |
| Keyboard.ThreeCharSequence | gui/src/keyboard_control.rs:145-157 | `ooj` with `j` and `oof` yields cursor_down |
| Keyboard.NamedKey | gui/src/keyboard_control.rs:170-179 | a named key is matched by its `<Name>` form |
| Keyboard.MultiLetterButton | gui/src/keyboard_control.rs:170-179 | the Tab key matches `<Tab>` |
| TextCursor.LineEnd | gui/src/cursor.rs:27-30 | the end of the cursor's line lies within the text (that it is the first newline is the next row) |
| TextCursor.LineEndIsFirstNewline | gui/src/cursor.rs:27-30 | `split_once("\n")` cuts at the first newline, or the line is the whole text |
| TextCursor.AfterLine | gui/src/cursor.rs:27-30 | the tail after the first newline holds every byte after that newline |
| TextCursor.SplitAtLine | gui/src/cursor.rs:27-30 | the line, the newline and the tail put together give the text back |
| TextCursor.BytePosIn | gui/src/cursor.rs:26-39 | the byte position never exceeds the text length |
| TextCursor.Lines | gui/src/cursor.rs:26-39 | the text has at least one line |
| TextCursor.LinesHaveNoNewline | gui/src/cursor.rs:26-39 | no line holds a newline |
| TextCursor.JoinLines | gui/src/cursor.rs:26-39 | joining the lines with newlines gives the text back |
| TextCursor.BytePosByLines | gui/src/cursor.rs:26-39 | the position is the start of line `min(row, last line)` plus the column clamped to that line's last byte (`LinePos` of the lines) |
| TextCursor.BytePosExamples | gui/src/cursor.rs:45-116 | the source's test vectors for the position, including Windows newlines and rows and columns past the end |
| TextCursor.Cursor.constructor | gui/src/cursor.rs:3-7 | the default cursor is at row 0, column 0 |
| TextCursor.Cursor.BytePos | gui/src/cursor.rs:11-13 | the cursor's position never exceeds the text length |
| TextCursor.Cursor.DoMove | gui/src/cursor.rs:15-23 | Right and Down increment, Left and Up decrement saturating at 0, and the other coordinate is unchanged |
| TextCursor.AllMotionsCancel | gui/src/cursor.rs:106-116 | Down, Right, Up, Left bring any cursor back where it was |
| TextCursor.DefaultIsAtZero | gui/src/cursor.rs:45-48 | the default cursor on empty text is at 0 |
| TextCursor.MoveRightPutsAtOne | gui/src/cursor.rs:50-95 | one step right is 1 in `foo` and clamps to 0 in `x`, and three steps right clamp to 0 on `x\ny` |
| TextCursor.DownGoesToNextLine | gui/src/cursor.rs:68-104 | one step down is 2 in `x\ny` and 3 in `x\r\ny`, and stays on the last line of `foo` |
| TextCursor.MotionsCancelToOrigin | gui/src/cursor.rs:106-116 | after Down, Right, Up, Left the position in `12\n34` is 0 |

## Left out

- Regular expressions are not modelled. The parser checks that a regex compiles through a predicate passed in, and the matcher takes the regex search as a function parameter. That function only has to return a range inside the text.
- The `logos` lexer's internals are not modelled. Its error token is reported as the byte position where lexing fails, not as the text of the error slice.
- Lexer.Tokenize: the source's `lex` error carries the offending text; the model carries its position instead.
- Error messages are modelled as the cases of `ScriptError` and `ParseError`, not as the strings the source formats.
- Non-termination is modelled as the `Diverges` error. In the source the concatenation retry recurses forever when the left match is empty at the start of the text, and the `find` loop spins forever on an empty candidate at its offset. The model returns the error where the source would not return.
- `unimplemented!` in `eval` and `exec` is the `Unsupported` error.
- The refactoring registry, the `Refactoring` trait and the `id`, `name` and `description` accessors of `cli/src/refactorings/mod.rs` and `script.rs` are not part of this model.
- `cli/src/main.rs` is not part of this model. It is JSON stdin/stdout plumbing, and it only supplies the `EditorContext` and `ContentRegion` shapes used here.
- The editor that replays the commands is an assumption, because no editor code is in the repository. Delete removes a non-empty selection, or else the byte after the cursor. Backspace removes a non-empty selection, or else the byte before it. Typing replaces the selection.
- Script.DirectiveValue: the source panics when the directive is missing, so the model requires that one exists.
- Edits.DeleteRange: its subtraction `selected.end - selected.start` would underflow for an inverted selection that lies inside the target. The model requires the selection to be well-formed in that case, which `selected` always produces.
- `take_one` is not modelled: nothing calls it.
- The script examples start from syntax trees, and the parser examples start from token sequences, not from the text of the source's tests.
- The source tests `anywhere_in_string`, `with_selected`, `binding`, `regex`, `end_to_end`, `multiple_instances` and `replace_with_concat` are covered by the general lemmas only, not replayed as examples.
- Keyboard.KeyboardControl.Take: which key sequence wins when several match depends on `HashMap` iteration order. The model allows any matching one.
- `on_key` takes the key's name instead of egui's `Key` and ignores the modifiers, as the source does.
- TextCursor.Cursor.DoMove: Right and Down do not model the `usize` overflow at the top of the range.
- Strings are modelled as bytes, so there is no UTF-8 decoding. `remove(0)` in `take` drops one byte, where the source drops one character.
- The GUI rendering, the background thread and the file I/O of the GUI are not part of this model.
