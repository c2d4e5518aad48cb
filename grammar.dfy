/** The grammar of the script language as a functional recursive-descent
    parser: each function takes the remaining tokens and returns the parsed
    value with the tokens left over, or the error the source reports.
    It is the specification of the imperative parser in module `Parser`,
    which consumes a mutable token queue the way
    cli/src/refactorings/parser/mod.rs does. */
module Grammar {
  import opened Basics
  import opened Ast
  import L = Lexer

  type Token = L.Token

  /** Compiling a regex literal is an abstract, partial operation: this
      predicate says which pattern texts compile. */
  type RegexSyntax = Bytes -> bool

  datatype ParseError =
    | ExpectedToken(expected: Token, found: Option<Token>)
    | ExpectedAnyToken
    | ExpectedIdent(found: Option<Token>)
    | ExpectedString(found: Option<Token>)
    | ExpectedExpr(found: Option<Token>)
    | InvalidRegex(pattern: Bytes)
    | LexFailed(at: nat)

  datatype Parsed<T> = Parsed(value: T, rest: seq<Token>)

  type PResult<T> = Result<Parsed<T>, ParseError>

  function Front(ts: seq<Token>): Option<Token> {
    if ts == [] then None else Some(ts[0])
  }

  /** `ts` starts with `tok`. */
  predicate Next(ts: seq<Token>, tok: Token) {
    ts != [] && ts[0] == tok
  }

  // ---------------------------------------------------------------------
  // Token-level helpers: take, take_any, take_ident, take_string_lit

  function Take(ts: seq<Token>, expected: Token): (r: PResult<()>)
    ensures r.Ok? <==> Next(ts, expected)
    ensures r.Ok? ==> r.value.rest == ts[1..]
    ensures r.Err? ==> r.error == ExpectedToken(expected, Front(ts))
  {
    if ts == [] then Err(ExpectedToken(expected, None))
    else if ts[0] == expected then Ok(Parsed((), ts[1..]))
    else Err(ExpectedToken(expected, Some(ts[0])))
  }

  function TakeIdent(ts: seq<Token>): (r: PResult<Bytes>)
    ensures r.Ok? <==> ts != [] && ts[0].Ident?
    ensures r.Ok? ==> ts[0] == L.Ident(r.value.value) && r.value.rest == ts[1..]
  {
    if ts != [] && ts[0].Ident? then Ok(Parsed(ts[0].name, ts[1..]))
    else Err(ExpectedIdent(Front(ts)))
  }

  function TakeStringLit(ts: seq<Token>): (r: PResult<Bytes>)
    ensures r.Ok? <==> ts != [] && ts[0].StringLiteral?
    ensures r.Ok? ==> ts[0] == L.StringLiteral(r.value.value) && r.value.rest == ts[1..]
  {
    if ts != [] && ts[0].StringLiteral? then Ok(Parsed(ts[0].text, ts[1..]))
    else Err(ExpectedString(Front(ts)))
  }

  /** What follows an item of a `take_until` list: the separator (another
      item comes, `true`) or the terminal (the list ends, `false`). */
  function ListStep(ts: seq<Token>, terminal: Token, separator: Token): (r: PResult<bool>)
    ensures r.Ok? ==> |r.value.rest| == |ts| - 1
    ensures r.Ok? <==> Next(ts, separator) || Next(ts, terminal)
  {
    if Next(ts, separator) then Ok(Parsed(true, ts[1..]))
    else
      var close :- Take(ts, terminal);
      Ok(Parsed(false, close.rest))
  }

  // ---------------------------------------------------------------------
  // Expressions. Every parse function that succeeds consumes a token.

  function ParseExpr(rx: RegexSyntax, ts: seq<Token>): (r: PResult<Expr>)
    ensures r.Ok? ==> |r.value.rest| < |ts|
    decreases |ts|, 6
  {
    ParseConcat(rx, ts)
  }

  /** `Binding ('..' Binding)*`, folded to the left. */
  function ParseConcat(rx: RegexSyntax, ts: seq<Token>): (r: PResult<Expr>)
    ensures r.Ok? ==> |r.value.rest| < |ts|
    decreases |ts|, 5
  {
    var first :- ParseBinding(rx, ts);
    ConcatTail(rx, first.value, first.rest)
  }

  /** The infix loop: while `..` comes next, parse one more operand and
      make it the right operand of a new `Concatenate` around `e`. */
  function ConcatTail(rx: RegexSyntax, e: Expr, ts: seq<Token>): (r: PResult<Expr>)
    ensures r.Ok? ==> |r.value.rest| <= |ts|
    decreases |ts|, 5
  {
    if Next(ts, L.Concatenate) then
      var right :- ParseBinding(rx, ts[1..]);
      ConcatTail(rx, Concatenate(e, right.value), right.rest)
    else Ok(Parsed(e, ts))
  }

  /** `name: FnOrDot` when an identifier and a colon come next. */
  function ParseBinding(rx: RegexSyntax, ts: seq<Token>): (r: PResult<Expr>)
    ensures r.Ok? ==> |r.value.rest| < |ts|
    decreases |ts|, 4
  {
    if |ts| >= 2 && ts[0].Ident? && ts[1] == L.Colon then
      var inner :- ParseFn(rx, ts[2..]);
      Ok(Parsed(Binding(ts[0].name, inner.value), inner.rest))
    else ParseFn(rx, ts)
  }

  /** `name(args)` when an identifier and an open parenthesis come next. */
  function ParseFn(rx: RegexSyntax, ts: seq<Token>): (r: PResult<Expr>)
    ensures r.Ok? ==> |r.value.rest| < |ts|
    decreases |ts|, 3
  {
    if |ts| >= 2 && ts[0].Ident? && ts[1] == L.OpenParen then
      var args :- ParseArgs(rx, [], ts[2..]);
      Ok(Parsed(FnCall(ts[0].name, args.value), args.rest))
    else ParseDotAccess(rx, ts)
  }

  function ParseDotAccess(rx: RegexSyntax, ts: seq<Token>): (r: PResult<Expr>)
    ensures r.Ok? ==> |r.value.rest| < |ts|
    decreases |ts|, 2
  {
    var base :- ParseParen(rx, ts);
    DotTail(rx, base.value, base.rest)
  }

  /** The dot-chain loop: `.x` wraps `e` in a `DotAccess` and goes on;
      `.x(args)` makes a `MethodCall` and ends the chain. */
  function DotTail(rx: RegexSyntax, e: Expr, ts: seq<Token>): (r: PResult<Expr>)
    ensures r.Ok? ==> |r.value.rest| <= |ts|
    decreases |ts|, 2
  {
    if Next(ts, L.Period) then
      var prop :- TakeIdent(ts[1..]);
      if Next(prop.rest, L.OpenParen) then
        var args :- ParseArgs(rx, [], prop.rest[1..]);
        Ok(Parsed(MethodCall(e, prop.value, args.value), args.rest))
      else DotTail(rx, DotAccess(e, prop.value), prop.rest)
    else Ok(Parsed(e, ts))
  }

  function ParseParen(rx: RegexSyntax, ts: seq<Token>): (r: PResult<Expr>)
    ensures r.Ok? ==> |r.value.rest| < |ts|
    decreases |ts|, 1
  {
    if Next(ts, L.OpenParen) then
      var inner :- ParseExpr(rx, ts[1..]);
      var close :- Take(inner.rest, L.CloseParen);
      Ok(Parsed(inner.value, close.rest))
    else ParseLeaf(rx, ts)
  }

  function ParseLeaf(rx: RegexSyntax, ts: seq<Token>): (r: PResult<Expr>)
    ensures r.Ok? ==> ts != [] && r.value.rest == ts[1..]
    decreases |ts|, 0
  {
    if ts == [] then Err(ExpectedExpr(None))
    else match ts[0]
      case StringLiteral(s) => Ok(Parsed(StringLiteral(s), ts[1..]))
      case Regex(p) => if rx(p) then Ok(Parsed(Regex(p), ts[1..])) else Err(InvalidRegex(p))
      case Ident(i) => Ok(Parsed(Ident(i), ts[1..]))
      case _ => Err(ExpectedExpr(Some(ts[0])))
  }

  /** `take_until(CloseParen, Comma, expr)`, the items so far in `acc`. */
  function ParseArgs(rx: RegexSyntax, acc: seq<Expr>, ts: seq<Token>): (r: PResult<seq<Expr>>)
    ensures r.Ok? ==> |r.value.rest| < |ts|
    decreases |ts|, 7
  {
    if Next(ts, L.CloseParen) then Ok(Parsed(acc, ts[1..]))
    else
      var item :- ParseExpr(rx, ts);
      var more :- ListStep(item.rest, L.CloseParen, L.Comma);
      if more.value then ParseArgs(rx, acc + [item.value], more.rest)
      else Ok(Parsed(acc + [item.value], more.rest))
  }

  // ---------------------------------------------------------------------
  // Statements and top-level items

  function ParseStmt(rx: RegexSyntax, ts: seq<Token>): (r: PResult<Stmt>)
    ensures r.Ok? ==> |r.value.rest| < |ts|
    decreases |ts|, 7
  {
    if ts == [] then Err(ExpectedAnyToken)
    else match ts[0]
      case Let =>
        var name :- TakeIdent(ts[1..]);
        var eq :- Take(name.rest, L.Equal);
        var value :- ParseExpr(rx, eq.rest);
        Ok(Parsed(Assignment(name.value, value.value), value.rest))
      case For =>
        var name :- TakeIdent(ts[1..]);
        var kw :- Take(name.rest, L.In);
        var source :- ParseExpr(rx, kw.rest);
        var body :- ParseBody(rx, source.rest);
        Ok(Parsed(ForLoop(name.value, source.value, body.value), body.rest))
      case _ =>
        var e :- ParseExpr(rx, ts);
        Ok(Parsed(ExprStmt(e.value), e.rest))
  }

  function ParseBody(rx: RegexSyntax, ts: seq<Token>): (r: PResult<seq<Stmt>>)
    ensures r.Ok? ==> |r.value.rest| < |ts|
    decreases |ts|, 9
  {
    var open :- Take(ts, L.OpenBrace);
    ParseStmts(rx, [], open.rest)
  }

  /** `take_until(CloseBrace, SemiColon, stmt)`. */
  function ParseStmts(rx: RegexSyntax, acc: seq<Stmt>, ts: seq<Token>): (r: PResult<seq<Stmt>>)
    ensures r.Ok? ==> |r.value.rest| < |ts|
    decreases |ts|, 8
  {
    if Next(ts, L.CloseBrace) then Ok(Parsed(acc, ts[1..]))
    else
      var item :- ParseStmt(rx, ts);
      var more :- ListStep(item.rest, L.CloseBrace, L.SemiColon);
      if more.value then ParseStmts(rx, acc + [item.value], more.rest)
      else Ok(Parsed(acc + [item.value], more.rest))
  }

  /** `take_until(CloseBrace, Comma, take_ident)`. */
  function ParseIdents(acc: seq<Bytes>, ts: seq<Token>): (r: PResult<seq<Bytes>>)
    ensures r.Ok? ==> |r.value.rest| < |ts|
    decreases |ts|
  {
    if Next(ts, L.CloseBrace) then Ok(Parsed(acc, ts[1..]))
    else
      var item :- TakeIdent(ts);
      var more :- ListStep(item.rest, L.CloseBrace, L.Comma);
      if more.value then ParseIdents(acc + [item.value], more.rest)
      else Ok(Parsed(acc + [item.value], more.rest))
  }

  /** `{ a, b } from "source";`, after the `import` keyword. */
  function ParseImport(ts: seq<Token>): (r: PResult<ImportDecl>)
    ensures r.Ok? ==> |r.value.rest| < |ts|
  {
    var open :- Take(ts, L.OpenBrace);
    var idents :- ParseIdents([], open.rest);
    var from :- Take(idents.rest, L.From);
    var source :- TakeStringLit(from.rest);
    var semi :- Take(source.rest, L.SemiColon);
    Ok(Parsed(ImportDecl(idents.value, source.value), semi.rest))
  }

  /** `name = "value";`, after the `@` marker. */
  function ParseDirective(ts: seq<Token>): (r: PResult<DirectiveDecl>)
    ensures r.Ok? ==> |r.value.rest| < |ts|
  {
    var name :- TakeIdent(ts);
    var eq :- Take(name.rest, L.Equal);
    var value :- TakeStringLit(eq.rest);
    var semi :- Take(value.rest, L.SemiColon);
    Ok(Parsed(DirectiveDecl(name.value, value.value), semi.rest))
  }

  /** One top-level item, or `None` when the tokens have run out. */
  function ParseTopLevel(rx: RegexSyntax, ts: seq<Token>): (r: PResult<Option<TopLevel>>)
    ensures r.Ok? ==> (r.value.value.None? <==> ts == [])
    ensures r.Ok? && r.value.value.Some? ==> |r.value.rest| < |ts|
  {
    if ts == [] then Ok(Parsed(None, []))
    else match ts[0]
      case Import =>
        var decl :- ParseImport(ts[1..]);
        Ok(Parsed(Some(Import(decl.value)), decl.rest))
      case Directive =>
        var decl :- ParseDirective(ts[1..]);
        Ok(Parsed(Some(Directive(decl.value)), decl.rest))
      case _ =>
        var s :- ParseStmt(rx, ts);
        if RequiresTerminal(s.value) then
          var semi :- Take(s.rest, L.SemiColon);
          Ok(Parsed(Some(Statement(s.value)), semi.rest))
        else Ok(Parsed(Some(Statement(s.value)), s.rest))
  }

  /** The loop of `parse`: top-level items in source order until the tokens
      run out; the first error ends the whole parse. */
  function ParseTopLevels(rx: RegexSyntax, acc: seq<TopLevel>, ts: seq<Token>): (r: Result<seq<TopLevel>, ParseError>)
    ensures r.Ok? ==> |acc| <= |r.value| && r.value[..|acc|] == acc
    ensures r.Ok? ==> (|r.value| == |acc| <==> ts == [])
    decreases |ts|
  {
    var item :- ParseTopLevel(rx, ts);
    match item.value
    case None => Ok(acc)
    case Some(tl) =>
      var r := ParseTopLevels(rx, acc + [tl], item.rest);
      if r.Ok? then PrefixOfExtended(r.value, acc, tl); r else r
  }

  function ParseTokens(rx: RegexSyntax, ts: seq<Token>): (r: Result<Script, ParseError>)
    ensures r.Ok? ==> (r.value.topLevels == [] <==> ts == [])
  {
    var tls :- ParseTopLevels(rx, [], ts);
    Ok(Script(tls))
  }

  /** `parse`: lex the source, then parse the tokens; a lexing error is a
      parse error. */
  function ParseSource(rx: RegexSyntax, src: Bytes): (r: Result<Script, ParseError>)
    ensures r.Ok? ==> L.Tokenize(src).Ok? && (r.value.topLevels == [] <==> L.Tokenize(src).value == [])
  {
    match L.Tokenize(src)
    case Err(at) => Err(LexFailed(at))
    case Ok(ts) => ParseTokens(rx, ts)
  }
}
