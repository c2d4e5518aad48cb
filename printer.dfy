/** A printer for scripts: the inverse of the parser. Every compound
    expression is printed inside parentheses, so the printed tokens parse
    back to the same tree whatever the nesting; with the lexer's own
    round trip this gives `parse(render(show(script))) == script`. */
module Printer {
  import opened Basics
  import opened Ast
  import L = Lexer
  import opened Grammar
  import F = GrammarFacts

  // ---------------------------------------------------------------------
  // Printing

  function ShowExpr(e: Expr): (r: seq<Token>)
    ensures |r| > 0
    ensures r[0] == L.OpenParen || r[0].Ident? || r[0].StringLiteral? || r[0].Regex?
    ensures r[0] != L.OpenParen ==> |r| == 1
    decreases e, 1
  {
    match e
    case Ident(n) => [L.Ident(n)]
    case StringLiteral(s) => [L.StringLiteral(s)]
    case Regex(p) => [L.Regex(p)]
    case Binding(n, inner) => [L.OpenParen, L.Ident(n), L.Colon] + ShowExpr(inner) + [L.CloseParen]
    case DotAccess(target, field) => [L.OpenParen] + ShowExpr(target) + [L.Period, L.Ident(field), L.CloseParen]
    case FnCall(f, args) => [L.OpenParen, L.Ident(f), L.OpenParen] + ShowArgs(args) + [L.CloseParen]
    case MethodCall(receiver, m, args) =>
      [L.OpenParen] + ShowExpr(receiver) + [L.Period, L.Ident(m), L.OpenParen] + ShowArgs(args) + [L.CloseParen]
    case Concatenate(left, right) =>
      [L.OpenParen] + ShowExpr(left) + [L.Concatenate] + ShowExpr(right) + [L.CloseParen]
  }

  /** An argument list after its `(`: the arguments separated by commas,
      then `)`. */
  function ShowArgs(args: seq<Expr>): seq<Token>
    decreases args, 0
  {
    if args == [] then [L.CloseParen]
    else if |args| == 1 then ShowExpr(args[0]) + [L.CloseParen]
    else ShowExpr(args[0]) + [L.Comma] + ShowArgs(args[1..])
  }

  function ShowStmt(s: Stmt): (r: seq<Token>)
    ensures |r| > 0 && r[0] != L.CloseBrace && r[0] != L.Import && r[0] != L.Directive
    decreases s, 1
  {
    match s
    case ExprStmt(e) => ShowExpr(e)
    case Assignment(n, v) => [L.Let, L.Ident(n), L.Equal] + ShowExpr(v)
    case ForLoop(x, source, body) =>
      [L.For, L.Ident(x), L.In] + ShowExpr(source) + [L.OpenBrace] + ShowStmts(body)
  }

  /** A body after its `{`: the statements separated by `;`, then `}`. */
  function ShowStmts(ss: seq<Stmt>): seq<Token>
    decreases ss, 0
  {
    if ss == [] then [L.CloseBrace]
    else if |ss| == 1 then ShowStmt(ss[0]) + [L.CloseBrace]
    else ShowStmt(ss[0]) + [L.SemiColon] + ShowStmts(ss[1..])
  }

  /** An import's names after its `{`, then `}`. */
  function ShowIdents(names: seq<Bytes>): seq<Token> {
    if names == [] then [L.CloseBrace] else F.Listed(names) + [L.CloseBrace]
  }

  function ShowTopLevel(tl: TopLevel): (r: seq<Token>)
    ensures |r| > 0
  {
    match tl
    case Import(ImportDecl(names, source)) =>
      [L.Import, L.OpenBrace] + ShowIdents(names) + [L.From, L.StringLiteral(source), L.SemiColon]
    case Directive(DirectiveDecl(name, value)) =>
      [L.Directive, L.Ident(name), L.Equal, L.StringLiteral(value), L.SemiColon]
    case Statement(s) =>
      if RequiresTerminal(s) then ShowStmt(s) + [L.SemiColon] else ShowStmt(s)
  }

  function ShowTopLevels(tls: seq<TopLevel>): seq<Token> {
    if tls == [] then [] else ShowTopLevel(tls[0]) + ShowTopLevels(tls[1..])
  }

  function ShowScript(script: Script): seq<Token> {
    ShowTopLevels(script.topLevels)
  }

  // ---------------------------------------------------------------------
  // Which trees the parser can produce: every regex literal compiles

  predicate Compiles(rx: RegexSyntax, e: Expr)
    decreases e, 1
  {
    match e
    case Ident(_) => true
    case StringLiteral(_) => true
    case Regex(p) => rx(p)
    case Binding(_, inner) => Compiles(rx, inner)
    case DotAccess(target, _) => Compiles(rx, target)
    case FnCall(_, args) => AllCompile(rx, args)
    case MethodCall(receiver, _, args) => Compiles(rx, receiver) && AllCompile(rx, args)
    case Concatenate(left, right) => Compiles(rx, left) && Compiles(rx, right)
  }

  predicate AllCompile(rx: RegexSyntax, args: seq<Expr>)
    decreases args, 0
  {
    args != [] ==> Compiles(rx, args[0]) && AllCompile(rx, args[1..])
  }

  predicate StmtCompiles(rx: RegexSyntax, s: Stmt)
    decreases s, 1
  {
    match s
    case ExprStmt(e) => Compiles(rx, e)
    case Assignment(_, v) => Compiles(rx, v)
    case ForLoop(_, source, body) => Compiles(rx, source) && StmtsCompile(rx, body)
  }

  predicate StmtsCompile(rx: RegexSyntax, ss: seq<Stmt>)
    decreases ss, 0
  {
    ss != [] ==> StmtCompiles(rx, ss[0]) && StmtsCompile(rx, ss[1..])
  }

  predicate TopLevelCompiles(rx: RegexSyntax, tl: TopLevel) {
    tl.Statement? ==> StmtCompiles(rx, tl.stmt)
  }

  predicate ScriptCompiles(rx: RegexSyntax, tls: seq<TopLevel>) {
    forall i :: 0 <= i < |tls| ==> TopLevelCompiles(rx, tls[i])
  }

  /** What may follow a complete expression without extending it. */
  predicate Ends(rest: seq<Token>) {
    !Next(rest, L.Concatenate) && !Next(rest, L.Colon) && !Next(rest, L.OpenParen) && !Next(rest, L.Period)
  }

  // ---------------------------------------------------------------------
  // Round trip of expressions

  /** A parenthesised expression that parses up to its `)` is an atom. */
  lemma ParenAround(rx: RegexSyntax, inner: seq<Token>, e: Expr, rest: seq<Token>)
    requires ParseExpr(rx, inner) == Ok(Parsed(e, [L.CloseParen] + rest))
    ensures ParseParen(rx, [L.OpenParen] + inner) == Ok(Parsed(e, rest))
  {
    assert ([L.OpenParen] + inner)[1..] == inner;
    assert ([L.CloseParen] + rest)[1..] == rest;
  }

  /** A printed expression, whatever follows it, parses back as an atom. */
  lemma {:induction false} AtomRoundTrip(rx: RegexSyntax, e: Expr, rest: seq<Token>)
    requires Compiles(rx, e)
    ensures ParseParen(rx, ShowExpr(e) + rest) == Ok(Parsed(e, rest))
    decreases e, 1
  {
    var ts := ShowExpr(e) + rest;
    match e
    case Ident(n) =>
      assert ts[1..] == rest;
    case StringLiteral(s) =>
      assert ts[1..] == rest;
    case Regex(p) =>
      assert ts[1..] == rest;
    case Binding(n, inner) => BindingAtom(rx, n, inner, rest);
    case DotAccess(target, field) => DotAccessAtom(rx, target, field, rest);
    case FnCall(f, args) => FnCallAtom(rx, f, args, rest);
    case MethodCall(receiver, m, args) => MethodCallAtom(rx, receiver, m, args, rest);
    case Concatenate(left, right) => ConcatAtom(rx, left, right, rest);
  }

  // How each compound expression is printed, followed by `rest`.

  lemma ShowBinding(n: Bytes, inner: Expr, rest: seq<Token>)
    ensures ShowExpr(Binding(n, inner)) + rest
            == [L.OpenParen] + ([L.Ident(n), L.Colon] + (ShowExpr(inner) + ([L.CloseParen] + rest)))
  {
  }

  lemma ShowDotAccess(target: Expr, field: Bytes, rest: seq<Token>)
    ensures ShowExpr(DotAccess(target, field)) + rest
            == [L.OpenParen] + (ShowExpr(target) + ([L.Period, L.Ident(field)] + ([L.CloseParen] + rest)))
  {
  }

  lemma ShowFnCall(f: Bytes, args: seq<Expr>, rest: seq<Token>)
    ensures ShowExpr(FnCall(f, args)) + rest
            == [L.OpenParen] + ([L.Ident(f), L.OpenParen] + (ShowArgs(args) + ([L.CloseParen] + rest)))
  {
  }

  lemma ShowMethodCall(receiver: Expr, m: Bytes, args: seq<Expr>, rest: seq<Token>)
    ensures ShowExpr(MethodCall(receiver, m, args)) + rest
            == [L.OpenParen] + (ShowExpr(receiver) + ([L.Period, L.Ident(m), L.OpenParen] + (ShowArgs(args) + ([L.CloseParen] + rest))))
  {
  }

  lemma ShowConcat(left: Expr, right: Expr, rest: seq<Token>)
    ensures ShowExpr(Concatenate(left, right)) + rest
            == [L.OpenParen] + (ShowExpr(left) + ([L.Concatenate] + (ShowExpr(right) + ([L.CloseParen] + rest))))
  {
  }

  lemma {:induction false} BindingAtom(rx: RegexSyntax, n: Bytes, inner: Expr, rest: seq<Token>)
    requires Compiles(rx, inner)
    ensures ParseParen(rx, ShowExpr(Binding(n, inner)) + rest) == Ok(Parsed(Binding(n, inner), rest))
    decreases Binding(n, inner), 0
  {
    var close := [L.CloseParen] + rest;
    ShowBinding(n, inner, rest);
    FnRoundTrip(rx, inner, close);
    BindingExpr(rx, n, ShowExpr(inner) + close, inner, close);
    ParenAround(rx, [L.Ident(n), L.Colon] + (ShowExpr(inner) + close), Binding(n, inner), rest);
  }

  lemma {:induction false} DotAccessAtom(rx: RegexSyntax, target: Expr, field: Bytes, rest: seq<Token>)
    requires Compiles(rx, target)
    ensures ParseParen(rx, ShowExpr(DotAccess(target, field)) + rest) == Ok(Parsed(DotAccess(target, field), rest))
    decreases DotAccess(target, field), 0
  {
    var e := DotAccess(target, field);
    var close := [L.CloseParen] + rest;
    var after := [L.Period, L.Ident(field)] + close;
    ShowDotAccess(target, field, rest);
    AtomRoundTrip(rx, target, after);
    DotThenClose(rx, target, field, rest);
    DotChainIsExpr(rx, ShowExpr(target) + after, target, after, e, close);
    ParenAround(rx, ShowExpr(target) + after, e, rest);
  }

  /** One field access, then `)`. */
  lemma DotThenClose(rx: RegexSyntax, target: Expr, field: Bytes, rest: seq<Token>)
    ensures DotTail(rx, target, [L.Period, L.Ident(field)] + ([L.CloseParen] + rest))
            == Ok(Parsed(DotAccess(target, field), [L.CloseParen] + rest))
  {
    var close := [L.CloseParen] + rest;
    assert [L.Period, L.Ident(field)] + close == F.Fields([field]) + close;
    F.DotChain(rx, target, [field], close);
    assert F.FoldDot(target, [field]) == DotAccess(target, field);
  }

  lemma {:induction false} FnCallAtom(rx: RegexSyntax, f: Bytes, args: seq<Expr>, rest: seq<Token>)
    requires AllCompile(rx, args)
    ensures ParseParen(rx, ShowExpr(FnCall(f, args)) + rest) == Ok(Parsed(FnCall(f, args), rest))
    decreases FnCall(f, args), 0
  {
    var close := [L.CloseParen] + rest;
    ShowFnCall(f, args, rest);
    ArgsRoundTrip(rx, [], args, close);
    FnCallExpr(rx, f, args, close);
    ParenAround(rx, [L.Ident(f), L.OpenParen] + (ShowArgs(args) + close), FnCall(f, args), rest);
  }

  /** `f(args)` as a whole expression once its arguments parse. */
  lemma FnCallExpr(rx: RegexSyntax, f: Bytes, args: seq<Expr>, close: seq<Token>)
    requires ParseArgs(rx, [], ShowArgs(args) + close) == Ok(Parsed([] + args, close))
    requires !Next(close, L.Concatenate)
    ensures ParseExpr(rx, [L.Ident(f), L.OpenParen] + (ShowArgs(args) + close)) == Ok(Parsed(FnCall(f, args), close))
  {
    var inner := [L.Ident(f), L.OpenParen] + (ShowArgs(args) + close);
    assert inner[2..] == ShowArgs(args) + close;
    assert [] + args == args;
    F.FnCallOrDotAccess(rx, inner);
    F.FnExprIsExpr(rx, inner, FnCall(f, args), close);
  }

  lemma {:induction false} MethodCallAtom(rx: RegexSyntax, receiver: Expr, m: Bytes, args: seq<Expr>, rest: seq<Token>)
    requires Compiles(rx, receiver) && AllCompile(rx, args)
    ensures ParseParen(rx, ShowExpr(MethodCall(receiver, m, args)) + rest) == Ok(Parsed(MethodCall(receiver, m, args), rest))
    decreases MethodCall(receiver, m, args), 0
  {
    var e := MethodCall(receiver, m, args);
    var close := [L.CloseParen] + rest;
    var call := ShowArgs(args) + close;
    var after := [L.Period, L.Ident(m), L.OpenParen] + call;
    ShowMethodCall(receiver, m, args, rest);
    AtomRoundTrip(rx, receiver, after);
    ArgsRoundTrip(rx, [], args, close);
    MethodCallTail(rx, receiver, m, args, call, close);
    DotChainIsExpr(rx, ShowExpr(receiver) + after, receiver, after, e, close);
    ParenAround(rx, ShowExpr(receiver) + after, e, rest);
  }

  /** `.m(args)` after a receiver, once the arguments parse. */
  lemma MethodCallTail(rx: RegexSyntax, receiver: Expr, m: Bytes, args: seq<Expr>, call: seq<Token>, close: seq<Token>)
    requires ParseArgs(rx, [], call) == Ok(Parsed([] + args, close))
    ensures DotTail(rx, receiver, [L.Period, L.Ident(m), L.OpenParen] + call) == Ok(Parsed(MethodCall(receiver, m, args), close))
  {
    assert [] + args == args;
    F.MethodCallEndsChain(rx, receiver, m, call);
  }

  lemma {:induction false} ConcatAtom(rx: RegexSyntax, left: Expr, right: Expr, rest: seq<Token>)
    requires Compiles(rx, left) && Compiles(rx, right)
    ensures ParseParen(rx, ShowExpr(Concatenate(left, right)) + rest) == Ok(Parsed(Concatenate(left, right), rest))
    decreases Concatenate(left, right), 0
  {
    var close := [L.CloseParen] + rest;
    var mid := ShowExpr(right) + close;
    var after := [L.Concatenate] + mid;
    ShowConcat(left, right, rest);
    BindingRoundTrip(rx, left, after);
    BindingRoundTrip(rx, right, close);
    TwoOperands(rx, ShowExpr(left) + after, left, mid, right, close);
    ParenAround(rx, ShowExpr(left) + after, Concatenate(left, right), rest);
  }

  /** `left .. right` as a whole expression, when nothing after extends it. */
  lemma TwoOperands(rx: RegexSyntax, ts: seq<Token>, left: Expr, mid: seq<Token>, right: Expr, rest: seq<Token>)
    requires ParseBinding(rx, ts) == Ok(Parsed(left, [L.Concatenate] + mid))
    requires ParseBinding(rx, mid) == Ok(Parsed(right, rest))
    requires !Next(rest, L.Concatenate)
    ensures ParseExpr(rx, ts) == Ok(Parsed(Concatenate(left, right), rest))
  {
    assert ([L.Concatenate] + mid)[1..] == mid;
    F.ConcatTailStops(rx, Concatenate(left, right), rest);
    assert ConcatTail(rx, left, [L.Concatenate] + mid) == Ok(Parsed(Concatenate(left, right), rest));
  }

  /** `name: fn_expr` as a whole expression. */
  lemma BindingExpr(rx: RegexSyntax, name: Bytes, ts: seq<Token>, inner: Expr, rest: seq<Token>)
    requires ParseFn(rx, ts) == Ok(Parsed(inner, rest))
    requires !Next(rest, L.Concatenate)
    ensures ParseExpr(rx, [L.Ident(name), L.Colon] + ts) == Ok(Parsed(Binding(name, inner), rest))
  {
    var all := [L.Ident(name), L.Colon] + ts;
    assert all[2..] == ts;
    assert ParseBinding(rx, all) == Ok(Parsed(Binding(name, inner), rest));
    assert ConcatTail(rx, Binding(name, inner), rest) == Ok(Parsed(Binding(name, inner), rest));
  }

  /** An atom followed by a dot chain, as a whole expression. */
  lemma DotChainIsExpr(rx: RegexSyntax, ts: seq<Token>, base: Expr, after: seq<Token>, e: Expr, rest: seq<Token>)
    requires ParseParen(rx, ts) == Ok(Parsed(base, after))
    requires Next(after, L.Period)
    requires DotTail(rx, base, after) == Ok(Parsed(e, rest))
    requires ts != [] && (ts[0] == L.OpenParen || (|ts| >= 2 && ts[1] == L.Period))
    requires !Next(rest, L.Concatenate)
    ensures ParseExpr(rx, ts) == Ok(Parsed(e, rest))
  {
    assert ParseDotAccess(rx, ts) == Ok(Parsed(e, rest));
    F.FnCallOrDotAccess(rx, ts);
    F.FnExprIsExpr(rx, ts, e, rest);
  }

  /** A printed expression is one `fn_expr` when no `(` or `.` follows. */
  lemma {:induction false} FnRoundTrip(rx: RegexSyntax, e: Expr, rest: seq<Token>)
    requires Compiles(rx, e)
    requires !Next(rest, L.OpenParen) && !Next(rest, L.Period)
    ensures ParseFn(rx, ShowExpr(e) + rest) == Ok(Parsed(e, rest))
    decreases e, 2
  {
    var ts := ShowExpr(e) + rest;
    AtomRoundTrip(rx, e, rest);
    if ShowExpr(e)[0] != L.OpenParen {
      assert ts[1..] == rest;
    }
    F.AtomIsFnExpr(rx, ts, e, rest);
  }

  /** A printed expression is one operand of `..` when no `:`, `(` or `.`
      follows. */
  lemma {:induction false} BindingRoundTrip(rx: RegexSyntax, e: Expr, rest: seq<Token>)
    requires Compiles(rx, e)
    requires !Next(rest, L.Colon) && !Next(rest, L.OpenParen) && !Next(rest, L.Period)
    ensures ParseBinding(rx, ShowExpr(e) + rest) == Ok(Parsed(e, rest))
    decreases e, 3
  {
    var ts := ShowExpr(e) + rest;
    FnRoundTrip(rx, e, rest);
    if ShowExpr(e)[0] != L.OpenParen {
      assert ts[1..] == rest;
    }
  }

  /** A printed expression parses back when nothing after it could
      extend it. */
  lemma {:induction false} ExprRoundTrip(rx: RegexSyntax, e: Expr, rest: seq<Token>)
    requires Compiles(rx, e)
    requires Ends(rest)
    ensures ParseExpr(rx, ShowExpr(e) + rest) == Ok(Parsed(e, rest))
    decreases e, 3
  {
    var ts := ShowExpr(e) + rest;
    FnRoundTrip(rx, e, rest);
    if ShowExpr(e)[0] != L.OpenParen {
      assert ts[1..] == rest;
    }
    F.FnExprIsExpr(rx, ts, e, rest);
  }

  /** One argument, then `,` (another follows) or `)` (the list ends). */
  lemma {:induction false} ArgStep(rx: RegexSyntax, acc: seq<Expr>, a: Expr, after: seq<Token>)
    requires Compiles(rx, a)
    ensures ParseArgs(rx, acc, ShowExpr(a) + ([L.Comma] + after)) == ParseArgs(rx, acc + [a], after)
    ensures ParseArgs(rx, acc, ShowExpr(a) + ([L.CloseParen] + after)) == Ok(Parsed(acc + [a], after))
    decreases a, 4
  {
    var more := [L.Comma] + after;
    ExprRoundTrip(rx, a, more);
    assert more[1..] == after;
    assert ListStep(more, L.CloseParen, L.Comma) == Ok(Parsed(true, after));
    var close := [L.CloseParen] + after;
    ExprRoundTrip(rx, a, close);
    assert close[1..] == after;
    assert ListStep(close, L.CloseParen, L.Comma) == Ok(Parsed(false, after));
  }

  /** A printed argument list parses back to the same arguments. */
  lemma {:induction false} ArgsRoundTrip(rx: RegexSyntax, acc: seq<Expr>, args: seq<Expr>, rest: seq<Token>)
    requires AllCompile(rx, args)
    ensures ParseArgs(rx, acc, ShowArgs(args) + rest) == Ok(Parsed(acc + args, rest))
    decreases args, 5
  {
    var ts := ShowArgs(args) + rest;
    if args == [] {
      assert ts[1..] == rest;
      assert acc + args == acc;
    } else if |args| == 1 {
      assert ts == ShowExpr(args[0]) + ([L.CloseParen] + rest);
      ArgStep(rx, acc, args[0], rest);
      assert acc + [args[0]] == acc + args;
    } else {
      var after := ShowArgs(args[1..]) + rest;
      assert ts == ShowExpr(args[0]) + ([L.Comma] + after);
      ArgStep(rx, acc, args[0], after);
      ArgsRoundTrip(rx, acc + [args[0]], args[1..], rest);
      AppendFirst(acc, args);
    }
  }

  // ---------------------------------------------------------------------
  // Round trip of statements

  /** A printed statement parses back; an expression or `let` statement
      needs a follower that cannot extend its expression. */
  lemma {:induction false} StmtRoundTrip(rx: RegexSyntax, s: Stmt, rest: seq<Token>)
    requires StmtCompiles(rx, s)
    requires RequiresTerminal(s) ==> Ends(rest)
    ensures ParseStmt(rx, ShowStmt(s) + rest) == Ok(Parsed(s, rest))
    decreases s, 1
  {
    match s
    case ExprStmt(e) => ExprStmtRoundTrip(rx, e, rest);
    case Assignment(n, v) => AssignmentRoundTrip(rx, n, v, rest);
    case ForLoop(x, source, body) => ForLoopRoundTrip(rx, x, source, body, rest);
  }

  lemma ExprStmtRoundTrip(rx: RegexSyntax, e: Expr, rest: seq<Token>)
    requires Compiles(rx, e) && Ends(rest)
    ensures ParseStmt(rx, ShowStmt(ExprStmt(e)) + rest) == Ok(Parsed(ExprStmt(e), rest))
  {
    ExprRoundTrip(rx, e, rest);
    F.ExprStmtParse(rx, ShowExpr(e) + rest, e, rest);
  }

  lemma AssignmentRoundTrip(rx: RegexSyntax, n: Bytes, v: Expr, rest: seq<Token>)
    requires Compiles(rx, v) && Ends(rest)
    ensures ParseStmt(rx, ShowStmt(Assignment(n, v)) + rest) == Ok(Parsed(Assignment(n, v), rest))
  {
    assert ShowStmt(Assignment(n, v)) + rest == [L.Let, L.Ident(n), L.Equal] + (ShowExpr(v) + rest);
    ExprRoundTrip(rx, v, rest);
    F.AssignmentParse(rx, n, ShowExpr(v) + rest, v, rest);
  }

  lemma {:induction false} ForLoopRoundTrip(rx: RegexSyntax, x: Bytes, source: Expr, body: seq<Stmt>, rest: seq<Token>)
    requires Compiles(rx, source) && StmtsCompile(rx, body)
    ensures ParseStmt(rx, ShowStmt(ForLoop(x, source, body)) + rest) == Ok(Parsed(ForLoop(x, source, body), rest))
    decreases ForLoop(x, source, body), 0
  {
    var block := [L.OpenBrace] + (ShowStmts(body) + rest);
    assert ShowStmt(ForLoop(x, source, body)) + rest == [L.For, L.Ident(x), L.In] + (ShowExpr(source) + block);
    ExprRoundTrip(rx, source, block);
    assert block[1..] == ShowStmts(body) + rest;
    StmtsRoundTrip(rx, [], body, rest);
    assert [] + body == body;
    assert ParseBody(rx, block) == Ok(Parsed(body, rest));
    F.ForLoopStmt(rx, x, ShowExpr(source) + block, source, block, body, rest);
  }

  /** One statement of a body, then `;`: another follows. */
  lemma {:induction false} StmtThenSemi(rx: RegexSyntax, acc: seq<Stmt>, s: Stmt, after: seq<Token>)
    requires StmtCompiles(rx, s)
    ensures ParseStmts(rx, acc, ShowStmt(s) + ([L.SemiColon] + after)) == ParseStmts(rx, acc + [s], after)
    decreases s, 2
  {
    var more := [L.SemiColon] + after;
    StmtRoundTrip(rx, s, more);
    assert more[1..] == after;
    assert ListStep(more, L.CloseBrace, L.SemiColon) == Ok(Parsed(true, after));
  }

  /** One statement of a body, then `}`: the body ends. */
  lemma {:induction false} StmtThenClose(rx: RegexSyntax, acc: seq<Stmt>, s: Stmt, after: seq<Token>)
    requires StmtCompiles(rx, s)
    ensures ParseStmts(rx, acc, ShowStmt(s) + ([L.CloseBrace] + after)) == Ok(Parsed(acc + [s], after))
    decreases s, 2
  {
    var close := [L.CloseBrace] + after;
    StmtRoundTrip(rx, s, close);
    assert close[1..] == after;
    assert ListStep(close, L.CloseBrace, L.SemiColon) == Ok(Parsed(false, after));
  }

  /** A printed body is its first statement, then `;` and the rest, or `}`. */
  lemma ShowStmtsSplit(ss: seq<Stmt>, rest: seq<Token>)
    requires ss != []
    ensures |ss| == 1 ==> ShowStmts(ss) + rest == ShowStmt(ss[0]) + ([L.CloseBrace] + rest)
    ensures |ss| > 1 ==> ShowStmts(ss) + rest == ShowStmt(ss[0]) + ([L.SemiColon] + (ShowStmts(ss[1..]) + rest))
  {
    var head := ShowStmt(ss[0]);
    if |ss| == 1 {
      assert ShowStmts(ss) == head + [L.CloseBrace];
      Assoc(head, [L.CloseBrace], rest);
    } else {
      var tail := ShowStmts(ss[1..]);
      assert ShowStmts(ss) == head + [L.SemiColon] + tail;
      Assoc(head, [L.SemiColon], tail);
      Assoc(head + [L.SemiColon], tail, rest);
      Assoc([L.SemiColon], tail, rest);
      Assoc(head, [L.SemiColon], tail + rest);
    }
  }

  lemma Assoc<T>(a: seq<T>, b: seq<T>, c: seq<T>)
    ensures a + b + c == a + (b + c)
  {
  }

  /** The first of several printed statements parses and hands over to the rest. */
  lemma {:induction false} StmtsMore(rx: RegexSyntax, acc: seq<Stmt>, ss: seq<Stmt>, rest: seq<Token>)
    requires |ss| > 1 && StmtCompiles(rx, ss[0])
    requires ParseStmts(rx, acc + [ss[0]], ShowStmts(ss[1..]) + rest) == Ok(Parsed(acc + [ss[0]] + ss[1..], rest))
    ensures ParseStmts(rx, acc, ShowStmts(ss) + rest) == Ok(Parsed(acc + ss, rest))
    decreases ss, 2
  {
    var after := ShowStmts(ss[1..]) + rest;
    ShowStmtsSplit(ss, rest);
    StmtThenSemi(rx, acc, ss[0], after);
    AppendFirst(acc, ss);
  }

  /** The last printed statement parses and the closing brace ends the body. */
  lemma {:induction false} StmtsLast(rx: RegexSyntax, acc: seq<Stmt>, ss: seq<Stmt>, rest: seq<Token>)
    requires |ss| == 1 && StmtCompiles(rx, ss[0])
    ensures ParseStmts(rx, acc, ShowStmts(ss) + rest) == Ok(Parsed(acc + ss, rest))
    decreases ss, 2
  {
    ShowStmtsSplit(ss, rest);
    StmtThenClose(rx, acc, ss[0], rest);
    AppendOnly(acc, ss);
  }

  /** A printed body parses back to the same statements. */
  lemma {:induction false} StmtsRoundTrip(rx: RegexSyntax, acc: seq<Stmt>, ss: seq<Stmt>, rest: seq<Token>)
    requires StmtsCompile(rx, ss)
    ensures ParseStmts(rx, acc, ShowStmts(ss) + rest) == Ok(Parsed(acc + ss, rest))
    decreases ss, 3
  {
    if ss == [] {
      var ts := ShowStmts(ss) + rest;
      assert ts == [L.CloseBrace] + rest;
      assert ts[1..] == rest;
      assert acc + ss == acc;
    } else if |ss| == 1 {
      StmtsLast(rx, acc, ss, rest);
    } else {
      StmtsRoundTrip(rx, acc + [ss[0]], ss[1..], rest);
      StmtsMore(rx, acc, ss, rest);
    }
  }

  // ---------------------------------------------------------------------
  // Round trip of top-level items and scripts

  lemma ImportRoundTrip(names: seq<Bytes>, source: Bytes, rest: seq<Token>)
    ensures ParseImport([L.OpenBrace] + ShowIdents(names) + [L.From, L.StringLiteral(source), L.SemiColon] + rest)
            == Ok(Parsed(ImportDecl(names, source), rest))
  {
    var tail := [L.From, L.StringLiteral(source), L.SemiColon] + rest;
    var ts := [L.OpenBrace] + ShowIdents(names) + [L.From, L.StringLiteral(source), L.SemiColon] + rest;
    assert ts[1..] == ShowIdents(names) + tail;
    IdentsRoundTrip(names, tail);
    ImportTail(source, rest);
  }

  /** The identifier list of an import reads back, whatever follows it. */
  lemma IdentsRoundTrip(names: seq<Bytes>, tail: seq<Token>)
    ensures ParseIdents([], ShowIdents(names) + tail) == Ok(Parsed(names, tail))
  {
    var none: seq<Bytes> := [];
    if names == [] {
      assert ShowIdents(names) + tail == [L.CloseBrace] + tail;
      F.TakeUntilEmpty(none, tail);
    } else {
      assert ShowIdents(names) + tail == F.Listed(names) + F.Closing(false) + tail;
      F.TakeUntilItems(none, names, false, tail);
      assert none + names == names;
    }
  }

  lemma ImportTail(source: Bytes, rest: seq<Token>)
    ensures var tail := [L.From, L.StringLiteral(source), L.SemiColon] + rest;
      Take(tail, L.From) == Ok(Parsed((), tail[1..])) &&
      TakeStringLit(tail[1..]) == Ok(Parsed(source, [L.SemiColon] + rest)) &&
      Take([L.SemiColon] + rest, L.SemiColon) == Ok(Parsed((), rest))
  {
    var tail := [L.From, L.StringLiteral(source), L.SemiColon] + rest;
    assert tail[1..] == [L.StringLiteral(source), L.SemiColon] + rest;
    assert tail[1..][1..] == [L.SemiColon] + rest;
    assert ([L.SemiColon] + rest)[1..] == rest;
  }

  lemma DirectiveRoundTrip(name: Bytes, value: Bytes, rest: seq<Token>)
    ensures ParseDirective([L.Ident(name), L.Equal, L.StringLiteral(value), L.SemiColon] + rest)
            == Ok(Parsed(DirectiveDecl(name, value), rest))
  {
    var d := [L.Ident(name), L.Equal, L.StringLiteral(value), L.SemiColon] + rest;
    assert d[1..] == [L.Equal, L.StringLiteral(value), L.SemiColon] + rest;
    assert d[1..][1..] == [L.StringLiteral(value), L.SemiColon] + rest;
    assert d[1..][1..][1..] == [L.SemiColon] + rest;
    assert ([L.SemiColon] + rest)[1..] == rest;
  }

  lemma StatementRoundTrip(rx: RegexSyntax, s: Stmt, rest: seq<Token>)
    requires StmtCompiles(rx, s)
    ensures ParseTopLevel(rx, ShowTopLevel(Statement(s)) + rest) == Ok(Parsed(Some(Statement(s)), rest))
  {
    var ts := ShowTopLevel(Statement(s)) + rest;
    if RequiresTerminal(s) {
      var semi := [L.SemiColon] + rest;
      assert ts == ShowStmt(s) + semi;
      StmtRoundTrip(rx, s, semi);
      assert semi[1..] == rest;
      F.TerminalRequired(rx, ts, s, semi);
    } else {
      StmtRoundTrip(rx, s, rest);
      F.TerminalRequired(rx, ts, s, rest);
    }
  }

  /** A printed top-level item parses back, whatever follows it. */
  lemma TopLevelRoundTrip(rx: RegexSyntax, tl: TopLevel, rest: seq<Token>)
    requires TopLevelCompiles(rx, tl)
    ensures ParseTopLevel(rx, ShowTopLevel(tl) + rest) == Ok(Parsed(Some(tl), rest))
  {
    match tl
    case Import(d) => ImportItemRoundTrip(rx, d, rest);
    case Directive(d) => DirectiveItemRoundTrip(rx, d, rest);
    case Statement(s) => StatementRoundTrip(rx, s, rest);
  }

  lemma ImportItemRoundTrip(rx: RegexSyntax, d: ImportDecl, rest: seq<Token>)
    ensures ParseTopLevel(rx, ShowTopLevel(Import(d)) + rest) == Ok(Parsed(Some(Import(d)), rest))
  {
    var ts := ShowTopLevel(Import(d)) + rest;
    assert ts[1..] == [L.OpenBrace] + ShowIdents(d.idents) + [L.From, L.StringLiteral(d.source), L.SemiColon] + rest;
    ImportRoundTrip(d.idents, d.source, rest);
    F.ImportItem(rx, ts, d, rest);
  }

  lemma DirectiveItemRoundTrip(rx: RegexSyntax, d: DirectiveDecl, rest: seq<Token>)
    ensures ParseTopLevel(rx, ShowTopLevel(Directive(d)) + rest) == Ok(Parsed(Some(Directive(d)), rest))
  {
    var ts := ShowTopLevel(Directive(d)) + rest;
    assert ts[1..] == [L.Ident(d.name), L.Equal, L.StringLiteral(d.value), L.SemiColon] + rest;
    DirectiveRoundTrip(d.name, d.value, rest);
    F.DirectiveItem(rx, ts, d, rest);
  }

  lemma {:induction false} TopLevelsRoundTrip(rx: RegexSyntax, acc: seq<TopLevel>, tls: seq<TopLevel>)
    requires ScriptCompiles(rx, tls)
    ensures ParseTopLevels(rx, acc, ShowTopLevels(tls)) == Ok(acc + tls)
    decreases |tls|
  {
    var ts := ShowTopLevels(tls);
    if tls == [] {
      F.TopLevelsStep(rx, acc, ts, ParseTopLevel(rx, ts));
      assert acc + tls == acc;
    } else {
      var after := ShowTopLevels(tls[1..]);
      assert TopLevelCompiles(rx, tls[0]);
      TopLevelRoundTrip(rx, tls[0], after);
      F.TopLevelsStep(rx, acc, ts, ParseTopLevel(rx, ts));
      assert ScriptCompiles(rx, tls[1..]) by {
        forall i | 0 <= i < |tls[1..]|
          ensures TopLevelCompiles(rx, tls[1..][i])
        {
          assert tls[1..][i] == tls[i + 1];
        }
      }
      TopLevelsRoundTrip(rx, acc + [tls[0]], tls[1..]);
      AppendFirst(acc, tls);
    }
  }

  /** Printing a script and parsing the tokens gives the script back. */
  lemma ScriptRoundTrip(rx: RegexSyntax, script: Script)
    requires ScriptCompiles(rx, script.topLevels)
    ensures ParseTokens(rx, ShowScript(script)) == Ok(script)
  {
    TopLevelsRoundTrip(rx, [], script.topLevels);
    assert [] + script.topLevels == script.topLevels;
  }

  /** Printing a script, rendering the tokens as text, lexing and parsing
      give the script back, when every token can be written as text. */
  lemma SourceRoundTrip(rx: RegexSyntax, script: Script)
    requires ScriptCompiles(rx, script.topLevels)
    requires forall i :: 0 <= i < |ShowScript(script)| ==> L.Lexable(ShowScript(script)[i])
    ensures ParseSource(rx, L.Render(ShowScript(script))) == Ok(script)
  {
    L.TokenizeRender(ShowScript(script));
    ScriptRoundTrip(rx, script);
  }
}
