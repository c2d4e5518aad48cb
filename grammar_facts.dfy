/** Properties of the script grammar that cli/src/refactorings/parser/mod.rs
    and its tests promise: where `;` is required, the associativity of
    `..`, what a binding wraps, how a dot chain ends, how `take_until`
    splits a list, and that a parse keeps its items in order. */
module GrammarFacts {
  import opened Basics
  import opened Ast
  import L = Lexer
  import opened Grammar

  // ---------------------------------------------------------------------
  // Statement terminators

  /** At top level, an expression or `let` statement is accepted only when
      `;` follows it, and the `;` is consumed; a for-loop is accepted with
      whatever follows its body left in place. */
  lemma TerminalRequired(rx: RegexSyntax, ts: seq<Token>, s: Stmt, rest: seq<Token>)
    requires ts != [] && ts[0] != L.Import && ts[0] != L.Directive
    requires ParseStmt(rx, ts) == Ok(Parsed(s, rest))
    ensures !RequiresTerminal(s) ==> ParseTopLevel(rx, ts) == Ok(Parsed(Some(Statement(s)), rest))
    ensures RequiresTerminal(s) && Next(rest, L.SemiColon) ==>
      ParseTopLevel(rx, ts) == Ok(Parsed(Some(Statement(s)), rest[1..]))
    ensures RequiresTerminal(s) && !Next(rest, L.SemiColon) ==>
      ParseTopLevel(rx, ts) == Err(ExpectedToken(L.SemiColon, Front(rest)))
  {
  }

  /** An `import` keyword followed by an import declaration. */
  lemma ImportItem(rx: RegexSyntax, ts: seq<Token>, d: ImportDecl, rest: seq<Token>)
    requires ts != [] && ts[0] == L.Import
    requires ParseImport(ts[1..]) == Ok(Parsed(d, rest))
    ensures ParseTopLevel(rx, ts) == Ok(Parsed(Some(Import(d)), rest))
  {
  }

  /** An `@` marker followed by a directive. */
  lemma DirectiveItem(rx: RegexSyntax, ts: seq<Token>, d: DirectiveDecl, rest: seq<Token>)
    requires ts != [] && ts[0] == L.Directive
    requires ParseDirective(ts[1..]) == Ok(Parsed(d, rest))
    ensures ParseTopLevel(rx, ts) == Ok(Parsed(Some(Directive(d)), rest))
  {
  }

  // One level of the expression grammar at a time: the parse functions
  // are mutually recursive, so each step is unfolded on its own.

  /** An atom not followed by `.` is a whole `fn_expr`. */
  lemma AtomIsFnExpr(rx: RegexSyntax, ts: seq<Token>, e: Expr, rest: seq<Token>)
    requires ParseParen(rx, ts) == Ok(Parsed(e, rest))
    requires !(|ts| >= 2 && ts[0].Ident? && ts[1] == L.OpenParen)
    requires !Next(rest, L.Period)
    ensures ParseFn(rx, ts) == Ok(Parsed(e, rest))
  {
    assert DotTail(rx, e, rest) == Ok(Parsed(e, rest));
    assert ParseDotAccess(rx, ts) == Ok(Parsed(e, rest));
  }

  /** A `fn_expr` that is not a binding and not followed by `..` is a
      whole expression. */
  lemma FnExprIsExpr(rx: RegexSyntax, ts: seq<Token>, e: Expr, rest: seq<Token>)
    requires ParseFn(rx, ts) == Ok(Parsed(e, rest))
    requires !(|ts| >= 2 && ts[0].Ident? && ts[1] == L.Colon)
    requires !Next(rest, L.Concatenate)
    ensures ParseExpr(rx, ts) == Ok(Parsed(e, rest))
  {
    BindingWrapsFnExpr(rx, ts);
    ConcatTailStops(rx, e, rest);
    assert ParseConcat(rx, ts) == Ok(Parsed(e, rest));
  }

  /** With no `..` next the infix loop stops at once. */
  lemma ConcatTailStops(rx: RegexSyntax, e: Expr, rest: seq<Token>)
    requires !Next(rest, L.Concatenate)
    ensures ConcatTail(rx, e, rest) == Ok(Parsed(e, rest))
  {
  }

  /** An expression statement. */
  lemma ExprStmtParse(rx: RegexSyntax, ts: seq<Token>, e: Expr, rest: seq<Token>)
    requires ts != [] && ts[0] != L.Let && ts[0] != L.For
    requires ParseExpr(rx, ts) == Ok(Parsed(e, rest))
    ensures ParseStmt(rx, ts) == Ok(Parsed(ExprStmt(e), rest))
  {
  }

  /** `let name = value`. */
  lemma AssignmentParse(rx: RegexSyntax, name: Bytes, ts: seq<Token>, value: Expr, rest: seq<Token>)
    requires ParseExpr(rx, ts) == Ok(Parsed(value, rest))
    ensures ParseStmt(rx, [L.Let, L.Ident(name), L.Equal] + ts) == Ok(Parsed(Assignment(name, value), rest))
  {
    var all := [L.Let, L.Ident(name), L.Equal] + ts;
    assert all[1..] == [L.Ident(name), L.Equal] + ts;
    assert ([L.Ident(name), L.Equal] + ts)[1..] == [L.Equal] + ts;
    assert ([L.Equal] + ts)[1..] == ts;
    assert TakeIdent(all[1..]) == Ok(Parsed(name, [L.Equal] + ts));
  }

  /** An expression at top level is a statement that needs its `;`. */
  lemma ExprAtTopLevel(rx: RegexSyntax, ts: seq<Token>, e: Expr, rest: seq<Token>)
    requires ts != [] && ts[0] != L.Import && ts[0] != L.Directive && ts[0] != L.Let && ts[0] != L.For
    requires ParseExpr(rx, ts) == Ok(Parsed(e, rest))
    ensures Next(rest, L.SemiColon) ==>
      ParseTopLevel(rx, ts) == Ok(Parsed(Some(Statement(ExprStmt(e))), rest[1..]))
    ensures !Next(rest, L.SemiColon) ==>
      ParseTopLevel(rx, ts) == Err(ExpectedToken(L.SemiColon, Front(rest)))
  {
    assert ParseStmt(rx, ts) == Ok(Parsed(ExprStmt(e), rest));
  }

  /** Tokens holding exactly one top-level item parse to a script of it. */
  lemma SoleTopLevel(rx: RegexSyntax, ts: seq<Token>, tl: TopLevel)
    requires ParseTopLevel(rx, ts) == Ok(Parsed(Some(tl), []))
    ensures ParseTokens(rx, ts) == Ok(Script([tl]))
  {
    assert ParseTopLevel(rx, []) == Ok(Parsed(None, []));
    assert ParseTopLevels(rx, [tl], []) == Ok([tl]);
    var none: seq<TopLevel> := [];
    assert none + [tl] == [tl];
    assert ParseTopLevels(rx, none, ts) == Ok([tl]);
  }

  /** `for name in source { body }`. */
  lemma ForLoopStmt(rx: RegexSyntax, name: Bytes, ts: seq<Token>, source: Expr, rest: seq<Token>,
                    body: seq<Stmt>, after: seq<Token>)
    requires ParseExpr(rx, ts) == Ok(Parsed(source, rest))
    requires ParseBody(rx, rest) == Ok(Parsed(body, after))
    ensures ParseStmt(rx, [L.For, L.Ident(name), L.In] + ts) == Ok(Parsed(ForLoop(name, source, body), after))
  {
    var all := [L.For, L.Ident(name), L.In] + ts;
    assert all[0] == L.For;
    ForHeader(name, ts);
  }

  lemma ForHeader(name: Bytes, ts: seq<Token>)
    ensures var all := [L.For, L.Ident(name), L.In] + ts;
      TakeIdent(all[1..]) == Ok(Parsed(name, [L.In] + ts)) && Take([L.In] + ts, L.In) == Ok(Parsed((), ts))
  {
    var all := [L.For, L.Ident(name), L.In] + ts;
    assert all[1..] == [L.Ident(name), L.In] + ts;
    assert ([L.Ident(name), L.In] + ts)[1..] == [L.In] + ts;
    assert ([L.In] + ts)[1..] == ts;
  }

  /** The tokens of `foo()` do not parse: the call lacks its `;`. */
  lemma CallWithoutSemicolon(rx: RegexSyntax)
    ensures ParseTokens(rx, [L.Ident("foo"), L.OpenParen, L.CloseParen])
            == Err(ExpectedToken(L.SemiColon, None))
  {
    var ts := [L.Ident("foo"), L.OpenParen, L.CloseParen];
    assert ts[2..] == [L.CloseParen];
    assert ParseArgs(rx, [], ts[2..]) == Ok(Parsed([], []));
    assert ParseFn(rx, ts) == Ok(Parsed(FnCall("foo", []), []));
    FnExprIsExpr(rx, ts, FnCall("foo", []), []);
    ExprAtTopLevel(rx, ts, FnCall("foo", []), []);
  }

  /** The tokens of `for foo in bar() {}` parse with no `;` after the loop. */
  lemma ForLoopWithoutSemicolon(rx: RegexSyntax)
    ensures ParseTokens(rx, [L.For, L.Ident("foo"), L.In, L.Ident("bar"), L.OpenParen,
                             L.CloseParen, L.OpenBrace, L.CloseBrace])
            == Ok(Script([Statement(ForLoop("foo", FnCall("bar", []), []))]))
  {
    var ts := [L.For, L.Ident("foo"), L.In, L.Ident("bar"), L.OpenParen,
               L.CloseParen, L.OpenBrace, L.CloseBrace];
    var body := [L.OpenBrace, L.CloseBrace];
    var call := [L.Ident("bar"), L.OpenParen, L.CloseParen] + body;
    var loop := ForLoop("foo", FnCall("bar", []), []);
    CallBeforeBody(rx, body);
    EmptyBody(rx);
    assert ts == [L.For, L.Ident("foo"), L.In] + call;
    ForLoopStmt(rx, "foo", call, FnCall("bar", []), body, [], []);
    TerminalRequired(rx, ts, loop, []);
    SoleTopLevel(rx, ts, Statement(loop));
  }

  /** `bar()` is a whole expression when a block follows it. */
  lemma CallBeforeBody(rx: RegexSyntax, body: seq<Token>)
    requires Next(body, L.OpenBrace)
    ensures ParseExpr(rx, [L.Ident("bar"), L.OpenParen, L.CloseParen] + body) == Ok(Parsed(FnCall("bar", []), body))
  {
    var call := [L.Ident("bar"), L.OpenParen, L.CloseParen] + body;
    assert call[2..] == [L.CloseParen] + body;
    assert ([L.CloseParen] + body)[1..] == body;
    assert ParseArgs(rx, [], call[2..]) == Ok(Parsed([], body));
    assert ParseFn(rx, call) == Ok(Parsed(FnCall("bar", []), body));
    FnExprIsExpr(rx, call, FnCall("bar", []), body);
  }

  /** `{}` is the empty block. */
  lemma EmptyBody(rx: RegexSyntax)
    ensures ParseBody(rx, [L.OpenBrace, L.CloseBrace]) == Ok(Parsed([], []))
  {
    var body := [L.OpenBrace, L.CloseBrace];
    assert ParseStmts(rx, [], body[1..]) == Ok(Parsed([], []));
  }

  // ---------------------------------------------------------------------
  // `..` is left-associative

  /** `.. b .. c ...`: one `..` and one identifier per name. */
  function ConcatOperands(names: seq<Bytes>): (r: seq<Token>)
    ensures |r| == 2 * |names|
    ensures names != [] ==> r[0] == L.Concatenate
  {
    if names == [] then [] else [L.Concatenate, L.Ident(names[0])] + ConcatOperands(names[1..])
  }

  /** `e` concatenated with each name in turn, grouping to the left. */
  function FoldConcat(e: Expr, names: seq<Bytes>): Expr
    decreases |names|
  {
    if names == [] then e else FoldConcat(Concatenate(e, Ident(names[0])), names[1..])
  }

  /** A lone identifier is one operand, when what follows it cannot
      extend it into a binding, a call or a dot chain. */
  lemma IdentOperand(rx: RegexSyntax, name: Bytes, rest: seq<Token>)
    requires !Next(rest, L.Colon) && !Next(rest, L.OpenParen) && !Next(rest, L.Period)
    ensures ParseFn(rx, [L.Ident(name)] + rest) == Ok(Parsed(Ident(name), rest))
    ensures ParseBinding(rx, [L.Ident(name)] + rest) == Ok(Parsed(Ident(name), rest))
  {
    var ts := [L.Ident(name)] + rest;
    assert ts[1..] == rest;
    assert |ts| >= 2 ==> ts[1] == rest[0];
    assert ParseParen(rx, ts) == Ok(Parsed(Ident(name), rest));
    AtomIsFnExpr(rx, ts, Ident(name), rest);
  }

  lemma {:induction false} ConcatTailFolds(rx: RegexSyntax, e: Expr, names: seq<Bytes>, rest: seq<Token>)
    requires !Next(rest, L.Colon) && !Next(rest, L.OpenParen) && !Next(rest, L.Period)
    requires !Next(rest, L.Concatenate)
    ensures ConcatTail(rx, e, ConcatOperands(names) + rest) == Ok(Parsed(FoldConcat(e, names), rest))
    decreases |names|
  {
    if names == [] {
      assert ConcatOperands(names) + rest == rest;
    } else {
      var after := ConcatOperands(names[1..]) + rest;
      OperandsCons(names, rest);
      OperandsThen(names[1..], rest);
      ConcatStep(rx, e, names[0], after);
      ConcatTailFolds(rx, Concatenate(e, Ident(names[0])), names[1..], rest);
    }
  }

  lemma OperandsCons(names: seq<Bytes>, rest: seq<Token>)
    requires names != []
    ensures ConcatOperands(names) + rest == [L.Concatenate, L.Ident(names[0])] + (ConcatOperands(names[1..]) + rest)
  {
  }

  /** What follows an operand is `..` or what followed the whole chain. */
  lemma OperandsThen(names: seq<Bytes>, rest: seq<Token>)
    requires !Next(rest, L.Colon) && !Next(rest, L.OpenParen) && !Next(rest, L.Period)
    ensures var after := ConcatOperands(names) + rest;
      !Next(after, L.Colon) && !Next(after, L.OpenParen) && !Next(after, L.Period)
  {
    if names == [] {
      assert ConcatOperands(names) + rest == rest;
    }
  }

  /** One `.. name`: the name becomes the right operand and the loop goes
      on. */
  lemma ConcatStep(rx: RegexSyntax, e: Expr, name: Bytes, after: seq<Token>)
    requires !Next(after, L.Colon) && !Next(after, L.OpenParen) && !Next(after, L.Period)
    ensures ConcatTail(rx, e, [L.Concatenate, L.Ident(name)] + after)
            == ConcatTail(rx, Concatenate(e, Ident(name)), after)
  {
    var ts := [L.Concatenate, L.Ident(name)] + after;
    assert ts[1..] == [L.Ident(name)] + after;
    IdentOperand(rx, name, after);
  }

  /** `a .. b .. c` parses as `(a .. b) .. c`: the operands fold to the left. */
  lemma ConcatLeftAssoc(rx: RegexSyntax, first: Bytes, names: seq<Bytes>, rest: seq<Token>)
    requires !Next(rest, L.Colon) && !Next(rest, L.OpenParen) && !Next(rest, L.Period)
    requires !Next(rest, L.Concatenate)
    ensures ParseExpr(rx, [L.Ident(first)] + ConcatOperands(names) + rest)
            == Ok(Parsed(FoldConcat(Ident(first), names), rest))
  {
    var after := ConcatOperands(names) + rest;
    if names == [] {
      assert after == rest;
    }
    var ts := [L.Ident(first)] + after;
    assert [L.Ident(first)] + ConcatOperands(names) + rest == ts;
    IdentOperand(rx, first, after);
    ConcatTailFolds(rx, Ident(first), names, rest);
    assert ParseConcat(rx, ts) == ConcatTail(rx, Ident(first), after);
  }

  lemma ConcatOfThree(rx: RegexSyntax)
    ensures ParseExpr(rx, [L.Ident("a"), L.Concatenate, L.Ident("b"), L.Concatenate, L.Ident("c")])
            == Ok(Parsed(Concatenate(Concatenate(Ident("a"), Ident("b")), Ident("c")), []))
  {
    var names: seq<Bytes> := ["b", "c"];
    assert ConcatOperands(names) == [L.Concatenate, L.Ident("b"), L.Concatenate, L.Ident("c")] by {
      assert names[1..] == ["c"];
      assert ConcatOperands(["c"]) == [L.Concatenate, L.Ident("c")];
    }
    assert FoldConcat(Ident("a"), names) == Concatenate(Concatenate(Ident("a"), Ident("b")), Ident("c")) by {
      assert names[1..] == ["c"];
      assert FoldConcat(Concatenate(Ident("a"), Ident("b")), ["c"]) == Concatenate(Concatenate(Ident("a"), Ident("b")), Ident("c"));
    }
    ConcatLeftAssoc(rx, "a", names, []);
    assert [L.Ident("a")] + ConcatOperands(names) + [] == [L.Ident("a"), L.Concatenate, L.Ident("b"), L.Concatenate, L.Ident("c")];
  }

  // ---------------------------------------------------------------------
  // Bindings

  /** `name:` is a binding only when an identifier and a colon come next;
      it then wraps exactly one `fn_expr` operand. */
  lemma BindingWrapsFnExpr(rx: RegexSyntax, ts: seq<Token>)
    ensures |ts| >= 2 && ts[0].Ident? && ts[1] == L.Colon && ParseFn(rx, ts[2..]).Ok? ==>
      ParseBinding(rx, ts) ==
        Ok(Parsed(Binding(ts[0].name, ParseFn(rx, ts[2..]).value.value), ParseFn(rx, ts[2..]).value.rest))
    ensures |ts| >= 2 && ts[0].Ident? && ts[1] == L.Colon && ParseFn(rx, ts[2..]).Err? ==>
      ParseBinding(rx, ts) == Err(ParseFn(rx, ts[2..]).error)
    ensures !(|ts| >= 2 && ts[0].Ident? && ts[1] == L.Colon) ==>
      ParseBinding(rx, ts) == ParseFn(rx, ts)
  {
  }

  /** The dot-chain loop only ever wraps its start in `DotAccess` and
      `MethodCall` nodes. */
  lemma {:induction false} DotTailShape(rx: RegexSyntax, e: Expr, ts: seq<Token>)
    ensures var r := DotTail(rx, e, ts);
      r.Ok? ==> r.value.value == e || r.value.value.DotAccess? || r.value.value.MethodCall?
    decreases |ts|
  {
    if Next(ts, L.Period) {
      var prop := TakeIdent(ts[1..]);
      if prop.Ok? && !Next(prop.value.rest, L.OpenParen) {
        DotTailShape(rx, DotAccess(e, prop.value.value), prop.value.rest);
      }
    }
  }

  /** Without parentheses around it, a `fn_expr` is never a concatenation
      or a binding: those need `( )` to become the operand of a binding. */
  lemma FnExprIsNotConcat(rx: RegexSyntax, ts: seq<Token>)
    requires !Next(ts, L.OpenParen)
    ensures var r := ParseFn(rx, ts);
      r.Ok? ==> !r.value.value.Concatenate? && !r.value.value.Binding?
  {
    if !(|ts| >= 2 && ts[0].Ident? && ts[1] == L.OpenParen) {
      var base := ParseParen(rx, ts);
      if base.Ok? {
        DotTailShape(rx, base.value.value, base.value.rest);
      }
    }
  }

  /** `a: b .. c` binds only `b`: the concatenation is outside the binding. */
  lemma BindingInsideConcat(rx: RegexSyntax)
    ensures ParseExpr(rx, [L.Ident("a"), L.Colon, L.Ident("b"), L.Concatenate, L.Ident("c")])
            == Ok(Parsed(Concatenate(Binding("a", Ident("b")), Ident("c")), []))
  {
    var ts := [L.Ident("a"), L.Colon, L.Ident("b"), L.Concatenate, L.Ident("c")];
    var tail := [L.Concatenate, L.Ident("c")];
    var bound := Binding("a", Ident("b"));
    assert ts == [L.Ident("a"), L.Colon, L.Ident("b")] + tail;
    BindingOfIdent(rx, "a", "b", tail);
    assert tail == [L.Concatenate, L.Ident("c")] + [];
    ConcatStep(rx, bound, "c", []);
    assert ConcatTail(rx, Concatenate(bound, Ident("c")), []) == Ok(Parsed(Concatenate(bound, Ident("c")), []));
  }

  /** `name: inner` binds a plain identifier. */
  lemma BindingOfIdent(rx: RegexSyntax, name: Bytes, inner: Bytes, rest: seq<Token>)
    requires !Next(rest, L.Colon) && !Next(rest, L.OpenParen) && !Next(rest, L.Period)
    ensures ParseBinding(rx, [L.Ident(name), L.Colon, L.Ident(inner)] + rest)
            == Ok(Parsed(Binding(name, Ident(inner)), rest))
  {
    var ts := [L.Ident(name), L.Colon, L.Ident(inner)] + rest;
    assert ts[2..] == [L.Ident(inner)] + rest;
    IdentOperand(rx, inner, rest);
  }

  // ---------------------------------------------------------------------
  // Calls and dot chains

  /** `name (` starts a function call whose arguments are the
      comma-separated list up to `)`; anything else falls through to the
      dot chain. */
  lemma FnCallOrDotAccess(rx: RegexSyntax, ts: seq<Token>)
    ensures |ts| >= 2 && ts[0].Ident? && ts[1] == L.OpenParen && ParseArgs(rx, [], ts[2..]).Ok? ==>
      ParseFn(rx, ts) ==
        Ok(Parsed(FnCall(ts[0].name, ParseArgs(rx, [], ts[2..]).value.value), ParseArgs(rx, [], ts[2..]).value.rest))
    ensures |ts| >= 2 && ts[0].Ident? && ts[1] == L.OpenParen && ParseArgs(rx, [], ts[2..]).Err? ==>
      ParseFn(rx, ts) == Err(ParseArgs(rx, [], ts[2..]).error)
    ensures !(|ts| >= 2 && ts[0].Ident? && ts[1] == L.OpenParen) ==>
      ParseFn(rx, ts) == ParseDotAccess(rx, ts)
  {
  }

  /** `.a .b ...`: one period and one field name per name. */
  function Fields(names: seq<Bytes>): (r: seq<Token>)
    ensures |r| == 2 * |names|
    ensures names != [] ==> r[0] == L.Period
  {
    if names == [] then [] else [L.Period, L.Ident(names[0])] + Fields(names[1..])
  }

  function FoldDot(e: Expr, names: seq<Bytes>): Expr
    decreases |names|
  {
    if names == [] then e else FoldDot(DotAccess(e, names[0]), names[1..])
  }

  /** Each `.field` wraps the chain so far in a `DotAccess` and the chain
      goes on. */
  lemma {:induction false} DotChain(rx: RegexSyntax, e: Expr, names: seq<Bytes>, rest: seq<Token>)
    requires !Next(rest, L.Period) && !Next(rest, L.OpenParen)
    ensures DotTail(rx, e, Fields(names) + rest) == Ok(Parsed(FoldDot(e, names), rest))
    decreases |names|
  {
    if names == [] {
      assert Fields(names) + rest == rest;
    } else {
      FieldsCons(names, rest);
      FieldsNoParen(names[1..], rest);
      DotStep(rx, e, names[0], Fields(names[1..]) + rest);
      DotChain(rx, DotAccess(e, names[0]), names[1..], rest);
    }
  }

  lemma FieldsCons(names: seq<Bytes>, rest: seq<Token>)
    requires names != []
    ensures Fields(names) + rest == [L.Period, L.Ident(names[0])] + (Fields(names[1..]) + rest)
  {
  }

  /** One `.name` with no `(` after it: a field access, and the chain goes
      on. */
  lemma DotStep(rx: RegexSyntax, e: Expr, name: Bytes, after: seq<Token>)
    requires !Next(after, L.OpenParen)
    ensures DotTail(rx, e, [L.Period, L.Ident(name)] + after) == DotTail(rx, DotAccess(e, name), after)
  {
    var ts := [L.Period, L.Ident(name)] + after;
    assert ts[1..] == [L.Ident(name)] + after;
    assert ([L.Ident(name)] + after)[1..] == after;
  }

  /** Field names, then what the chain ends at: no `(` comes first. */
  lemma FieldsNoParen(more: seq<Bytes>, rest: seq<Token>)
    requires !Next(rest, L.OpenParen)
    ensures !Next(Fields(more) + rest, L.OpenParen)
  {
    if more == [] {
      assert Fields(more) + rest == rest;
    }
  }

  /** `.m(args)` makes a `MethodCall` and ends the chain: the tokens after
      its `)` are left for the caller, even when another `.` comes next. */
  lemma MethodCallEndsChain(rx: RegexSyntax, e: Expr, member: Bytes, ts: seq<Token>)
    ensures ParseArgs(rx, [], ts).Ok? ==>
      DotTail(rx, e, [L.Period, L.Ident(member), L.OpenParen] + ts) ==
        Ok(Parsed(MethodCall(e, member, ParseArgs(rx, [], ts).value.value), ParseArgs(rx, [], ts).value.rest))
    ensures ParseArgs(rx, [], ts).Err? ==>
      DotTail(rx, e, [L.Period, L.Ident(member), L.OpenParen] + ts) == Err(ParseArgs(rx, [], ts).error)
  {
    var all := [L.Period, L.Ident(member), L.OpenParen] + ts;
    assert all[1..] == [L.Ident(member), L.OpenParen] + ts;
    assert ([L.Ident(member), L.OpenParen] + ts)[1..] == [L.OpenParen] + ts;
    assert TakeIdent(all[1..]) == Ok(Parsed(member, [L.OpenParen] + ts));
    assert ([L.OpenParen] + ts)[1..] == ts;
  }

  /** `foo.bar.baz;` parses as a chain of two field accesses (for any three
      names). */
  lemma ChainedDotAccess(rx: RegexSyntax, obj: Bytes, first: Bytes, second: Bytes)
    ensures ParseTokens(rx, [L.Ident(obj), L.Period, L.Ident(first), L.Period, L.Ident(second), L.SemiColon])
            == Ok(Script([Statement(ExprStmt(DotAccess(DotAccess(Ident(obj), first), second)))]))
  {
    var ts := [L.Ident(obj), L.Period, L.Ident(first), L.Period, L.Ident(second), L.SemiColon];
    var e := DotAccess(DotAccess(Ident(obj), first), second);
    var after := [L.Period, L.Ident(first), L.Period, L.Ident(second), L.SemiColon];
    TwoFields(obj, first, second);
    DotChain(rx, Ident(obj), [first, second], [L.SemiColon]);
    assert ts == [L.Ident(obj)] + after;
    IdentThenDots(rx, obj, after, e, [L.SemiColon]);
    FnExprIsExpr(rx, ts, e, [L.SemiColon]);
    ExprAtTopLevel(rx, ts, e, [L.SemiColon]);
    SoleTopLevel(rx, ts, Statement(ExprStmt(e)));
  }

  lemma TwoFields(obj: Bytes, first: Bytes, second: Bytes)
    ensures Fields([first, second]) + [L.SemiColon]
            == [L.Period, L.Ident(first), L.Period, L.Ident(second), L.SemiColon]
    ensures FoldDot(Ident(obj), [first, second]) == DotAccess(DotAccess(Ident(obj), first), second)
  {
    var names := [first, second];
    assert names[1..] == [second];
    assert [second][1..] == [];
    assert Fields([second]) == [L.Period, L.Ident(second)];
    assert FoldDot(DotAccess(Ident(obj), first), [second]) == DotAccess(DotAccess(Ident(obj), first), second);
  }

  /** An identifier and then a dot chain is a whole `fn_expr`. */
  lemma IdentThenDots(rx: RegexSyntax, name: Bytes, after: seq<Token>, e: Expr, rest: seq<Token>)
    requires !Next(after, L.OpenParen)
    requires DotTail(rx, Ident(name), after) == Ok(Parsed(e, rest))
    ensures ParseFn(rx, [L.Ident(name)] + after) == Ok(Parsed(e, rest))
  {
    var ts := [L.Ident(name)] + after;
    assert ts[1..] == after;
    assert ParseParen(rx, ts) == Ok(Parsed(Ident(name), after));
  }

  /** `foo.bar();` parses as a method call. */
  lemma MethodCallStatement(rx: RegexSyntax, obj: Bytes, member: Bytes)
    ensures ParseTokens(rx, [L.Ident(obj), L.Period, L.Ident(member), L.OpenParen, L.CloseParen, L.SemiColon])
            == Ok(Script([Statement(ExprStmt(MethodCall(Ident(obj), member, [])))]))
  {
    var ts := [L.Ident(obj), L.Period, L.Ident(member), L.OpenParen, L.CloseParen, L.SemiColon];
    var e := MethodCall(Ident(obj), member, []);
    var args := [L.CloseParen, L.SemiColon];
    var after := [L.Period, L.Ident(member), L.OpenParen] + args;
    assert ts == [L.Ident(obj)] + after;
    assert args[1..] == [L.SemiColon];
    assert ParseArgs(rx, [], args) == Ok(Parsed([], [L.SemiColon]));
    MethodCallEndsChain(rx, Ident(obj), member, args);
    IdentThenDots(rx, obj, after, e, [L.SemiColon]);
    FnExprIsExpr(rx, ts, e, [L.SemiColon]);
    ExprAtTopLevel(rx, ts, e, [L.SemiColon]);
    SoleTopLevel(rx, ts, Statement(ExprStmt(e)));
  }

  // ---------------------------------------------------------------------
  // take_until, shown on the identifier list of an import

  /** `a, b, c`: the names with a comma between each two. */
  function Listed(names: seq<Bytes>): (r: seq<Token>)
    requires names != []
    ensures |r| > 0 && r[0] == L.Ident(names[0])
  {
    if |names| == 1 then [L.Ident(names[0])]
    else [L.Ident(names[0]), L.Comma] + Listed(names[1..])
  }

  /** The terminal right away gives the empty list. */
  lemma TakeUntilEmpty(acc: seq<Bytes>, rest: seq<Token>)
    ensures ParseIdents(acc, [L.CloseBrace] + rest) == Ok(Parsed(acc, rest))
  {
    assert ([L.CloseBrace] + rest)[1..] == rest;
  }

  /** One item of the list: after it the separator asks for another,
      the terminal ends the list. */
  lemma TakeUntilStep(acc: seq<Bytes>, name: Bytes, after: seq<Token>)
    ensures ParseIdents(acc, [L.Ident(name), L.Comma] + after) == ParseIdents(acc + [name], after)
    ensures ParseIdents(acc, [L.Ident(name), L.CloseBrace] + after) == Ok(Parsed(acc + [name], after))
  {
    var more := [L.Ident(name), L.Comma] + after;
    assert more[1..] == [L.Comma] + after;
    assert ([L.Comma] + after)[1..] == after;
    assert TakeIdent(more) == Ok(Parsed(name, [L.Comma] + after));
    var last := [L.Ident(name), L.CloseBrace] + after;
    assert last[1..] == [L.CloseBrace] + after;
    assert ([L.CloseBrace] + after)[1..] == after;
    assert TakeIdent(last) == Ok(Parsed(name, [L.CloseBrace] + after));
  }

  /** The end of a list: the terminal, after a separator when `trailing`. */
  function Closing(trailing: bool): seq<Token> {
    if trailing then [L.Comma, L.CloseBrace] else [L.CloseBrace]
  }

  /** Items separated by the separator and closed by the terminal, with or
      without a separator after the last item, give the items in order. */
  lemma {:induction false} TakeUntilItems(acc: seq<Bytes>, names: seq<Bytes>, trailing: bool, rest: seq<Token>)
    requires names != []
    ensures ParseIdents(acc, Listed(names) + Closing(trailing) + rest) == Ok(Parsed(acc + names, rest))
    decreases |names|
  {
    if |names| == 1 {
      assert names == [names[0]];
      TakeUntilLast(acc, names[0], trailing, rest);
    } else {
      ListedCons(names, Closing(trailing), rest);
      TakeUntilStep(acc, names[0], Listed(names[1..]) + Closing(trailing) + rest);
      TakeUntilItems(acc + [names[0]], names[1..], trailing, rest);
      AppendFirst(acc, names);
    }
  }

  lemma TakeUntilLast(acc: seq<Bytes>, name: Bytes, trailing: bool, rest: seq<Token>)
    ensures ParseIdents(acc, [L.Ident(name)] + Closing(trailing) + rest) == Ok(Parsed(acc + [name], rest))
  {
    if trailing {
      assert [L.Ident(name)] + Closing(trailing) + rest == [L.Ident(name), L.Comma] + ([L.CloseBrace] + rest);
      TakeUntilStep(acc, name, [L.CloseBrace] + rest);
      TakeUntilEmpty(acc + [name], rest);
    } else {
      assert [L.Ident(name)] + Closing(trailing) + rest == [L.Ident(name), L.CloseBrace] + rest;
      TakeUntilStep(acc, name, rest);
    }
  }

  lemma ListedCons(names: seq<Bytes>, close: seq<Token>, rest: seq<Token>)
    requires |names| > 1
    ensures Listed(names) + close + rest == [L.Ident(names[0]), L.Comma] + (Listed(names[1..]) + close + rest)
  {
  }

  /** An item followed by neither the separator nor the terminal is an
      error naming the terminal. */
  lemma TakeUntilMissingSeparator(acc: seq<Bytes>, name: Bytes, tok: Token, rest: seq<Token>)
    requires tok != L.Comma && tok != L.CloseBrace
    ensures ParseIdents(acc, [L.Ident(name), tok] + rest) == Err(ExpectedToken(L.CloseBrace, Some(tok)))
  {
    var ts := [L.Ident(name), tok] + rest;
    assert ts[1..] == [tok] + rest;
    assert TakeIdent(ts) == Ok(Parsed(name, [tok] + rest));
    assert ListStep([tok] + rest, L.CloseBrace, L.Comma) == Err(ExpectedToken(L.CloseBrace, Some(tok)));
  }

  // ---------------------------------------------------------------------
  // parse keeps the top-level items in order

  /** One turn of the loop of `parse`. */
  lemma TopLevelsStep(rx: RegexSyntax, acc: seq<TopLevel>, ts: seq<Token>, item: PResult<Option<TopLevel>>)
    requires item == ParseTopLevel(rx, ts)
    ensures item.Err? ==> ParseTopLevels(rx, acc, ts) == Err(item.error)
    ensures item.Ok? && item.value.value.None? ==> ParseTopLevels(rx, acc, ts) == Ok(acc)
    ensures item.Ok? && item.value.value.Some? ==>
      |item.value.rest| < |ts| &&
      ParseTopLevels(rx, acc, ts) == ParseTopLevels(rx, acc + [item.value.value.value], item.value.rest)
  {
  }

  lemma {:induction false} TopLevelsAcc(rx: RegexSyntax, acc: seq<TopLevel>, ts: seq<Token>)
    ensures ParseTopLevels(rx, [], ts).Ok? ==> ParseTopLevels(rx, acc, ts) == Ok(acc + ParseTopLevels(rx, [], ts).value)
    ensures ParseTopLevels(rx, [], ts).Err? ==> ParseTopLevels(rx, acc, ts) == ParseTopLevels(rx, [], ts)
    decreases |ts|
  {
    var item := ParseTopLevel(rx, ts);
    TopLevelsStep(rx, acc, ts, item);
    TopLevelsStep(rx, [], ts, item);
    AppendEmpty(acc);
    if item.Ok? && item.value.value.Some? {
      var tl := item.value.value.value;
      EmptyThen([tl]);
      TopLevelsAcc(rx, acc + [tl], item.value.rest);
      TopLevelsAcc(rx, [tl], item.value.rest);
      var tail := ParseTopLevels(rx, [], item.value.rest);
      if tail.Ok? {
        ConsAssoc(acc, tl, tail.value);
      }
    }
  }

  /** The script is the first top-level item followed by the script of the
      tokens after it; an error in any item is the error of the whole
      parse, and no tokens give the empty script. */
  lemma ParseTokensCons(rx: RegexSyntax, ts: seq<Token>, first: TopLevel, rest: seq<Token>)
    ensures ParseTopLevel(rx, ts).Err? ==> ParseTokens(rx, ts) == Err(ParseTopLevel(rx, ts).error)
    ensures ts == [] ==> ParseTokens(rx, ts) == Ok(Script([]))
    ensures ParseTopLevel(rx, ts) == Ok(Parsed(Some(first), rest)) && ParseTokens(rx, rest).Ok? ==>
      ParseTokens(rx, ts) == Ok(Script([first] + ParseTokens(rx, rest).value.topLevels))
    ensures ParseTopLevel(rx, ts) == Ok(Parsed(Some(first), rest)) && ParseTokens(rx, rest).Err? ==>
      ParseTokens(rx, ts) == ParseTokens(rx, rest)
  {
    var item := ParseTopLevel(rx, ts);
    TopLevelsStep(rx, [], ts, item);
    if item.Ok? && item.value.value.Some? {
      var none: seq<TopLevel> := [];
      assert none + [item.value.value.value] == [item.value.value.value];
      TopLevelsAcc(rx, [item.value.value.value], item.value.rest);
    }
  }
}
