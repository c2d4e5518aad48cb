/** The recursive-descent parser of cli/src/refactorings/parser/mod.rs.
    Every parser function there consumes one shared mutable token deque
    (`VecDeque<Token>`) through `pop_front`, `push_front` and lookahead;
    here that deque is the `TokenQueue` object and each parser function a
    method that changes it. Each method is proved to compute what the
    functional grammar of module `Grammar` computes from the tokens it
    started with, and to leave exactly the tokens the grammar leaves. */
module Parser {
  import opened Basics
  import opened Ast
  import L = Lexer
  import G = Grammar

  type Token = L.Token

  /** The token deque. */
  class TokenQueue {
    var items: seq<Token>

    constructor (ts: seq<Token>)
      ensures items == ts
    {
      items := ts;
    }

    /** `get(i)`: lookahead without consuming. */
    function Get(i: nat): (r: Option<Token>)
      reads this
      ensures r.Some? <==> i < |items|
      ensures r.Some? ==> r.value == items[i]
    {
      if i < |items| then Some(items[i]) else None
    }

    method PopFront() returns (r: Option<Token>)
      modifies this
      ensures r == G.Front(old(items))
      ensures items == if old(items) == [] then [] else old(items)[1..]
    {
      if items == [] {
        r := None;
      } else {
        r := Some(items[0]);
        items := items[1..];
      }
    }

    method PushFront(tok: Token)
      modifies this
      ensures items == [tok] + old(items)
    {
      items := [tok] + items;
    }
  }

  /** The method's result `r` and the queue left behind, `items`, are what
      the grammar function computed: its value and the tokens it left on
      success, its error on failure. */
  predicate Agrees<T(==)>(r: Result<T, G.ParseError>, items: seq<Token>, spec: G.PResult<T>) {
    match spec
    case Ok(p) => r == Ok(p.value) && items == p.rest
    case Err(e) => r == Err(e)
  }

  // ---------------------------------------------------------------------
  // take, take_any, try_take, take_ident, take_string_lit

  /** `take`: pop the front token; an error names the expected token and
      what was found instead (`None` for the end of input). */
  method Take(t: TokenQueue, expected: Token) returns (r: Result<(), G.ParseError>)
    modifies t
    ensures Agrees(r, t.items, G.Take(old(t.items), expected))
  {
    var front := t.PopFront();
    if front.None? {
      return Err(G.ExpectedToken(expected, None));
    }
    if front.value == expected {
      return Ok(());
    }
    return Err(G.ExpectedToken(expected, front));
  }

  method TakeAny(t: TokenQueue) returns (r: Result<Token, G.ParseError>)
    modifies t
    ensures old(t.items) == [] ==> r == Err(G.ExpectedAnyToken)
    ensures old(t.items) != [] ==> r == Ok(old(t.items)[0]) && t.items == old(t.items)[1..]
  {
    var front := t.PopFront();
    if front.None? {
      return Err(G.ExpectedAnyToken);
    }
    return Ok(front.value);
  }

  /** `try_take`: pop the front token only when it is the expected one;
      otherwise the queue is left as it was. */
  method TryTake(t: TokenQueue, expected: Token) returns (taken: bool)
    modifies t
    ensures taken <==> G.Next(old(t.items), expected)
    ensures t.items == if taken then old(t.items)[1..] else old(t.items)
  {
    if t.Get(0) == Some(expected) {
      var _ := t.PopFront();
      return true;
    }
    return false;
  }

  method TakeIdent(t: TokenQueue) returns (r: Result<Bytes, G.ParseError>)
    modifies t
    ensures Agrees(r, t.items, G.TakeIdent(old(t.items)))
  {
    var front := t.PopFront();
    if front.Some? && front.value.Ident? {
      return Ok(front.value.name);
    }
    return Err(G.ExpectedIdent(front));
  }

  method TakeStringLit(t: TokenQueue) returns (r: Result<Bytes, G.ParseError>)
    modifies t
    ensures Agrees(r, t.items, G.TakeStringLit(old(t.items)))
  {
    var front := t.PopFront();
    if front.Some? && front.value.StringLiteral? {
      return Ok(front.value.text);
    }
    return Err(G.ExpectedString(front));
  }

  // ---------------------------------------------------------------------
  // Expressions

  method ParseExpr(t: TokenQueue, rx: G.RegexSyntax) returns (r: Result<Expr, G.ParseError>)
    modifies t
    ensures Agrees(r, t.items, G.ParseExpr(rx, old(t.items)))
    decreases |t.items|, 6
  {
    r := ParseConcat(t, rx);
  }

  /** The left-associative infix loop for `..`. */
  method ParseConcat(t: TokenQueue, rx: G.RegexSyntax) returns (r: Result<Expr, G.ParseError>)
    modifies t
    ensures Agrees(r, t.items, G.ParseConcat(rx, old(t.items)))
    decreases |t.items|, 5
  {
    var first := ParseBinding(t, rx);
    if first.Err? {
      return Err(first.error);
    }
    var e := first.value;
    while true
      invariant |t.items| < |old(t.items)|
      invariant G.ParseConcat(rx, old(t.items)) == G.ConcatTail(rx, e, t.items)
      decreases |t.items|
    {
      ghost var before := t.items;
      var front := t.PopFront();
      if front == Some(L.Concatenate) {
        var right := ParseBinding(t, rx);
        if right.Err? {
          return Err(right.error);
        }
        e := Concatenate(e, right.value);
      } else if front.Some? {
        t.PushFront(front.value);
        assert t.items == before;
        return Ok(e);
      } else {
        return Ok(e);
      }
    }
  }

  method ParseBinding(t: TokenQueue, rx: G.RegexSyntax) returns (r: Result<Expr, G.ParseError>)
    modifies t
    ensures Agrees(r, t.items, G.ParseBinding(rx, old(t.items)))
    decreases |t.items|, 4
  {
    var first, second := t.Get(0), t.Get(1);
    if first.Some? && first.value.Ident? && second == Some(L.Colon) {
      var name := TakeIdent(t);
      var colon := Take(t, L.Colon);
      assert name.Ok? && colon.Ok?;
      var inner := ParseFn(t, rx);
      if inner.Err? {
        return Err(inner.error);
      }
      return Ok(Binding(name.value, inner.value));
    }
    r := ParseFn(t, rx);
  }

  method ParseFn(t: TokenQueue, rx: G.RegexSyntax) returns (r: Result<Expr, G.ParseError>)
    modifies t
    ensures Agrees(r, t.items, G.ParseFn(rx, old(t.items)))
    decreases |t.items|, 3
  {
    var first, second := t.Get(0), t.Get(1);
    if first.Some? && first.value.Ident? && second == Some(L.OpenParen) {
      var name := TakeIdent(t);
      var open := Take(t, L.OpenParen);
      assert name.Ok? && open.Ok?;
      var args := TakeArgs(t, rx);
      if args.Err? {
        return Err(args.error);
      }
      return Ok(FnCall(name.value, args.value));
    }
    r := ParseDotAccess(t, rx);
  }

  /** The dot-chain loop. */
  method ParseDotAccess(t: TokenQueue, rx: G.RegexSyntax) returns (r: Result<Expr, G.ParseError>)
    modifies t
    ensures Agrees(r, t.items, G.ParseDotAccess(rx, old(t.items)))
    decreases |t.items|, 2
  {
    var base := ParseParen(t, rx);
    if base.Err? {
      return Err(base.error);
    }
    var e := base.value;
    while true
      invariant |t.items| < |old(t.items)|
      invariant G.ParseDotAccess(rx, old(t.items)) == G.DotTail(rx, e, t.items)
      decreases |t.items|
    {
      var dot := TryTake(t, L.Period);
      if !dot {
        return Ok(e);
      }
      var prop := TakeIdent(t);
      if prop.Err? {
        return Err(prop.error);
      }
      var call := TryTake(t, L.OpenParen);
      if call {
        var args := TakeArgs(t, rx);
        if args.Err? {
          return Err(args.error);
        }
        return Ok(MethodCall(e, prop.value, args.value));
      }
      e := DotAccess(e, prop.value);
    }
  }

  method ParseParen(t: TokenQueue, rx: G.RegexSyntax) returns (r: Result<Expr, G.ParseError>)
    modifies t
    ensures Agrees(r, t.items, G.ParseParen(rx, old(t.items)))
    decreases |t.items|, 1
  {
    var open := TryTake(t, L.OpenParen);
    if !open {
      r := ParseLeaf(t, rx);
      return;
    }
    var inner := ParseExpr(t, rx);
    if inner.Err? {
      return Err(inner.error);
    }
    var close := Take(t, L.CloseParen);
    if close.Err? {
      return Err(close.error);
    }
    return Ok(inner.value);
  }

  method ParseLeaf(t: TokenQueue, rx: G.RegexSyntax) returns (r: Result<Expr, G.ParseError>)
    modifies t
    ensures Agrees(r, t.items, G.ParseLeaf(rx, old(t.items)))
  {
    var front := t.PopFront();
    if front.None? {
      return Err(G.ExpectedExpr(None));
    }
    var tok := front.value;
    if tok.StringLiteral? {
      return Ok(StringLiteral(tok.text));
    } else if tok.Regex? {
      if rx(tok.pattern) {
        return Ok(Regex(tok.pattern));
      }
      return Err(G.InvalidRegex(tok.pattern));
    } else if tok.Ident? {
      return Ok(Ident(tok.name));
    }
    return Err(G.ExpectedExpr(front));
  }

  /** `take_until(CloseParen, Comma, expr)`: the argument list after `(`. */
  method TakeArgs(t: TokenQueue, rx: G.RegexSyntax) returns (r: Result<seq<Expr>, G.ParseError>)
    modifies t
    ensures Agrees(r, t.items, G.ParseArgs(rx, [], old(t.items)))
    decreases |t.items|, 7
  {
    var result: seq<Expr> := [];
    while true
      invariant |t.items| <= |old(t.items)|
      invariant G.ParseArgs(rx, [], old(t.items)) == G.ParseArgs(rx, result, t.items)
      decreases |t.items|
    {
      var closed := TryTake(t, L.CloseParen);
      if closed {
        return Ok(result);
      }
      var item := ParseExpr(t, rx);
      if item.Err? {
        return Err(item.error);
      }
      result := result + [item.value];
      var more := TryTake(t, L.Comma);
      if more {
        continue;
      }
      var close := Take(t, L.CloseParen);
      if close.Err? {
        return Err(close.error);
      }
      return Ok(result);
    }
  }

  // ---------------------------------------------------------------------
  // Statements and top-level items

  method ParseStmt(t: TokenQueue, rx: G.RegexSyntax) returns (r: Result<Stmt, G.ParseError>)
    modifies t
    ensures Agrees(r, t.items, G.ParseStmt(rx, old(t.items)))
    decreases |t.items|, 7
  {
    var first := TakeAny(t);
    if first.Err? {
      return Err(first.error);
    }
    if first.value == L.Let {
      var name := TakeIdent(t);
      if name.Err? {
        return Err(name.error);
      }
      var eq := Take(t, L.Equal);
      if eq.Err? {
        return Err(eq.error);
      }
      var value := ParseExpr(t, rx);
      if value.Err? {
        return Err(value.error);
      }
      return Ok(Assignment(name.value, value.value));
    } else if first.value == L.For {
      var name := TakeIdent(t);
      if name.Err? {
        return Err(name.error);
      }
      var kw := Take(t, L.In);
      if kw.Err? {
        return Err(kw.error);
      }
      var source := ParseExpr(t, rx);
      if source.Err? {
        return Err(source.error);
      }
      var body := ParseBody(t, rx);
      if body.Err? {
        return Err(body.error);
      }
      return Ok(ForLoop(name.value, source.value, body.value));
    }
    t.PushFront(first.value);
    assert t.items == old(t.items);
    var e := ParseExpr(t, rx);
    if e.Err? {
      return Err(e.error);
    }
    return Ok(ExprStmt(e.value));
  }

  method ParseBody(t: TokenQueue, rx: G.RegexSyntax) returns (r: Result<seq<Stmt>, G.ParseError>)
    modifies t
    ensures Agrees(r, t.items, G.ParseBody(rx, old(t.items)))
    decreases |t.items|, 9
  {
    var open := Take(t, L.OpenBrace);
    if open.Err? {
      return Err(open.error);
    }
    r := TakeStmts(t, rx);
  }

  /** `take_until(CloseBrace, SemiColon, stmt)`: the statements of a body. */
  method TakeStmts(t: TokenQueue, rx: G.RegexSyntax) returns (r: Result<seq<Stmt>, G.ParseError>)
    modifies t
    ensures Agrees(r, t.items, G.ParseStmts(rx, [], old(t.items)))
    decreases |t.items|, 8
  {
    var result: seq<Stmt> := [];
    while true
      invariant |t.items| <= |old(t.items)|
      invariant G.ParseStmts(rx, [], old(t.items)) == G.ParseStmts(rx, result, t.items)
      decreases |t.items|
    {
      var closed := TryTake(t, L.CloseBrace);
      if closed {
        return Ok(result);
      }
      var item := ParseStmt(t, rx);
      if item.Err? {
        return Err(item.error);
      }
      result := result + [item.value];
      var more := TryTake(t, L.SemiColon);
      if more {
        continue;
      }
      var close := Take(t, L.CloseBrace);
      if close.Err? {
        return Err(close.error);
      }
      return Ok(result);
    }
  }

  /** `take_until(CloseBrace, Comma, take_ident)`: the names of an import. */
  method TakeIdents(t: TokenQueue) returns (r: Result<seq<Bytes>, G.ParseError>)
    modifies t
    ensures Agrees(r, t.items, G.ParseIdents([], old(t.items)))
  {
    var result: seq<Bytes> := [];
    while true
      invariant G.ParseIdents([], old(t.items)) == G.ParseIdents(result, t.items)
      decreases |t.items|
    {
      var closed := TryTake(t, L.CloseBrace);
      if closed {
        return Ok(result);
      }
      var item := TakeIdent(t);
      if item.Err? {
        return Err(item.error);
      }
      result := result + [item.value];
      var more := TryTake(t, L.Comma);
      if more {
        continue;
      }
      var close := Take(t, L.CloseBrace);
      if close.Err? {
        return Err(close.error);
      }
      return Ok(result);
    }
  }

  method ParseImport(t: TokenQueue) returns (r: Result<ImportDecl, G.ParseError>)
    modifies t
    ensures Agrees(r, t.items, G.ParseImport(old(t.items)))
  {
    var open := Take(t, L.OpenBrace);
    if open.Err? {
      return Err(open.error);
    }
    var idents := TakeIdents(t);
    if idents.Err? {
      return Err(idents.error);
    }
    var from := Take(t, L.From);
    if from.Err? {
      return Err(from.error);
    }
    var source := TakeStringLit(t);
    if source.Err? {
      return Err(source.error);
    }
    var semi := Take(t, L.SemiColon);
    if semi.Err? {
      return Err(semi.error);
    }
    return Ok(ImportDecl(idents.value, source.value));
  }

  method ParseDirective(t: TokenQueue) returns (r: Result<DirectiveDecl, G.ParseError>)
    modifies t
    ensures Agrees(r, t.items, G.ParseDirective(old(t.items)))
  {
    var name := TakeIdent(t);
    if name.Err? {
      return Err(name.error);
    }
    var eq := Take(t, L.Equal);
    if eq.Err? {
      return Err(eq.error);
    }
    var value := TakeStringLit(t);
    if value.Err? {
      return Err(value.error);
    }
    var semi := Take(t, L.SemiColon);
    if semi.Err? {
      return Err(semi.error);
    }
    return Ok(DirectiveDecl(name.value, value.value));
  }

  method ParseTopLevel(t: TokenQueue, rx: G.RegexSyntax) returns (r: Result<Option<TopLevel>, G.ParseError>)
    modifies t
    ensures Agrees(r, t.items, G.ParseTopLevel(rx, old(t.items)))
  {
    var front := t.PopFront();
    if front.None? {
      return Ok(None);
    }
    if front.value == L.Import {
      var decl := ParseImport(t);
      if decl.Err? {
        return Err(decl.error);
      }
      return Ok(Some(Import(decl.value)));
    } else if front.value == L.Directive {
      var decl := ParseDirective(t);
      if decl.Err? {
        return Err(decl.error);
      }
      return Ok(Some(Directive(decl.value)));
    }
    t.PushFront(front.value);
    assert t.items == old(t.items);
    var s := ParseStmt(t, rx);
    if s.Err? {
      return Err(s.error);
    }
    if RequiresTerminal(s.value) {
      var semi := Take(t, L.SemiColon);
      if semi.Err? {
        return Err(semi.error);
      }
    }
    return Ok(Some(Statement(s.value)));
  }

  /** `parse`: lex the source, then take top-level items until the tokens
      run out; any error ends the parse. */
  method Parse(rx: G.RegexSyntax, src: Bytes) returns (r: Result<Script, G.ParseError>)
    ensures r == G.ParseSource(rx, src)
  {
    var lexed := L.Lex(src);
    if lexed.Err? {
      return Err(G.LexFailed(lexed.error));
    }
    var t := new TokenQueue(lexed.value);
    var topLevels: seq<TopLevel> := [];
    while true
      invariant G.ParseTopLevels(rx, [], lexed.value) == G.ParseTopLevels(rx, topLevels, t.items)
      decreases |t.items|
    {
      var item := ParseTopLevel(t, rx);
      if item.Err? {
        return Err(item.error);
      }
      if item.value.None? {
        return Ok(Script(topLevels));
      }
      topLevels := topLevels + [item.value.value];
    }
  }
}
