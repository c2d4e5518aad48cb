/** The script evaluator of cli/src/refactorings/script.rs: `exec` runs the
    top-level items over a scope of variables and collects the edit commands
    of every expression statement; `eval` evaluates expressions, where
    `find(pattern)` scans the editor buffer for a match covering the
    selection and `range.replace(text)` turns a found range into edit
    commands. */
module Script {
  import opened Basics
  import opened Ast
  import opened Edits
  import opened Matcher

  /** A runtime value (`Value`). */
  datatype Value =
    | RangeValue(span: Span, captures: map<Bytes, Bytes>)
    | Mutations(mutations: seq<Mutation>)
    | Str(text: Bytes)

  type Scope = map<Bytes, Value>

  // ---------------------------------------------------------------------
  // find

  /** The candidate `find` considers at `offset`: the pattern's match in the
      buffer from `offset` on, in buffer positions. */
  function Candidate(pattern: Expr, all: Bytes, offset: nat, find: RegexFinder): (r: Result<Match, ScriptError>)
    requires offset <= |all|
    ensures r.Ok? ==> offset <= r.value.span.start <= r.value.span.end <= |all|
  {
    var m :- Range(pattern, all[offset..], find);
    Ok(Match(m.span.Shift(offset), m.captures))
  }

  /** The scan of `find` from `offset`: the first candidate that overlaps the
      selection; a candidate starting after the selection ends the search;
      otherwise the next search starts at the candidate's end. A candidate
      that is empty at `offset` would be found again forever. */
  function FindFrom(pattern: Expr, all: Bytes, sel: Span, offset: nat, find: RegexFinder): (r: Result<Value, ScriptError>)
    requires offset <= |all|
    ensures r.Ok? ==> r.value.RangeValue? && Overlaps(r.value.span, sel)
    ensures r.Ok? ==> offset <= r.value.span.start <= r.value.span.end <= |all|
    decreases |all| - offset
  {
    var c :- Candidate(pattern, all, offset, find);
    if c.span.start > sel.end then Err(NotFound)
    else if Overlaps(c.span, sel) then Ok(RangeValue(c.span, c.captures))
    else if c.span.end == offset then Err(Diverges)
    else FindFrom(pattern, all, sel, c.span.end, find)
  }

  /** `find(pattern)` on the editor contents. */
  function FindIn(pattern: Expr, ctx: Context, find: RegexFinder): (r: Result<Value, ScriptError>)
    ensures r.Ok? ==> r.value.RangeValue? && r.value.span.Valid() && r.value.span.Within(|Flatten(ctx)|)
  {
    FindFrom(pattern, Flatten(ctx), SelectedSpan(ctx), 0, find)
  }

  /** The loop of `find`: scans the buffer from the start, moving the
      offset to the end of each candidate that does not cover the
      selection. */
  method FindScan(pattern: Expr, ctx: Context, find: RegexFinder) returns (r: Result<Value, ScriptError>)
    ensures r == FindIn(pattern, ctx, find)
  {
    var all := Flatten(ctx);
    var sel := Selected(ctx);
    var offset := 0;
    while true
      invariant offset <= |all|
      invariant FindFrom(pattern, all, sel, offset, find) == FindIn(pattern, ctx, find)
      decreases |all| - offset
    {
      var c := Candidate(pattern, all, offset, find);
      if c.Err? {
        return Err(c.error);
      }
      var found := c.value.span;
      if found.start > sel.end {
        return Err(NotFound);
      }
      if Overlaps(found, sel) {
        return Ok(RangeValue(found, c.value.captures));
      }
      if found.end == offset {
        return Err(Diverges);
      }
      offset := found.end;
    }
  }

  // ---------------------------------------------------------------------
  // eval

  /** The commands that replace `target` by `text` given the editor's
      selection; a selection reaching outside the target cannot be turned
      into commands. */
  function Replace(target: Span, text: Bytes, ctx: Context): (r: Result<Value, ScriptError>)
    ensures r.Ok? <==> target.start <= SelectedSpan(ctx).start && SelectedSpan(ctx).end <= target.end
    ensures r.Ok? ==> r.value.Mutations? && |r.value.mutations| > 0
                      && r.value.mutations[|r.value.mutations| - 1] == Insert(text)
  {
    match DeleteRange(target, SelectedSpan(ctx))
    case None => Err(CouldNotMutate)
    case Some(keys) => Ok(Mutations(EditScript(keys.deletes, keys.backspaces, text)))
  }

  /** `eval`: method `replace` on a range, function `find`, variables,
      string literals, concatenation of strings and reading a capture of a
      range; every other combination is unsupported. Only `replace` makes
      commands and only `find` makes ranges (or a variable holding one), and
      reading a variable fails exactly when it is unbound. */
  function Eval(e: Expr, scope: Scope, ctx: Context, find: RegexFinder): (res: Result<Value, ScriptError>)
    ensures res.Ok? && res.value.Mutations? ==> e.MethodCall? || e.Ident?
    ensures res.Ok? && res.value.RangeValue? ==> e.FnCall? || e.Ident?
    ensures e.Ident? ==> (res.Ok? <==> e.name in scope)
    decreases e
  {
    match e
    case MethodCall(receiver, member, args) =>
      var target :- Eval(receiver, scope, ctx, find);
      if target.RangeValue? && member == "replace" then
        if |args| == 0 then Err(TooFewArguments("Range.replace"))
        else
          var with :- Eval(args[0], scope, ctx, find);
          if with.Str? then Replace(target.span, with.text, ctx) else Err(ExpectedString)
      else Err(Unsupported)
    case FnCall(func, args) =>
      if func == "find" then
        if |args| == 0 then Err(TooFewArguments("find")) else FindIn(args[0], ctx, find)
      else Err(Unsupported)
    case Ident(name) =>
      if name in scope then Ok(scope[name]) else Err(UnknownVariable(name))
    case StringLiteral(s) => Ok(Str(s))
    case Concatenate(left, right) =>
      var l :- Eval(left, scope, ctx, find);
      var r :- Eval(right, scope, ctx, find);
      if l.Str? && r.Str? then Ok(Str(l.text + r.text)) else Err(Unsupported)
    case DotAccess(target, field) =>
      var t :- Eval(target, scope, ctx, find);
      if t.RangeValue? then
        if field in t.captures then Ok(Str(t.captures[field])) else Err(MissingBinding(field))
      else Err(Unsupported)
    case _ => Err(Unsupported)
  }

  // ---------------------------------------------------------------------
  // exec

  /** The state after some top-level items: the scope and the commands so far. */
  datatype Outcome = Outcome(scope: Scope, mutations: seq<Mutation>)

  /** The commands an expression statement contributes. */
  function Emitted(v: Value): seq<Mutation> {
    if v.Mutations? then v.mutations else []
  }

  /** Running top-level items in order: `let` binds (or rebinds) a variable,
      an expression statement contributes its commands, a directive does
      nothing, imports and for-loops are unsupported; the first error ends
      the run. A run never unbinds a variable. */
  function Run(tls: seq<TopLevel>, scope: Scope, ctx: Context, find: RegexFinder): (r: Result<Outcome, ScriptError>)
    ensures r.Ok? ==> scope.Keys <= r.value.scope.Keys
    decreases |tls|
  {
    if tls == [] then Ok(Outcome(scope, []))
    else
      match tls[0]
      case Statement(Assignment(name, value)) =>
        var v :- Eval(value, scope, ctx, find);
        Run(tls[1..], scope[name := v], ctx, find)
      case Statement(ExprStmt(e)) =>
        var v :- Eval(e, scope, ctx, find);
        var o :- Run(tls[1..], scope, ctx, find);
        Ok(Outcome(o.scope, Emitted(v) + o.mutations))
      case Directive(_) => Run(tls[1..], scope, ctx, find)
      case _ => Err(Unsupported)
  }

  /** The top-level items the evaluator can run: directives, `let` and
      expression statements. */
  predicate Supported(tl: TopLevel) {
    tl.Directive? || (tl.Statement? && !tl.stmt.ForLoop?)
  }

  /** The result of `exec`: the commands of a whole script, from an empty
      scope. A script that runs holds no import and no for-loop. */
  function Execute(script: Script, ctx: Context, find: RegexFinder): (r: Result<seq<Mutation>, ScriptError>)
    ensures r.Ok? ==> forall i :: 0 <= i < |script.topLevels| ==> Supported(script.topLevels[i])
    ensures script.topLevels == [] ==> r == Ok([])
  {
    var o :- Run(script.topLevels, map[], ctx, find);
    RunSupported(script.topLevels, map[], ctx, find);
    Ok(o.mutations)
  }

  /** Every item of a run that succeeds is one the evaluator supports. */
  lemma {:induction false} RunSupported(tls: seq<TopLevel>, scope: Scope, ctx: Context, find: RegexFinder)
    requires Run(tls, scope, ctx, find).Ok?
    ensures forall i :: 0 <= i < |tls| ==> Supported(tls[i])
    decreases |tls|
  {
    if tls != [] {
      var next := RunFirst(tls, scope, ctx, find);
      RunSupported(tls[1..], next, ctx, find);
      forall i | 1 <= i < |tls|
        ensures Supported(tls[i])
      {
        assert tls[i] == tls[1..][i - 1];
      }
    }
  }

  /** A run that succeeds starts with a supported item, and the rest of it
      runs from the scope that item leaves. */
  lemma RunFirst(tls: seq<TopLevel>, scope: Scope, ctx: Context, find: RegexFinder) returns (next: Scope)
    requires tls != [] && Run(tls, scope, ctx, find).Ok?
    ensures Supported(tls[0]) && Run(tls[1..], next, ctx, find).Ok?
  {
    if tls[0].Statement? && tls[0].stmt.Assignment? {
      next := scope[tls[0].stmt.name := Eval(tls[0].stmt.value, scope, ctx, find).value];
    } else {
      next := scope;
    }
  }

  /** The commands `done` so far followed by those of the remaining run. */
  function Continue(done: seq<Mutation>, rest: Result<Outcome, ScriptError>): Result<seq<Mutation>, ScriptError> {
    if rest.Ok? then Ok(done + rest.value.mutations) else Err(rest.error)
  }

  lemma ContinueEmit(done: seq<Mutation>, emitted: seq<Mutation>, rest: Result<Outcome, ScriptError>)
    ensures Continue(done, if rest.Ok? then Ok(Outcome(rest.value.scope, emitted + rest.value.mutations)) else Err(rest.error))
            == Continue(done + emitted, rest)
  {
    if rest.Ok? {
      assert done + (emitted + rest.value.mutations) == done + emitted + rest.value.mutations;
    }
  }

  /** `exec`: one pass over the top-level items, updating the scope and
      extending the command list. */
  method Exec(script: Script, ctx: Context, find: RegexFinder) returns (r: Result<seq<Mutation>, ScriptError>)
    ensures r == Execute(script, ctx, find)
  {
    var tls := script.topLevels;
    var result: seq<Mutation> := [];
    var scope: Scope := map[];
    assert tls[0..] == tls;
    var whole := Run(tls, scope, ctx, find);
    assert whole.Ok? ==> [] + whole.value.mutations == whole.value.mutations;
    for i := 0 to |tls|
      invariant Execute(script, ctx, find) == Continue(result, Run(tls[i..], scope, ctx, find))
    {
      assert tls[i..][0] == tls[i] && tls[i..][1..] == tls[i + 1..];
      match tls[i] {
        case Statement(Assignment(name, value)) =>
          var v := Eval(value, scope, ctx, find);
          if v.Err? {
            return Err(v.error);
          }
          scope := scope[name := v.value];
        case Statement(ExprStmt(e)) =>
          var v := Eval(e, scope, ctx, find);
          if v.Err? {
            return Err(v.error);
          }
          ContinueEmit(result, Emitted(v.value), Run(tls[i + 1..], scope, ctx, find));
          if v.value.Mutations? {
            result := result + v.value.mutations;
          } else {
            assert result + Emitted(v.value) == result;
          }
        case Directive(_) =>
        case _ =>
          return Err(Unsupported);
      }
    }
    assert tls[|tls|..] == [];
    assert result + [] == result;
    return Ok(result);
  }

  /** `applies_to`: the script runs without error; never for a script with
      an import or a for-loop. */
  predicate AppliesTo(script: Script, ctx: Context, find: RegexFinder)
    ensures AppliesTo(script, ctx, find) ==> forall i :: 0 <= i < |script.topLevels| ==> Supported(script.topLevels[i])
  {
    Execute(script, ctx, find).Ok?
  }

  /** `perform`: the commands of the script. */
  function Perform(script: Script, ctx: Context, find: RegexFinder): Result<seq<Mutation>, ScriptError> {
    Execute(script, ctx, find)
  }

  /** A script split in two: it applies exactly when its first part runs
      and its second part runs on the scope the first left, and then it
      performs the first part's commands followed by the second's. */
  lemma PerformAppend(a: seq<TopLevel>, b: seq<TopLevel>, ctx: Context, find: RegexFinder)
    ensures AppliesTo(Script(a + b), ctx, find)
            <==> Run(a, map[], ctx, find).Ok? && Run(b, Run(a, map[], ctx, find).value.scope, ctx, find).Ok?
    ensures Run(a, map[], ctx, find).Err? ==> Perform(Script(a + b), ctx, find) == Err(Run(a, map[], ctx, find).error)
    ensures Run(a, map[], ctx, find).Ok? ==>
      var first := Run(a, map[], ctx, find).value;
      Perform(Script(a + b), ctx, find) == Continue(first.mutations, Run(b, first.scope, ctx, find))
  {
    RunAppend(a, b, map[], ctx, find);
  }

  // ---------------------------------------------------------------------
  // Directives

  /** The top-level item is a directive called `name`. */
  predicate NamesDirective(tl: TopLevel, name: Bytes) {
    tl.Directive? && tl.directive.name == name
  }

  function DirectiveFrom(tls: seq<TopLevel>, name: Bytes, i: nat): (r: nat)
    requires i <= |tls|
    requires exists j :: i <= j < |tls| && NamesDirective(tls[j], name)
    ensures i <= r < |tls| && NamesDirective(tls[r], name)
    ensures forall j :: i <= j < r ==> !NamesDirective(tls[j], name)
    decreases |tls| - i
  {
    if NamesDirective(tls[i], name) then i else DirectiveFrom(tls, name, i + 1)
  }

  /** `directive_value`: the value of the first directive called `name`;
      the source unwraps it, so a script must have one. */
  function DirectiveValue(script: Script, name: Bytes): (r: Bytes)
    requires exists j :: 0 <= j < |script.topLevels| && NamesDirective(script.topLevels[j], name)
    ensures exists i :: (0 <= i < |script.topLevels| && script.topLevels[i] == Directive(DirectiveDecl(name, r))
                         && forall j :: 0 <= j < i ==> !NamesDirective(script.topLevels[j], name))
  {
    var i := DirectiveFrom(script.topLevels, name, 0);
    script.topLevels[i].directive.value
  }

  // ---------------------------------------------------------------------
  // Properties of find

  /** A candidate that starts after the selection ends the scan. */
  lemma FindStopsAfterSelection(pattern: Expr, all: Bytes, sel: Span, offset: nat, find: RegexFinder)
    requires offset <= |all|
    requires Candidate(pattern, all, offset, find).Ok?
    requires Candidate(pattern, all, offset, find).value.span.start > sel.end
    ensures FindFrom(pattern, all, sel, offset, find) == Err(NotFound)
  {
  }

  /** A candidate that neither covers nor passes the selection makes the scan
      go on from its end; one empty at the scan's offset never lets it go on. */
  lemma FindMovesOn(pattern: Expr, all: Bytes, sel: Span, offset: nat, find: RegexFinder)
    requires offset <= |all|
    requires Candidate(pattern, all, offset, find).Ok?
    requires Candidate(pattern, all, offset, find).value.span.start <= sel.end
    requires !Overlaps(Candidate(pattern, all, offset, find).value.span, sel)
    ensures Candidate(pattern, all, offset, find).value.span.end == offset
            ==> FindFrom(pattern, all, sel, offset, find) == Err(Diverges)
    ensures Candidate(pattern, all, offset, find).value.span.end > offset
            ==> FindFrom(pattern, all, sel, offset, find)
                == FindFrom(pattern, all, sel, Candidate(pattern, all, offset, find).value.span.end, find)
  {
  }

  /** One step of the scan of `find` from `from` to `to`: the candidate at
      `from` neither covers nor passes the selection, and it ends at `to`,
      further on. */
  predicate Skips(pattern: Expr, all: Bytes, sel: Span, from: nat, to: nat, find: RegexFinder)
    requires from <= |all|
  {
    var c := Candidate(pattern, all, from, find);
    c.Ok? && c.value.span.start <= sel.end && !Overlaps(c.value.span, sel) && from < c.value.span.end == to
  }

  /** `offsets` are successive offsets of the scan of `find`. */
  predicate ScanPath(pattern: Expr, all: Bytes, sel: Span, offsets: seq<nat>, find: RegexFinder) {
    |offsets| > 0
    && (forall i :: 0 <= i < |offsets| ==> offsets[i] <= |all|)
    && forall i :: 0 <= i < |offsets| - 1 ==> Skips(pattern, all, sel, offsets[i], offsets[i + 1], find)
  }

  /** What `find` returns is reached by a scan: a path of offsets from where
      the scan started, each skipping a candidate that neither covers nor
      passes the selection, to a candidate that starts no later than the
      selection's end, overlaps it, and is the returned range. */
  lemma {:induction false} FindSound(pattern: Expr, all: Bytes, sel: Span, offset: nat, find: RegexFinder)
      returns (path: seq<nat>)
    requires offset <= |all|
    requires FindFrom(pattern, all, sel, offset, find).Ok?
    ensures ScanPath(pattern, all, sel, path, find) && path[0] == offset
    ensures var v := FindFrom(pattern, all, sel, offset, find).value;
      v.RangeValue?
      && Candidate(pattern, all, path[|path| - 1], find) == Ok(Match(v.span, v.captures))
      && v.span.start <= sel.end && Overlaps(v.span, sel)
    decreases |all| - offset
  {
    var c := Candidate(pattern, all, offset, find).value;
    if Overlaps(c.span, sel) {
      path := [offset];
    } else {
      var rest := FindSound(pattern, all, sel, c.span.end, find);
      path := [offset] + rest;
      assert Skips(pattern, all, sel, path[0], path[1], find);
      forall i | 1 <= i < |path| - 1
        ensures Skips(pattern, all, sel, path[i], path[i + 1], find)
      {
        assert path[i] == rest[i - 1] && path[i + 1] == rest[i];
      }
    }
  }

  /** Conversely, a scan that follows a path of offsets ends where the path
      ends: with nothing found when the last candidate starts after the
      selection, and with the last candidate when it overlaps the selection. */
  lemma FindAlongPath(pattern: Expr, all: Bytes, sel: Span, path: seq<nat>, find: RegexFinder)
    requires ScanPath(pattern, all, sel, path, find)
    requires Candidate(pattern, all, path[|path| - 1], find).Ok?
    ensures var c := Candidate(pattern, all, path[|path| - 1], find).value;
      c.span.start > sel.end ==> FindFrom(pattern, all, sel, path[0], find) == Err(NotFound)
    ensures var c := Candidate(pattern, all, path[|path| - 1], find).value;
      c.span.start <= sel.end && Overlaps(c.span, sel)
      ==> FindFrom(pattern, all, sel, path[0], find) == Ok(RangeValue(c.span, c.captures))
  {
    FindFollowsPath(pattern, all, sel, path, find);
  }

  /** The scan from the start of a path gives what the scan from its end
      gives. */
  lemma {:induction false} FindFollowsPath(pattern: Expr, all: Bytes, sel: Span, path: seq<nat>, find: RegexFinder)
    requires ScanPath(pattern, all, sel, path, find)
    ensures FindFrom(pattern, all, sel, path[0], find) == FindFrom(pattern, all, sel, path[|path| - 1], find)
    decreases |path|
  {
    if |path| > 1 {
      assert Skips(pattern, all, sel, path[0], path[1], find);
      FindMovesOn(pattern, all, sel, path[0], find);
      var rest := path[1..];
      forall i | 0 <= i < |rest| - 1
        ensures Skips(pattern, all, sel, rest[i], rest[i + 1], find)
      {
        assert rest[i] == path[i + 1] && rest[i + 1] == path[i + 2];
      }
      FindFollowsPath(pattern, all, sel, rest, find);
    }
  }

  /** The range `find` returns holds the whole selection and lies in the
      buffer, so replacing it never fails. */
  lemma FindCoversSelection(pattern: Expr, ctx: Context, find: RegexFinder, text: Bytes)
    requires FindIn(pattern, ctx, find).Ok?
    ensures var v := FindIn(pattern, ctx, find).value;
      v.RangeValue?
      && v.span.start <= SelectedSpan(ctx).start && SelectedSpan(ctx).end <= v.span.end
      && v.span.Valid() && v.span.Within(|Flatten(ctx)|)
      && Replace(v.span, text, ctx).Ok?
  {
    var path := FindSound(pattern, Flatten(ctx), SelectedSpan(ctx), 0, find);
    OverlapsCanReplace(FindIn(pattern, ctx, find).value.span, SelectedSpan(ctx));
  }

  // ---------------------------------------------------------------------
  // Properties of eval

  /** Reading a variable that was never bound is an error. */
  lemma UnknownVariableFails(name: Bytes, scope: Scope, ctx: Context, find: RegexFinder)
    requires name !in scope
    ensures Eval(Ident(name), scope, ctx, find) == Err(UnknownVariable(name))
  {
  }

  /** `range.name` reads back the capture `name:` made, and fails when the
      pattern had no such binding. */
  lemma DotAccessReadsCapture(target: Expr, field: Bytes, scope: Scope, ctx: Context, find: RegexFinder,
                              span: Span, captures: map<Bytes, Bytes>)
    requires Eval(target, scope, ctx, find) == Ok(RangeValue(span, captures))
    ensures field in captures ==> Eval(DotAccess(target, field), scope, ctx, find) == Ok(Str(captures[field]))
    ensures field !in captures ==> Eval(DotAccess(target, field), scope, ctx, find) == Err(MissingBinding(field))
  {
  }

  /** `range.replace(arg)` with a range and a string evaluates to the
      commands that replace that range. */
  lemma EvalReplace(target: Expr, arg: Expr, scope: Scope, ctx: Context, find: RegexFinder,
                    span: Span, captures: map<Bytes, Bytes>, text: Bytes)
    requires Eval(target, scope, ctx, find) == Ok(RangeValue(span, captures))
    requires Eval(arg, scope, ctx, find) == Ok(Str(text))
    ensures Eval(MethodCall(target, "replace", [arg]), scope, ctx, find) == Replace(span, text, ctx)
  {
    assert [arg][0] == arg;
  }

  /** `range.replace(text)` yields the delete/backspace/insert commands that
      turn the buffer into the buffer with the range replaced by `text`. */
  lemma ReplaceEdits(target: Expr, arg: Expr, scope: Scope, ctx: Context, find: RegexFinder,
                     span: Span, captures: map<Bytes, Bytes>, text: Bytes)
    requires Eval(target, scope, ctx, find) == Ok(RangeValue(span, captures))
    requires span.Valid() && span.Within(|Flatten(ctx)|)
    requires Eval(arg, scope, ctx, find) == Ok(Str(text))
    requires Eval(MethodCall(target, "replace", [arg]), scope, ctx, find).Ok?
    ensures var ms := Eval(MethodCall(target, "replace", [arg]), scope, ctx, find).value;
      ms.Mutations?
      && Replay(Editor(Flatten(ctx), SelectedSpan(ctx)), ms.mutations)
         == Editor(Flatten(ctx)[..span.start] + text + Flatten(ctx)[span.end..], Span(span.start + |text|, span.start + |text|))
  {
    EvalReplace(target, arg, scope, ctx, find, span, captures, text);
    ReplaceRealisesEdit(Flatten(ctx), span, SelectedSpan(ctx), text);
  }

  // ---------------------------------------------------------------------
  // Properties of exec

  /** Running `b` after an outcome of running `a`. */
  function AndThen(first: Result<Outcome, ScriptError>, b: seq<TopLevel>, ctx: Context, find: RegexFinder): Result<Outcome, ScriptError> {
    if first.Err? then first
    else
      var o :- Run(b, first.value.scope, ctx, find);
      Ok(Outcome(o.scope, first.value.mutations + o.mutations))
  }

  /** Running `a` then `b` is running `a + b`: the scope flows from one to
      the next and the commands of `b` come after those of `a`. */
  lemma {:induction false} RunAppend(a: seq<TopLevel>, b: seq<TopLevel>, scope: Scope, ctx: Context, find: RegexFinder)
    ensures Run(a + b, scope, ctx, find) == AndThen(Run(a, scope, ctx, find), b, ctx, find)
    decreases |a|
  {
    if a == [] {
      assert a + b == b;
      var r := Run(b, scope, ctx, find);
      assert r.Ok? ==> [] + r.value.mutations == r.value.mutations;
    } else {
      assert (a + b)[0] == a[0] && (a + b)[1..] == a[1..] + b;
      match a[0] {
        case Statement(Assignment(name, value)) =>
          var v := Eval(value, scope, ctx, find);
          if v.Ok? {
            RunAppend(a[1..], b, scope[name := v.value], ctx, find);
          }
        case Statement(ExprStmt(e)) =>
          var v := Eval(e, scope, ctx, find);
          if v.Ok? {
            RunAppend(a[1..], b, scope, ctx, find);
            var ra := Run(a[1..], scope, ctx, find);
            if ra.Ok? {
              var rb := Run(b, ra.value.scope, ctx, find);
              if rb.Ok? {
                assert Emitted(v.value) + (ra.value.mutations + rb.value.mutations)
                    == (Emitted(v.value) + ra.value.mutations) + rb.value.mutations;
              }
            }
          }
        case Directive(_) =>
          RunAppend(a[1..], b, scope, ctx, find);
        case _ =>
      }
    }
  }

  /** `let` evaluates its value and binds it, replacing any earlier binding,
      for the items after it. */
  lemma AssignmentBinds(name: Bytes, value: Expr, rest: seq<TopLevel>, scope: Scope, ctx: Context, find: RegexFinder)
    ensures Eval(value, scope, ctx, find).Err? ==>
      Run([Statement(Assignment(name, value))] + rest, scope, ctx, find) == Err(Eval(value, scope, ctx, find).error)
    ensures Eval(value, scope, ctx, find).Ok? ==>
      Run([Statement(Assignment(name, value))] + rest, scope, ctx, find)
      == Run(rest, scope[name := Eval(value, scope, ctx, find).value], ctx, find)
  {
    assert ([Statement(Assignment(name, value))] + rest)[1..] == rest;
  }

  /** A directive does not affect the run. */
  lemma DirectiveSkipped(d: DirectiveDecl, rest: seq<TopLevel>, scope: Scope, ctx: Context, find: RegexFinder)
    ensures Run([Directive(d)] + rest, scope, ctx, find) == Run(rest, scope, ctx, find)
  {
    assert ([Directive(d)] + rest)[1..] == rest;
  }

  /** Imports and for-loops are not supported by the evaluator. */
  lemma ImportAndLoopUnsupported(i: ImportDecl, x: Bytes, source: Expr, body: seq<Stmt>, rest: seq<TopLevel>,
                                 scope: Scope, ctx: Context, find: RegexFinder)
    ensures Run([Import(i)] + rest, scope, ctx, find) == Err(Unsupported)
    ensures Run([Statement(ForLoop(x, source, body))] + rest, scope, ctx, find) == Err(Unsupported)
  {
  }

  // ---------------------------------------------------------------------
  // The find-and-replace script

  /** `let x = find(pattern); x.replace(arg);` */
  function FindReplace(x: Bytes, pattern: Expr, arg: Expr): Script {
    Script([Statement(Assignment(x, FnCall("find", [pattern]))),
            Statement(ExprStmt(MethodCall(Ident(x), "replace", [arg])))])
  }

  /** `find(pattern)` evaluates to the scan's result. */
  lemma EvalFind(pattern: Expr, scope: Scope, ctx: Context, find: RegexFinder)
    ensures Eval(FnCall("find", [pattern]), scope, ctx, find) == FindIn(pattern, ctx, find)
  {
    assert [pattern][0] == pattern;
  }

  /** An expression statement contributes its value's commands before those
      of the items after it. */
  lemma ExprStmtEmits(e: Expr, rest: seq<TopLevel>, scope: Scope, ctx: Context, find: RegexFinder, v: Value)
    requires Eval(e, scope, ctx, find) == Ok(v)
    ensures Run([Statement(ExprStmt(e))] + rest, scope, ctx, find) == AndThen(Ok(Outcome(scope, Emitted(v))), rest, ctx, find)
  {
    assert ([Statement(ExprStmt(e))] + rest)[1..] == rest;
  }

  /** When `find` fails, so does the find-and-replace script. */
  lemma FindReplaceFails(x: Bytes, pattern: Expr, arg: Expr, ctx: Context, find: RegexFinder)
    requires FindIn(pattern, ctx, find).Err?
    ensures Perform(FindReplace(x, pattern, arg), ctx, find) == Err(FindIn(pattern, ctx, find).error)
  {
    var assign := Statement(Assignment(x, FnCall("find", [pattern])));
    var replace := Statement(ExprStmt(MethodCall(Ident(x), "replace", [arg])));
    assert [assign, replace] == [assign] + [replace];
    EvalFind(pattern, map[], ctx, find);
    AssignmentBinds(x, FnCall("find", [pattern]), [replace], map[], ctx, find);
  }

  /** When `find` succeeds and the argument evaluates to a string, the
      commands of the find-and-replace script are those of replacing what
      `find` found by that string. */
  lemma FindReplacePerform(x: Bytes, pattern: Expr, arg: Expr, ctx: Context, find: RegexFinder, text: Bytes)
    requires FindIn(pattern, ctx, find).Ok?
    requires Eval(arg, map[x := FindIn(pattern, ctx, find).value], ctx, find) == Ok(Str(text))
    ensures DeleteRange(FindIn(pattern, ctx, find).value.span, SelectedSpan(ctx)).Some?
    ensures var keys := DeleteRange(FindIn(pattern, ctx, find).value.span, SelectedSpan(ctx)).value;
      Perform(FindReplace(x, pattern, arg), ctx, find) == Ok(EditScript(keys.deletes, keys.backspaces, text))
  {
    var found := FindIn(pattern, ctx, find).value;
    FindCoversSelection(pattern, ctx, find, text);
    var keys := DeleteRange(found.span, SelectedSpan(ctx)).value;
    var ms := EditScript(keys.deletes, keys.backspaces, text);
    ReplaceFound(x, arg, found, ctx, find, text, ms);
    PerformFound(x, pattern, arg, ctx, find, found, ms);
  }

  /** The find-and-replace script yields the commands of its `replace`. */
  lemma PerformFound(x: Bytes, pattern: Expr, arg: Expr, ctx: Context, find: RegexFinder, found: Value, ms: seq<Mutation>)
    requires FindIn(pattern, ctx, find) == Ok(found)
    requires Eval(MethodCall(Ident(x), "replace", [arg]), map[x := found], ctx, find) == Ok(Mutations(ms))
    ensures Perform(FindReplace(x, pattern, arg), ctx, find) == Ok(ms)
  {
    FindReplaceRun(x, pattern, arg, ctx, find, found, ms);
    PerformRun(FindReplace(x, pattern, arg), ctx, find, Outcome(map[x := found], ms));
  }

  /** The run of the find-and-replace script: `let` binds what `find`
      found, and the `replace` statement contributes the only commands. */
  lemma FindReplaceRun(x: Bytes, pattern: Expr, arg: Expr, ctx: Context, find: RegexFinder, found: Value, ms: seq<Mutation>)
    requires FindIn(pattern, ctx, find) == Ok(found)
    requires Eval(MethodCall(Ident(x), "replace", [arg]), map[x := found], ctx, find) == Ok(Mutations(ms))
    ensures Run(FindReplace(x, pattern, arg).topLevels, map[], ctx, find) == Ok(Outcome(map[x := found], ms))
  {
    var call := FindReplace(x, pattern, arg).topLevels[1].stmt.expr;
    FindThenBind(x, pattern, call, ctx, find, found);
    LastStmtEmits(call, map[x := found], ctx, find, ms);
  }

  /** A script whose run succeeds performs the commands of that run. */
  lemma PerformRun(script: Script, ctx: Context, find: RegexFinder, o: Outcome)
    requires Run(script.topLevels, map[], ctx, find) == Ok(o)
    ensures Perform(script, ctx, find) == Ok(o.mutations)
  {
  }

  /** The `let` of the find-and-replace script binds what `find` found. */
  lemma FindThenBind(x: Bytes, pattern: Expr, call: Expr, ctx: Context, find: RegexFinder, found: Value)
    requires FindIn(pattern, ctx, find) == Ok(found)
    ensures Run([Statement(Assignment(x, FnCall("find", [pattern]))), Statement(ExprStmt(call))], map[], ctx, find)
            == Run([Statement(ExprStmt(call))], map[x := found], ctx, find)
  {
    var assign := Statement(Assignment(x, FnCall("find", [pattern])));
    var replace := Statement(ExprStmt(call));
    assert [assign, replace] == [assign] + [replace];
    EvalFind(pattern, map[], ctx, find);
    AssignmentBinds(x, FnCall("find", [pattern]), [replace], map[], ctx, find);
  }

  /** `x.replace(arg)` on the bound range gives the commands of `Replace`. */
  lemma ReplaceFound(x: Bytes, arg: Expr, found: Value, ctx: Context, find: RegexFinder, text: Bytes, ms: seq<Mutation>)
    requires found.RangeValue?
    requires Eval(arg, map[x := found], ctx, find) == Ok(Str(text))
    requires Replace(found.span, text, ctx) == Ok(Mutations(ms))
    ensures Eval(MethodCall(Ident(x), "replace", [arg]), map[x := found], ctx, find) == Ok(Mutations(ms))
  {
    var scope := map[x := found];
    assert Eval(Ident(x), scope, ctx, find) == Ok(found);
    EvalReplace(Ident(x), arg, scope, ctx, find, found.span, found.captures, text);
  }

  /** A last expression statement contributes its commands and nothing else. */
  lemma LastStmtEmits(e: Expr, scope: Scope, ctx: Context, find: RegexFinder, ms: seq<Mutation>)
    requires Eval(e, scope, ctx, find) == Ok(Mutations(ms))
    ensures Run([Statement(ExprStmt(e))], scope, ctx, find) == Ok(Outcome(scope, ms))
  {
    assert [Statement(ExprStmt(e))][1..] == [];
    assert Run([], scope, ctx, find) == Ok(Outcome(scope, []));
    assert ms + [] == ms;
  }

  /** The find-and-replace script applies exactly when `find` succeeds, and
      then its commands replace the found range by `text` in the editor. */
  lemma FindReplaceRealisesEdit(x: Bytes, pattern: Expr, text: Bytes, ctx: Context, find: RegexFinder)
    ensures AppliesTo(FindReplace(x, pattern, StringLiteral(text)), ctx, find) <==> FindIn(pattern, ctx, find).Ok?
    ensures FindIn(pattern, ctx, find).Ok? ==>
      var t := FindIn(pattern, ctx, find).value.span;
      var all := Flatten(ctx);
      Replay(Editor(all, SelectedSpan(ctx)), Perform(FindReplace(x, pattern, StringLiteral(text)), ctx, find).value)
      == Editor(all[..t.start] + text + all[t.end..], Span(t.start + |text|, t.start + |text|))
  {
    var found := FindIn(pattern, ctx, find);
    if found.Ok? {
      FindReplacePerform(x, pattern, StringLiteral(text), ctx, find, text);
      ReplaceRealisesEdit(Flatten(ctx), found.value.span, SelectedSpan(ctx), text);
    } else {
      FindReplaceFails(x, pattern, StringLiteral(text), ctx, find);
    }
  }

  // ---------------------------------------------------------------------
  // The source's examples

  /** The editor contents of the source's tests: the odd-numbered regions
      are selected. */
  function Regions(texts: seq<Bytes>): Context {
    seq(|texts|, i requires 0 <= i < |texts| => Region(texts[i], i % 2 == 1))
  }

  /** `find("t")` applies to `t` and not to `u`. */
  lemma SingleCharExamples(find: RegexFinder)
    ensures AppliesTo(Script([Statement(ExprStmt(FnCall("find", [StringLiteral("t")])))]), Regions(["t"]), find)
    ensures !AppliesTo(Script([Statement(ExprStmt(FnCall("find", [StringLiteral("t")])))]), Regions(["u"]), find)
  {
    var stmt := Statement(ExprStmt(FnCall("find", [StringLiteral("t")])));
    assert [stmt][1..] == [];
    var t := Regions(["t"]);
    var u := Regions(["u"]);
    assert t == [Region("t", false)] && u == [Region("u", false)];
    assert t[..0] == [] && u[..0] == [];
    assert Flatten(t) == "t" && Flatten(u) == "u";
    assert FirstSelected(t) == None && FirstSelected(u) == None;
    assert OccursAt("t", "t", 0);
    assert "t"[0..] == "t" && "u"[0..] == "u";
    assert "u"[0..1] == "u";
    assert !OccursAt("t", "u", 0);
  }

  /** In the buffer `t`, with no selection, `find("t")` finds the `t`. */
  lemma FindSingleChar(find: RegexFinder)
    ensures SelectedSpan(Regions(["t"])) == Span(0, 0)
    ensures FindIn(StringLiteral("t"), Regions(["t"]), find) == Ok(RangeValue(Span(0, 1), map[]))
  {
    OneRegion("t");
    assert "t"[0..1] == "t";
    LiteralAt("t", "t", find, 0);
    FindFirstCandidate(StringLiteral("t"), "t", Span(0, 0), find, Match(Span(0, 1), map[]));
  }

  /** A buffer of one unselected region is its text, with the cursor at 0. */
  lemma OneRegion(t: Bytes)
    ensures Regions([t]) == [Region(t, false)]
    ensures Flatten(Regions([t])) == t && SelectedSpan(Regions([t])) == Span(0, 0)
  {
    var ctx := Regions([t]);
    assert ctx == [Region(t, false)];
    assert ctx[..0] == [];
    assert FirstSelected(ctx) == None;
  }

  /** When the match in the whole buffer already covers the selection, it
      is what `find` returns. */
  lemma FindFirstCandidate(pattern: Expr, all: Bytes, sel: Span, find: RegexFinder, m: Match)
    requires sel.Valid()
    requires Range(pattern, all, find) == Ok(m)
    requires Overlaps(m.span, sel)
    ensures FindFrom(pattern, all, sel, 0, find) == Ok(RangeValue(m.span, m.captures))
  {
    assert all[0..] == all;
    assert m.span.Shift(0) == m.span;
    assert Candidate(pattern, all, 0, find) == Ok(Match(m.span, m.captures));
  }

  /** `let region = find("t"); region.replace("r");` on `t` deletes the `t`
      and types `r`. */
  lemma SingleCharReplacement(region: Bytes, find: RegexFinder)
    ensures Perform(FindReplace(region, StringLiteral("t"), StringLiteral("r")), Regions(["t"]), find) == Ok([Delete(1), Insert("r")])
  {
    FindSingleChar(find);
    ReplaceAtCursor(region, StringLiteral("t"), StringLiteral("r"), Regions(["t"]), find, 0, 1, map[], "r");
  }

  /** The buffer `rrr`, `` (selected), `r` is `rrrr` with the cursor at 3. */
  lemma ThreeRegions()
    ensures Flatten(Regions(["rrr", "", "r"])) == "rrrr"
    ensures SelectedSpan(Regions(["rrr", "", "r"])) == Span(3, 3)
  {
    var ctx := Regions(["rrr", "", "r"]);
    assert ctx == [Region("rrr", false), Region("", true), Region("r", false)];
    assert ctx[..2][..1] == ctx[..1] && ctx[..1][..0] == [];
    assert ctx[..2] == [Region("rrr", false), Region("", true)];
    assert ctx[..1] == [Region("rrr", false)];
    assert Flatten(ctx[..1]) == "rrr";
    assert Flatten(ctx[..2]) == "rrr" + "";
    assert "rrr" + "" + "r" == "rrrr";
    assert FirstSelected(ctx) == Some(1);
  }

  /** In `rrrr` with the cursor at 3 the scan for `r` passes the three `r`s
      before the cursor (the last one ends exactly at it) and stops at the
      fourth. */
  lemma ScanPastOccurrences(all: Bytes, find: RegexFinder)
    requires all == "rrrr"
    ensures FindFrom(StringLiteral("r"), all, Span(3, 3), 0, find) == Ok(RangeValue(Span(3, 4), map[]))
  {
    var p := StringLiteral("r");
    forall k: nat | k < 4
      ensures Candidate(p, all, k, find) == Ok(Match(Span(k, k + 1), map[]))
    {
      assert all[k..][0..1] == "r";
      assert OccursAt("r", all[k..], 0);
    }
    FindMovesOn(p, all, Span(3, 3), 0, find);
    FindMovesOn(p, all, Span(3, 3), 1, find);
    FindMovesOn(p, all, Span(3, 3), 2, find);
  }

  lemma FindPastOccurrences(find: RegexFinder)
    ensures SelectedSpan(Regions(["rrr", "", "r"])) == Span(3, 3)
    ensures FindIn(StringLiteral("r"), Regions(["rrr", "", "r"]), find) == Ok(RangeValue(Span(3, 4), map[]))
  {
    ThreeRegions();
    ScanPastOccurrences(Flatten(Regions(["rrr", "", "r"])), find);
  }

  /** ... and replaces that fourth `r`. */
  lemma MultipleOccurrences(region: Bytes, find: RegexFinder)
    ensures Perform(FindReplace(region, StringLiteral("r"), StringLiteral("t")), Regions(["rrr", "", "r"]), find)
            == Ok([Delete(1), Insert("t")])
  {
    FindPastOccurrences(find);
    ReplaceAtCursor(region, StringLiteral("r"), StringLiteral("t"), Regions(["rrr", "", "r"]), find, 3, 1, map[], "t");
  }

  /** In `rate`, with no selection, `find("r" .. foo:(/\w+/))` finds the
      whole word and captures `ate`, given that the regex matches all of
      `ate`. */
  lemma FindWithBinding(foo: Bytes, find: RegexFinder)
    requires find("\\w+", "ate") == Some(Span(0, 3))
    ensures SelectedSpan(Regions(["rate"])) == Span(0, 0)
    ensures FindIn(Concatenate(StringLiteral("r"), Binding(foo, Regex("\\w+"))), Regions(["rate"]), find)
            == Ok(RangeValue(Span(0, 4), map[foo := "ate"]))
  {
    var pattern := Concatenate(StringLiteral("r"), Binding(foo, Regex("\\w+")));
    OneRegion("rate");
    RateMatch(foo, find);
    FindFirstCandidate(pattern, "rate", Span(0, 0), find, Match(Span(0, 4), map[foo := "ate"]));
  }

  /** `"r" .. foo:(/\w+/)` matches all of `rate` and captures `ate`. */
  lemma RateMatch(foo: Bytes, find: RegexFinder)
    requires find("\\w+", "ate") == Some(Span(0, 3))
    ensures Range(Concatenate(StringLiteral("r"), Binding(foo, Regex("\\w+"))), "rate", find)
            == Ok(Match(Span(0, 4), map[foo := "ate"]))
  {
    var all: Bytes := "rate";
    var em: map<Bytes, Bytes> := map[];
    var caps := map[foo := "ate"];
    assert all[0..1] == "r";
    LiteralAt("r", all, find, 0);
    assert all[1..] == "ate";
    assert "ate"[0..3] == "ate";
    assert Range(Binding(foo, Regex("\\w+")), all[1..], find) == Ok(Match(Span(0, 3), caps));
    ConcatAdjacent(StringLiteral("r"), Binding(foo, Regex("\\w+")), all, find, Match(Span(0, 1), em), Match(Span(0, 3), caps));
    assert em + caps == caps;
  }

  /** `let region = find("r" .. foo:(/\w+/)); region.replace(region.foo);` on
      `rate`, given that the regex matches all of `ate`: the whole word is
      deleted and the captured `ate` typed in its place. */
  lemma UsingBinding(region: Bytes, foo: Bytes, find: RegexFinder)
    requires find("\\w+", "ate") == Some(Span(0, 3))
    ensures Perform(FindReplace(region, Concatenate(StringLiteral("r"), Binding(foo, Regex("\\w+"))), DotAccess(Ident(region), foo)),
                    Regions(["rate"]), find)
            == Ok([Delete(4), Insert("ate")])
  {
    FindWithBinding(foo, find);
    ReplaceByCapture(region, Concatenate(StringLiteral("r"), Binding(foo, Regex("\\w+"))), foo, Regions(["rate"]), find);
  }

  /** Replacing a match that starts at the cursor by one of its captures. */
  lemma ReplaceByCapture(region: Bytes, pattern: Expr, foo: Bytes, ctx: Context, find: RegexFinder)
    requires SelectedSpan(ctx) == Span(0, 0)
    requires FindIn(pattern, ctx, find) == Ok(RangeValue(Span(0, 4), map[foo := "ate"]))
    ensures Perform(FindReplace(region, pattern, DotAccess(Ident(region), foo)), ctx, find) == Ok([Delete(4), Insert("ate")])
  {
    var caps := map[foo := "ate"];
    var found := RangeValue(Span(0, 4), caps);
    DotAccessReadsCapture(Ident(region), foo, map[region := found], ctx, find, Span(0, 4), caps);
    ReplaceAtCursor(region, pattern, DotAccess(Ident(region), foo), ctx, find, 0, 4, caps, "ate");
  }

  /** A match that starts at the cursor is replaced by deleting forward over
      it and typing the new text. */
  lemma ReplaceAtCursor(region: Bytes, pattern: Expr, arg: Expr, ctx: Context, find: RegexFinder,
                        start: nat, len: nat, caps: map<Bytes, Bytes>, text: Bytes)
    requires SelectedSpan(ctx) == Span(start, start)
    requires FindIn(pattern, ctx, find) == Ok(RangeValue(Span(start, start + len), caps))
    requires Eval(arg, map[region := RangeValue(Span(start, start + len), caps)], ctx, find) == Ok(Str(text))
    requires len > 0
    ensures Perform(FindReplace(region, pattern, arg), ctx, find) == Ok([Delete(len), Insert(text)])
  {
    FindReplacePerform(region, pattern, arg, ctx, find, text);
    assert DeleteRange(Span(start, start + len), Span(start, start)).value == Keys(len, 0);
    assert EditScript(len, 0, text) == [Delete(len), Insert(text)];
  }
}
