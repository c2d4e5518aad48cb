/** The syntax tree the parser builds (cli/src/refactorings/parser/mod.rs,
    the `TopLevel`, `Import`, `Directive`, `Stmt` and `Expr` types) and the
    parsed script (cli/src/refactorings/script.rs, `Script`). */
module Ast {
  import opened Basics

  datatype Expr =
    | Binding(name: Bytes, inner: Expr)
    | DotAccess(target: Expr, field: Bytes)
    | FnCall(func: Bytes, args: seq<Expr>)
    | MethodCall(receiver: Expr, member: Bytes, args: seq<Expr>)
    | Ident(name: Bytes)
    | StringLiteral(text: Bytes)
      // a regex literal that compiled; the pattern text stands for the compiled regex
    | Regex(pattern: Bytes)
    | Concatenate(left: Expr, right: Expr)

  datatype Stmt =
    | ForLoop(variable: Bytes, source: Expr, body: seq<Stmt>)
    | ExprStmt(expr: Expr)
    | Assignment(name: Bytes, value: Expr)

  datatype ImportDecl = ImportDecl(idents: seq<Bytes>, source: Bytes)

  datatype DirectiveDecl = DirectiveDecl(name: Bytes, value: Bytes)

  datatype TopLevel =
    | Import(decl: ImportDecl)
    | Directive(directive: DirectiveDecl)
    | Statement(stmt: Stmt)

  /** A script is its top-level items in source order. */
  datatype Script = Script(topLevels: seq<TopLevel>)

  /** An expression or `let` statement must be closed by `;`; a for-loop,
      closed by its body's brace, need not. */
  predicate RequiresTerminal(s: Stmt) {
    match s
    case ForLoop(_, _, _) => false
    case ExprStmt(_) => true
    case Assignment(_, _) => true
  }
}
