/** The tokenizer of the refactoring-script language
    (cli/src/refactorings/parser/lex.rs). The token rules of the `Token`
    enum become the functions below; `lex`, which pulls tokens from the
    stateful lexer until the input ends or the first error, becomes the
    method `Lex`, a loop over the input position. */
module Lexer {
  import opened Basics

  datatype Token =
    | Import | From | Let
    // `for` and `in` are used by the parser but no lexer rule produces them
    | For | In
    | OpenBrace | CloseBrace
    | OpenParen | CloseParen
    | Ident(name: Bytes)
    | Comma | SemiColon | Colon
    | Concatenate | Period
    | StringLiteral(text: Bytes)
    | Regex(pattern: Bytes)
    | Directive | Equal

  const FormFeed: Byte := 12 as char

  /** The skipped class `[ \t\n\f]`; a carriage return is not in it. */
  predicate IsSpace(c: Byte) {
    c == ' ' || c == '\t' || c == '\n' || c == FormFeed
  }

  predicate IsLetter(c: Byte) {
    ('a' <= c <= 'z') || ('A' <= c <= 'Z')
  }

  predicate IsDigit(c: Byte) {
    '0' <= c <= '9'
  }

  /** `[a-zA-Z0-9_]`, the characters that may follow an identifier's first letter. */
  predicate IsIdentChar(c: Byte) {
    IsLetter(c) || IsDigit(c) || c == '_'
  }

  /** Length of the run of identifier characters at the front of `s`. */
  function IdentLen(s: Bytes): (n: nat)
    ensures n <= |s|
    ensures forall k :: 0 <= k < n ==> IsIdentChar(s[k])
    ensures n < |s| ==> !IsIdentChar(s[n])
  {
    if s != [] && IsIdentChar(s[0]) then 1 + IdentLen(s[1..]) else 0
  }

  /** Index of the first `c` in `s`, if any. */
  function IndexOf(s: Bytes, c: Byte): (r: Option<nat>)
    ensures r.Some? ==> r.value < |s| && s[r.value] == c
    ensures r.Some? ==> forall k :: 0 <= k < r.value ==> s[k] != c
    ensures r.None? ==> forall k :: 0 <= k < |s| ==> s[k] != c
  {
    if s == [] then None
    else if s[0] == c then Some(0)
    else match IndexOf(s[1..], c)
      case None => None
      case Some(k) => Some(k + 1)
  }

  /** A word made of identifier characters: one of the three keywords when
      it is exactly that word (a token rule outranks the identifier rule on
      a tie), otherwise an identifier. */
  function Word(w: Bytes): (t: Token)
    ensures Spelling(t) == w
    ensures t.Ident? <==> !IsKeyword(w)
  {
    if w == "import" then Import
    else if w == "from" then From
    else if w == "let" then Let
    else Ident(w)
  }

  /** The single-character tokens. */
  function Punctuation(c: Byte): (r: Option<Token>)
    ensures r.Some? ==> Spelling(r.value) == [c]
    ensures r.Some? <==> c in "{}(),;:@="
  {
    if c == '{' then Some(OpenBrace)
    else if c == '}' then Some(CloseBrace)
    else if c == '(' then Some(OpenParen)
    else if c == ')' then Some(CloseParen)
    else if c == ',' then Some(Comma)
    else if c == ';' then Some(SemiColon)
    else if c == ':' then Some(Colon)
    else if c == '@' then Some(Directive)
    else if c == '=' then Some(Equal)
    else None
  }

  /** The outcome of one call of the lexer's `next()` on the remaining input:
      the end of input, a token together with the number of bytes it used
      (leading whitespace included), or the offset of a slice no rule
      accepts. */
  datatype Scan = End | Emit(token: Token, len: nat) | Fail(at: nat)

  /** The token rules, applied to the front of `s` with maximal munch;
      leading whitespace is skipped. */
  function NextToken(s: Bytes): (r: Scan)
    ensures r.Emit? ==> 0 < r.len <= |s|
    ensures r.Fail? ==> r.at < |s|
    decreases |s|, 1
  {
    if s == [] then End else ScanAt(s)
  }

  /** The scan of a non-empty input: a blank is skipped, and at any other
      byte the token rules apply. */
  function ScanAt(s: Bytes): (r: Scan)
    requires s != []
    ensures r.Emit? ==> 0 < r.len <= |s|
    ensures r.Fail? ==> r.at < |s|
    decreases |s|, 0
  {
    if IsSpace(s[0]) then Skipped(NextToken(s[1..])) else TokenRules(s)
  }

  /** A scan of the input after one blank byte, seen from before that byte. */
  function Skipped(r: Scan): Scan {
    match r
    case End => End
    case Emit(t, n) => Emit(t, n + 1)
    case Fail(at) => Fail(at + 1)
  }

  /** The token rules at a byte that is not whitespace: a token always
      starts here, or the input fails right here. */
  function TokenRules(s: Bytes): (r: Scan)
    requires s != [] && !IsSpace(s[0])
    ensures r.Emit? ==> 0 < r.len <= |s|
    ensures r.Fail? ==> r.at == 0
    ensures !r.End?
  {
    if IsLetter(s[0]) then
      var n := 1 + IdentLen(s[1..]);
      Emit(Word(s[..n]), n)
    else if s[0] == '.' then
      if |s| > 1 && s[1] == '.' then Emit(Concatenate, 2) else Emit(Period, 1)
    else if s[0] == '"' then
      match IndexOf(s[1..], '"')
      case None => Fail(0)
      case Some(q) => Emit(StringLiteral(s[1..q + 1]), q + 2)
    else if s[0] == '/' then
      match IndexOf(s[1..], '/')
      case Some(q) =>
        if q > 0 then Emit(Regex(s[1..q + 1]), q + 2) else Fail(0)
      case None => Fail(0)
    else
      match Punctuation(s[0])
      case Some(t) => Emit(t, 1)
      case None => Fail(0)
  }

  /** A blank in front is skipped: it only moves the scan one byte right. */
  lemma NextTokenBlank(c: Byte, rest: Bytes)
    requires IsSpace(c)
    ensures NextToken([c] + rest) == Skipped(NextToken(rest))
  {
    assert ([c] + rest)[1..] == rest;
  }

  /** At any byte that is not blank the token rules decide. */
  lemma NextTokenRules(s: Bytes)
    requires s != [] && !IsSpace(s[0])
    ensures NextToken(s) == TokenRules(s)
  {
  }

  /** The tokens `done` already taken from the first `consumed` bytes,
      followed by what the rest of the input lexes to. */
  function Resume(done: seq<Token>, consumed: nat, rest: Result<seq<Token>, nat>): Result<seq<Token>, nat> {
    match rest
    case Ok(ts) => Ok(done + ts)
    case Err(at) => Err(consumed + at)
  }

  /** What `lex` computes: every token in source order, or the offset of the
      first slice that no rule accepts. */
  function Tokenize(s: Bytes): (r: Result<seq<Token>, nat>)
    ensures r.Err? ==> r.error < |s|
    decreases |s|
  {
    match NextToken(s)
    case End => Ok([])
    case Fail(at) => Err(at)
    case Emit(t, n) => Resume([t], n, Tokenize(s[n..]))
  }

  lemma ResumeStep(done: seq<Token>, consumed: nat, rest: Bytes, t: Token, n: nat)
    requires NextToken(rest) == Emit(t, n)
    ensures Resume(done, consumed, Tokenize(rest)) == Resume(done + [t], consumed + n, Tokenize(rest[n..]))
  {
    TokenizeEmit(rest, t, n);
    ResumeNest(done, consumed, t, n, Tokenize(rest[n..]));
  }

  lemma ResumeNothing(rest: Result<seq<Token>, nat>)
    ensures Resume([], 0, rest) == rest
  {
    if rest.Ok? {
      assert [] + rest.value == rest.value;
    }
  }

  lemma ResumeNest(done: seq<Token>, consumed: nat, t: Token, n: nat, rest: Result<seq<Token>, nat>)
    ensures Resume(done, consumed, Resume([t], n, rest)) == Resume(done + [t], consumed + n, rest)
  {
    if rest.Ok? {
      assert done + ([t] + rest.value) == done + [t] + rest.value;
    }
  }

  /** One step of `Tokenize`, by the outcome of the first scan. */
  lemma TokenizeUnfold(s: Bytes)
    ensures NextToken(s).End? ==> Tokenize(s) == Ok([])
    ensures NextToken(s).Fail? ==> Tokenize(s) == Err(NextToken(s).at)
    ensures NextToken(s).Emit? ==> Tokenize(s) == Resume([NextToken(s).token], NextToken(s).len, Tokenize(s[NextToken(s).len..]))
  {
  }

  lemma TokenizeEmit(s: Bytes, t: Token, n: nat)
    requires NextToken(s) == Emit(t, n)
    ensures Tokenize(s) == Resume([t], n, Tokenize(s[n..]))
  {
  }

  /** One turn of the `lex` loop: the token found at offset `i` joins
      the tokens taken so far. */
  lemma LexStep(src: Bytes, tokens: seq<Token>, i: nat, t: Token, n: nat)
    requires i <= |src| && NextToken(src[i..]) == Emit(t, n)
    ensures i + n <= |src|
    ensures Resume(tokens, i, Tokenize(src[i..])) == Resume(tokens + [t], i + n, Tokenize(src[i + n..]))
  {
    DropDrop(src, i, n);
    ResumeStep(tokens, i, src[i..], t, n);
  }

  /** The `lex` loop ends at the end of the input. */
  lemma LexEnd(src: Bytes, tokens: seq<Token>, i: nat)
    requires i <= |src| && NextToken(src[i..]).End?
    ensures Resume(tokens, i, Tokenize(src[i..])) == Ok(tokens)
  {
    TokenizeUnfold(src[i..]);
    assert tokens + [] == tokens;
  }

  /** The `lex` loop stops at the first error. */
  lemma LexFail(src: Bytes, tokens: seq<Token>, i: nat)
    requires i <= |src| && NextToken(src[i..]).Fail?
    ensures Resume(tokens, i, Tokenize(src[i..])) == Err(i + NextToken(src[i..]).at)
  {
    TokenizeUnfold(src[i..]);
  }

  /** The lexer driver: take tokens until the input is used up, stopping at
      the first error. */
  method Lex(src: Bytes) returns (r: Result<seq<Token>, nat>)
    ensures r == Tokenize(src)
  {
    var tokens: seq<Token> := [];
    var i := 0;
    assert src[i..] == src;
    ResumeNothing(Tokenize(src));
    while true
      invariant i <= |src|
      invariant Tokenize(src) == Resume(tokens, i, Tokenize(src[i..]))
      decreases |src| - i
    {
      var rest := src[i..];
      var step := NextToken(rest);
      match step {
        case End =>
          LexEnd(src, tokens, i);
          return Ok(tokens);
        case Fail(at) =>
          LexFail(src, tokens, i);
          return Err(i + at);
        case Emit(t, n) =>
          LexStep(src, tokens, i, t, n);
          tokens := tokens + [t];
          i := i + n;
      }
    }
  }

  // ---------------------------------------------------------------------
  // Properties of the token rules

  /** Whitespace produces no token: lexing `c + rest` for a whitespace byte
      `c` gives exactly the tokens of `rest` (an error moves one byte right). */
  lemma TokenizeSkipsSpace(c: Byte, rest: Bytes)
    requires IsSpace(c)
    ensures Tokenize([c] + rest) == Resume([], 1, Tokenize(rest))
  {
    var s := [c] + rest;
    assert s[1..] == rest;
    NextTokenBlank(c, rest);
    match NextToken(rest)
    case End =>
      var none: seq<Token> := [];
      assert none + none == none;
    case Fail(at) =>
    case Emit(t, n) =>
      assert s[n + 1..] == rest[n..];
      var tail := Tokenize(rest[n..]);
      if tail.Ok? {
        assert [] + ([t] + tail.value) == [t] + tail.value;
      }
  }

  /** Input made only of space, tab, newline and form feed lexes to no tokens. */
  lemma {:induction false} TokenizeBlank(s: Bytes)
    requires forall k :: 0 <= k < |s| ==> IsSpace(s[k])
    ensures Tokenize(s) == Ok([])
  {
    if s != [] {
      TokenizeBlank(s[1..]);
      assert s == [s[0]] + s[1..];
      TokenizeSkipsSpace(s[0], s[1..]);
      ResumeNothing(Ok([]));
    }
  }

  /** A byte that no rule can start a token with. */
  predicate Unrecognised(c: Byte) {
    !IsSpace(c) && !IsLetter(c) && c != '.' && c != '"' && c != '/' && Punctuation(c).None?
  }

  /** A carriage return is not whitespace to the lexer: it is an error. */
  lemma CarriageReturnIsError(rest: Bytes)
    ensures Tokenize(['\r'] + rest) == Err(0)
  {
    assert Unrecognised('\r');
    NextTokenRules(['\r'] + rest);
  }

  /** A token scanned from `s` is scanned the same from any prefix of `s`
      that still holds the whole token: the rules never look further ahead
      than the bytes they consume. */
  lemma {:induction false} NextTokenPrefix(s: Bytes, k: nat)
    requires NextToken(s).Emit? && NextToken(s).len <= k <= |s|
    ensures NextToken(s[..k]) == NextToken(s)
  {
    var p := s[..k];
    if IsSpace(s[0]) {
      assert p[1..] == s[1..][..k - 1];
      NextTokenPrefix(s[1..], k - 1);
    } else {
      RulesPrefix(s, k);
    }
  }

  lemma RulesPrefix(s: Bytes, k: nat)
    requires s != [] && !IsSpace(s[0])
    requires TokenRules(s).Emit? && TokenRules(s).len <= k <= |s|
    ensures s[..k] != [] && s[..k][0] == s[0]
    ensures TokenRules(s[..k]) == TokenRules(s)
  {
    var p := s[..k];
    assert p[0] == s[0];
    if IsLetter(s[0]) {
      var n := 1 + IdentLen(s[1..]);
      IdentLenPrefix(s[1..], k - 1);
      assert p[1..] == s[1..][..k - 1];
      assert p[..n] == s[..n];
    } else if s[0] == '"' || s[0] == '/' {
      QuotedPrefix(s, k);
    }
  }

  /** A literal between two quote (or slash) bytes reads the same from a
      prefix that still holds the closing byte. */
  lemma QuotedPrefix(s: Bytes, k: nat)
    requires s != [] && IndexOf(s[1..], s[0]).Some? && IndexOf(s[1..], s[0]).value + 2 <= k <= |s|
    ensures s[..k][1..] == s[1..][..k - 1]
    ensures IndexOf(s[..k][1..], s[0]) == IndexOf(s[1..], s[0])
    ensures var q := IndexOf(s[1..], s[0]).value; s[..k][1..q + 1] == s[1..q + 1]
  {
    IndexOfPrefix(s[1..], s[0], k - 1);
    assert s[..k][1..] == s[1..][..k - 1];
  }

  lemma {:induction false} IdentLenPrefix(s: Bytes, k: nat)
    requires IdentLen(s) <= k <= |s|
    ensures IdentLen(s[..k]) == IdentLen(s)
  {
    if s != [] && IsIdentChar(s[0]) {
      assert s[..k][1..] == s[1..][..k - 1];
      IdentLenPrefix(s[1..], k - 1);
    }
  }

  lemma {:induction false} IndexOfPrefix(s: Bytes, c: Byte, k: nat)
    requires IndexOf(s, c).Some? && IndexOf(s, c).value < k <= |s|
    ensures IndexOf(s[..k], c) == IndexOf(s, c)
  {
    if s[0] != c {
      assert s[..k][1..] == s[1..][..k - 1];
      IndexOfPrefix(s[1..], c, k - 1);
    }
  }

  /** `lex` stops at the FIRST unrecognised input: the bytes before the
      reported offset lex without error, and the byte at that offset starts
      no token (a byte no rule accepts, or a quote or slash whose literal is
      never closed). */
  lemma {:induction false} TokenizeErrorIsFirst(s: Bytes)
    requires Tokenize(s).Err?
    ensures var at := Tokenize(s).error;
            Tokenize(s[..at]).Ok? && NextToken(s[at..]) == Fail(0)
  {
    match NextToken(s)
    case Fail(at) =>
      ErrorAtFail(s, at);
    case Emit(t, n) =>
      EmitThenError(s, t, n);
      TokenizeErrorIsFirst(s[n..]);
      ErrorAfterToken(s, t, n, Tokenize(s[n..]).error);
  }

  /** An error at the first token: only blanks precede it. */
  lemma ErrorAtFail(s: Bytes, at: nat)
    requires NextToken(s) == Fail(at)
    ensures Tokenize(s) == Err(at)
    ensures Tokenize(s[..at]).Ok? && NextToken(s[at..]) == Fail(0)
  {
    TokenizeUnfold(s);
    FailAfterBlank(s);
    BlankPrefix(s, at);
  }

  /** A failing input that starts with a token fails after it. */
  lemma EmitThenError(s: Bytes, t: Token, n: nat)
    requires NextToken(s) == Emit(t, n) && Tokenize(s).Err?
    ensures Tokenize(s[n..]).Err?
  {
    TokenizeEmit(s, t, n);
  }

  lemma BlankPrefix(s: Bytes, at: nat)
    requires at <= |s| && forall k :: 0 <= k < at ==> IsSpace(s[k])
    ensures Tokenize(s[..at]) == Ok([])
  {
    assert forall k :: 0 <= k < at ==> s[..at][k] == s[k];
    TokenizeBlank(s[..at]);
  }

  /** The error of the input after a token, moved past that token. */
  lemma ErrorAfterToken(s: Bytes, t: Token, n: nat, at': nat)
    requires NextToken(s) == Emit(t, n) && Tokenize(s[n..]) == Err(at')
    requires Tokenize(s[n..][..at']).Ok? && NextToken(s[n..][at'..]) == Fail(0)
    ensures Tokenize(s) == Err(n + at')
    ensures Tokenize(s[..n + at']).Ok? && NextToken(s[n + at'..]) == Fail(0)
  {
    DropDrop(s, n, at');
    // the first token reads the same from the prefix
    NextTokenPrefix(s, n + at');
    TakeDrop(s, n, at');
    PrefixLexes(s[..n + at'], t, n);
  }

  lemma DropDrop<T>(s: seq<T>, n: nat, m: nat)
    requires n + m <= |s|
    ensures s[n..][m..] == s[n + m..]
  {
  }

  /** Input whose first token is followed by input that lexes, lexes. */
  lemma PrefixLexes(p: Bytes, t: Token, n: nat)
    requires NextToken(p) == Emit(t, n) && Tokenize(p[n..]).Ok?
    ensures Tokenize(p).Ok?
  {
    TokenizeEmit(p, t, n);
  }

  lemma TakeDrop<T>(s: seq<T>, n: nat, m: nat)
    requires n + m <= |s|
    ensures s[..n + m][n..] == s[n..][..m]
  {
  }

  /** A failing scan skips only whitespace before the byte it rejects. */
  lemma {:induction false} FailAfterBlank(s: Bytes)
    requires NextToken(s).Fail?
    ensures var at := NextToken(s).at;
            NextToken(s[at..]) == Fail(0) && forall k :: 0 <= k < at ==> IsSpace(s[k])
  {
    if IsSpace(s[0]) {
      FailAfterBlank(s[1..]);
      assert s[1..][NextToken(s[1..]).at..] == s[NextToken(s).at..];
    }
  }

  // ---------------------------------------------------------------------
  // Round trip: printing tokens and lexing them back

  /** The source text of a token. */
  function Spelling(t: Token): Bytes {
    match t
    case Import => "import"
    case From => "from"
    case Let => "let"
    case For => "for"
    case In => "in"
    case OpenBrace => "{"
    case CloseBrace => "}"
    case OpenParen => "("
    case CloseParen => ")"
    case Ident(name) => name
    case Comma => ","
    case SemiColon => ";"
    case Colon => ":"
    case Concatenate => ".."
    case Period => "."
    case StringLiteral(text) => "\"" + text + "\""
    case Regex(pattern) => "/" + pattern + "/"
    case Directive => "@"
    case Equal => "="
  }

  /** Tokens printed one after another, each followed by a space. */
  function Render(ts: seq<Token>): Bytes {
    if ts == [] then [] else Spelling(ts[0]) + " " + Render(ts[1..])
  }

  predicate IsKeyword(w: Bytes) {
    w == "import" || w == "from" || w == "let"
  }

  /** The tokens the lexer can produce: an identifier is a letter followed
      by identifier characters and is not a keyword, a string literal holds
      no quote, a regex literal is non-empty and holds no slash, and `for`
      and `in` are never produced. */
  predicate Lexable(t: Token) {
    match t
    case For => false
    case In => false
    case Ident(name) =>
      name != [] && IsLetter(name[0]) && !IsKeyword(name)
      && forall k :: 0 <= k < |name| ==> IsIdentChar(name[k])
    case StringLiteral(text) => forall k :: 0 <= k < |text| ==> text[k] != '"'
    case Regex(pattern) => pattern != [] && forall k :: 0 <= k < |pattern| ==> pattern[k] != '/'
    case _ => true
  }

  lemma {:induction false} IdentLenRun(a: Bytes, b: Bytes)
    requires forall k :: 0 <= k < |a| ==> IsIdentChar(a[k])
    requires b != [] && !IsIdentChar(b[0])
    ensures IdentLen(a + b) == |a|
  {
    if a != [] {
      assert (a + b)[1..] == a[1..] + b;
      IdentLenRun(a[1..], b);
    }
  }

  lemma {:induction false} IndexOfFirst(a: Bytes, c: Byte, b: Bytes)
    requires forall k :: 0 <= k < |a| ==> a[k] != c
    ensures IndexOf(a + [c] + b, c) == Some(|a|)
  {
    if a != [] {
      assert (a + [c] + b)[1..] == a[1..] + [c] + b;
      IndexOfFirst(a[1..], c, b);
    }
  }

  /** Maximal munch stops at the space after a printed token. */
  lemma NextTokenSpelling(t: Token, rest: Bytes)
    requires Lexable(t)
    ensures NextToken(Spelling(t) + " " + rest) == Emit(t, |Spelling(t)|)
  {
    var w := Spelling(t);
    match t
    case Import => WordSpelling(w, rest);
    case From => WordSpelling(w, rest);
    case Let => WordSpelling(w, rest);
    case Ident(_) => WordSpelling(w, rest);
    case StringLiteral(text) => QuotedSpelling('"', text, rest);
    case Regex(pattern) => QuotedSpelling('/', pattern, rest);
    case Concatenate =>
      var s := w + " " + rest;
      assert s[0] == '.' && s[1] == '.';
    case Period =>
      var s := w + " " + rest;
      assert s[0] == '.' && s[1] == ' ';
    case OpenBrace | CloseBrace | OpenParen | CloseParen | Comma | SemiColon | Colon | Directive | Equal =>
      PunctuationSpelling(w[0], t, rest);
  }

  /** A one-byte token followed by a blank. */
  lemma PunctuationSpelling(c: Byte, t: Token, rest: Bytes)
    requires Punctuation(c) == Some(t)
    ensures NextToken([c] + " " + rest) == Emit(t, 1)
  {
    assert ([c] + " " + rest)[0] == c;
  }

  /** A string or regex literal: its text, between two `q` bytes, holds no
      `q`. */
  lemma QuotedSpelling(q: Byte, text: Bytes, rest: Bytes)
    requires q == '"' || (q == '/' && text != [])
    requires q !in text
    ensures var s := [q] + text + [q] + " " + rest;
            NextToken(s) == Emit(if q == '"' then StringLiteral(text) else Regex(text), |text| + 2)
  {
    var s := [q] + text + [q] + " " + rest;
    assert s[1..] == text + [q] + ([' '] + rest);
    assert forall k :: 0 <= k < |text| ==> text[k] != q;
    IndexOfFirst(text, q, [' '] + rest);
    assert s[1..|text| + 1] == text;
  }

  /** A printed word is scanned whole, as the token `Word` makes of it. */
  lemma WordSpelling(w: Bytes, rest: Bytes)
    requires w != [] && IsLetter(w[0])
    requires forall k :: 0 <= k < |w| ==> IsIdentChar(w[k])
    ensures NextToken(w + " " + rest) == Emit(Word(w), |w|)
  {
    var s := w + " " + rest;
    assert s[1..] == w[1..] + ([' '] + rest);
    IdentLenRun(w[1..], [' '] + rest);
    assert s[..|w|] == w;
  }

  /** A printed token followed by a blank lexes to that token, then to
      whatever the rest lexes to. */
  lemma SpellingThenBlank(t: Token, tail: Bytes)
    requires Lexable(t)
    ensures Tokenize(Spelling(t) + " " + tail) == Resume([t], |Spelling(t)| + 1, Tokenize(tail))
  {
    var w := Spelling(t);
    var s := w + " " + tail;
    NextTokenSpelling(t, tail);
    assert s[|w|..] == [' '] + tail;
    TokenizeSkipsSpace(' ', tail);
    ResumeBlank([t], |w|, Tokenize(tail));
  }

  lemma ResumeBlank(done: seq<Token>, consumed: nat, rest: Result<seq<Token>, nat>)
    ensures Resume(done, consumed, Resume([], 1, rest)) == Resume(done, consumed + 1, rest)
  {
    if rest.Ok? {
      assert [] + rest.value == rest.value;
    }
  }

  /** Lexing printed tokens gives back exactly those tokens. */
  lemma {:induction false} TokenizeRender(ts: seq<Token>)
    requires forall i :: 0 <= i < |ts| ==> Lexable(ts[i])
    ensures Tokenize(Render(ts)) == Ok(ts)
  {
    if ts != [] {
      TokenizeRender(ts[1..]);
      SpellingThenBlank(ts[0], Render(ts[1..]));
      assert [ts[0]] + ts[1..] == ts;
    }
  }
}
