/** Pattern matching: `Script::range` in cli/src/refactorings/script.rs,
    which resolves a pattern expression against a text into a byte range and
    the named captures made inside it. */
module Matcher {
  import opened Basics
  import opened Ast

  /** Everything a script can fail with. The source reports these as
      strings; `Unsupported` stands for its `unimplemented!` panics and
      `Diverges` for the inputs on which it recurses or loops forever. */
  datatype ScriptError =
    | LiteralNotFound(literal: Bytes)
    | NoRegexMatch(pattern: Bytes)
    | NotFound
    | TooFewArguments(callee: Bytes)
    | ExpectedString
    | CouldNotMutate
    | UnknownVariable(name: Bytes)
    | MissingBinding(name: Bytes)
    | Unsupported
    | Diverges

  /** `r` is absent or a range inside a text of `n` bytes. */
  predicate FitsText(r: Option<Span>, n: nat) {
    r.Some? ==> r.value.Valid() && r.value.Within(n)
  }

  /** The regex engine's leftmost match of a pattern in a text, left
      uninterpreted: all the model knows is that a match lies in the text. */
  type RegexFinder = f: (Bytes, Bytes) -> Option<Span> | forall p, t :: FitsText(f(p, t), |t|)
    witness (p: Bytes, t: Bytes) => None

  /** A match: its range and the captures made by bindings inside it. */
  datatype Match = Match(span: Span, captures: map<Bytes, Bytes>)

  /** `pat` occurs in `text` at `i`. */
  predicate OccursAt(pat: Bytes, text: Bytes, i: nat) {
    i + |pat| <= |text| && text[i..i + |pat|] == pat
  }

  /** The first occurrence of `pat` in `text` (Rust `str::find` with a
      string pattern; the empty pattern occurs at 0). */
  function FirstOccurrence(pat: Bytes, text: Bytes): (r: Option<nat>)
    ensures r.Some? ==> OccursAt(pat, text, r.value)
    ensures r.Some? ==> forall j :: 0 <= j < r.value ==> !OccursAt(pat, text, j)
    ensures r.None? ==> forall j :: 0 <= j ==> !OccursAt(pat, text, j)
  {
    OccurrenceFrom(pat, text, 0)
  }

  function OccurrenceFrom(pat: Bytes, text: Bytes, i: nat): (r: Option<nat>)
    requires forall j :: 0 <= j < i ==> !OccursAt(pat, text, j)
    ensures r.Some? ==> i <= r.value && OccursAt(pat, text, r.value)
    ensures r.Some? ==> forall j :: 0 <= j < r.value ==> !OccursAt(pat, text, j)
    ensures r.None? ==> forall j :: 0 <= j ==> !OccursAt(pat, text, j)
    decreases |text| - i
  {
    if i + |pat| > |text| then None
    else if text[i..i + |pat|] == pat then Some(i)
    else OccurrenceFrom(pat, text, i + 1)
  }

  /** `range`: where the pattern `e` matches in `contents`.
      - a string literal: its first occurrence;
      - a regex: the regex engine's match;
      - `left .. right`: the left match, then the right pattern searched in
        the text after it; when the right match does not start right there,
        the whole concatenation is searched again in that remaining text
        (forever, when the left match is empty at the start);
      - `name:(inner)`: the inner match, capturing its text under `name`;
      - anything else is unsupported. */
  function Range(e: Expr, contents: Bytes, find: RegexFinder): (r: Result<Match, ScriptError>)
    ensures r.Ok? ==> r.value.span.Valid() && r.value.span.Within(|contents|)
    decreases |contents|, e
  {
    match e
    case StringLiteral(s) =>
      (match FirstOccurrence(s, contents)
       case None => Err(LiteralNotFound(s))
       case Some(start) => Ok(Match(Span(start, start + |s|), map[])))
    case Regex(p) =>
      (match find(p, contents)
       case None => Err(NoRegexMatch(p))
       case Some(span) => Ok(Match(span, map[])))
    case Concatenate(left, right) =>
      var lm :- Range(left, contents, find);
      var rest := contents[lm.span.end..];
      var rm :- Range(right, rest, find);
      if rm.span.start != 0 then
        if lm.span.end == 0 then Err(Diverges)
        else
          var sub :- Range(e, rest, find);
          Ok(Match(sub.span.Shift(lm.span.end), sub.captures))
      else
        Ok(Match(Span(lm.span.start, lm.span.end + rm.span.Len()), lm.captures + rm.captures))
    case Binding(name, inner) =>
      var m :- Range(inner, contents, find);
      Ok(Match(m.span, m.captures[name := contents[m.span.start..m.span.end]]))
    case _ => Err(Unsupported)
  }

  // ---------------------------------------------------------------------
  // Literals and bindings

  /** A string literal matches exactly at its first occurrence, and fails
      exactly when it does not occur. */
  lemma LiteralMatch(s: Bytes, contents: Bytes, find: RegexFinder)
    ensures Range(StringLiteral(s), contents, find).Err? <==> forall j :: 0 <= j ==> !OccursAt(s, contents, j)
    ensures Range(StringLiteral(s), contents, find).Ok? ==>
      var sp := Range(StringLiteral(s), contents, find).value.span;
      contents[sp.start..sp.end] == s && forall j :: 0 <= j < sp.start ==> !OccursAt(s, contents, j)
  {
    var r := FirstOccurrence(s, contents);
    if r.None? {
      assert Range(StringLiteral(s), contents, find) == Err(LiteralNotFound(s));
    } else {
      assert !(forall j :: 0 <= j ==> !OccursAt(s, contents, j)) by {
        assert OccursAt(s, contents, r.value);
      }
    }
  }

  /** A binding matches where its inner pattern does, adds the matched text
      under its name (replacing an inner capture of that name) and keeps the
      other captures. */
  lemma BindingCapture(name: Bytes, inner: Expr, contents: Bytes, find: RegexFinder)
    ensures Range(Binding(name, inner), contents, find).Ok? <==> Range(inner, contents, find).Ok?
    ensures Range(inner, contents, find).Ok? ==>
      var m := Range(inner, contents, find).value;
      var b := Range(Binding(name, inner), contents, find).value;
      b.span == m.span
      && b.captures.Keys == m.captures.Keys + {name}
      && b.captures[name] == contents[m.span.start..m.span.end]
      && forall k :: k in m.captures && k != name ==> b.captures[k] == m.captures[k]
  {
  }

  // ---------------------------------------------------------------------
  // Concatenation

  /** When the right pattern matches right at the end of the left match, the
      concatenation matches both, back to back; right-hand captures win over
      left-hand ones of the same name. */
  lemma ConcatAdjacent(left: Expr, right: Expr, contents: Bytes, find: RegexFinder, lm: Match, rm: Match)
    requires Range(left, contents, find) == Ok(lm)
    requires Range(right, contents[lm.span.end..], find) == Ok(rm)
    requires rm.span.start == 0
    ensures Range(Concatenate(left, right), contents, find)
            == Ok(Match(Span(lm.span.start, lm.span.end + rm.span.end), lm.captures + rm.captures))
  {
  }

  /** When the right pattern matches later, the search starts again right
      after the left match; when the left match is empty at the start that
      search would never end. */
  lemma ConcatRetry(left: Expr, right: Expr, contents: Bytes, find: RegexFinder, lm: Match, rm: Match)
    requires Range(left, contents, find) == Ok(lm)
    requires Range(right, contents[lm.span.end..], find) == Ok(rm)
    requires rm.span.start != 0
    ensures lm.span.end == 0 ==> Range(Concatenate(left, right), contents, find) == Err(Diverges)
    ensures lm.span.end > 0 ==>
      var again := Range(Concatenate(left, right), contents[lm.span.end..], find);
      var whole := Range(Concatenate(left, right), contents, find);
      (whole.Ok? <==> again.Ok?)
      && (again.Ok? ==> whole.value == Match(again.value.span.Shift(lm.span.end), again.value.captures))
  {
  }

  /** A successful concatenation is a left match immediately followed by a
      right match, both found in the text after some earlier point: the
      result starts where the left match starts, ends where the right match
      ends, is as long as the two together, and carries the left captures
      overridden by the right ones. */
  lemma {:induction false} ConcatContiguous(left: Expr, right: Expr, contents: Bytes, find: RegexFinder)
      returns (offset: nat, lm: Match, rm: Match)
    requires Range(Concatenate(left, right), contents, find).Ok?
    ensures offset <= |contents|
    ensures Range(left, contents[offset..], find) == Ok(lm)
    ensures Range(right, contents[offset + lm.span.end..], find) == Ok(rm)
    ensures rm.span.start == 0
    ensures Range(Concatenate(left, right), contents, find).value
            == Match(Span(offset + lm.span.start, offset + lm.span.end + rm.span.end), lm.captures + rm.captures)
    ensures Range(Concatenate(left, right), contents, find).value.span.Len() == lm.span.Len() + rm.span.Len()
    decreases |contents|, 1
  {
    var l0 := Range(left, contents, find).value;
    var r0 := Range(right, contents[l0.span.end..], find).value;
    if r0.span.start != 0 {
      offset, lm, rm := ConcatRetried(left, right, contents, find, l0, r0);
    } else {
      offset, lm, rm := 0, l0, r0;
      ConcatAdjacent(left, right, contents, find, l0, r0);
      assert contents[0..] == contents;
    }
  }

  /** The retry case of `ConcatContiguous`: the match is the one found in
      the text after the first left match. */
  lemma {:induction false} ConcatRetried(left: Expr, right: Expr, contents: Bytes, find: RegexFinder, l0: Match, r0: Match)
      returns (offset: nat, lm: Match, rm: Match)
    requires Range(Concatenate(left, right), contents, find).Ok?
    requires Range(left, contents, find) == Ok(l0)
    requires Range(right, contents[l0.span.end..], find) == Ok(r0)
    requires r0.span.start != 0
    ensures offset <= |contents|
    ensures Range(left, contents[offset..], find) == Ok(lm)
    ensures Range(right, contents[offset + lm.span.end..], find) == Ok(rm)
    ensures rm.span.start == 0
    ensures Range(Concatenate(left, right), contents, find).value
            == Match(Span(offset + lm.span.start, offset + lm.span.end + rm.span.end), lm.captures + rm.captures)
    ensures Range(Concatenate(left, right), contents, find).value.span.Len() == lm.span.Len() + rm.span.Len()
    decreases |contents|, 0
  {
    var rest := contents[l0.span.end..];
    ConcatRetry(left, right, contents, find, l0, r0);
    var o, l, r := ConcatContiguous(left, right, rest, find);
    offset := l0.span.end + o;
    assert rest[o..] == contents[offset..];
    assert rest[o + l.span.end..] == contents[offset + l.span.end..];
    lm, rm := l, r;
  }

  // ---------------------------------------------------------------------
  // Captures

  /** `v` is the text at `i`, inside the range `sp` of `contents`. */
  predicate TextInside(v: Bytes, contents: Bytes, sp: Span, i: nat) {
    sp.start <= i && i + |v| <= sp.end && sp.end <= |contents| && contents[i..i + |v|] == v
  }

  /** Every capture of `m` is a piece of `contents` inside `m`'s range. */
  ghost predicate CapturesInside(m: Match, contents: Bytes) {
    forall k :: k in m.captures ==> exists i: nat :: TextInside(m.captures[k], contents, m.span, i)
  }

  lemma CapturesShift(m: Match, contents: Bytes, off: nat)
    requires off <= |contents| && CapturesInside(m, contents[off..])
    ensures CapturesInside(Match(m.span.Shift(off), m.captures), contents)
  {
    forall k | k in m.captures
      ensures exists i: nat :: TextInside(m.captures[k], contents, m.span.Shift(off), i)
    {
      var v := m.captures[k];
      var i: nat :| TextInside(v, contents[off..], m.span, i);
      assert contents[off..][i..i + |v|] == contents[off + i..off + i + |v|];
      assert TextInside(v, contents, m.span.Shift(off), off + i);
    }
  }

  lemma CapturesWiden(m: Match, contents: Bytes, sp: Span)
    requires CapturesInside(m, contents)
    requires sp.start <= m.span.start && m.span.end <= sp.end <= |contents|
    ensures CapturesInside(Match(sp, m.captures), contents)
  {
    forall k | k in m.captures
      ensures exists i: nat :: TextInside(m.captures[k], contents, sp, i)
    {
      var i: nat :| TextInside(m.captures[k], contents, m.span, i);
      assert TextInside(m.captures[k], contents, sp, i);
    }
  }

  lemma CapturesMerge(a: map<Bytes, Bytes>, b: map<Bytes, Bytes>, contents: Bytes, sp: Span)
    requires CapturesInside(Match(sp, a), contents) && CapturesInside(Match(sp, b), contents)
    ensures CapturesInside(Match(sp, a + b), contents)
  {
    forall k | k in a + b
      ensures exists i: nat :: TextInside((a + b)[k], contents, sp, i)
    {
      if k in b {
        var i: nat :| TextInside(b[k], contents, sp, i);
        assert TextInside((a + b)[k], contents, sp, i);
      } else {
        var i: nat :| TextInside(a[k], contents, sp, i);
        assert TextInside((a + b)[k], contents, sp, i);
      }
    }
  }

  /** Whatever a pattern captures is text inside the range it matched. */
  lemma {:induction false} CapturesLieInMatch(e: Expr, contents: Bytes, find: RegexFinder)
    requires Range(e, contents, find).Ok?
    ensures CapturesInside(Range(e, contents, find).value, contents)
    decreases |contents|, e
  {
    var m := Range(e, contents, find).value;
    match e {
      case StringLiteral(_) =>
      case Regex(_) =>
      case Binding(name, inner) =>
        var im := Range(inner, contents, find).value;
        CapturesLieInMatch(inner, contents, find);
        forall k | k in m.captures
          ensures exists i: nat :: TextInside(m.captures[k], contents, m.span, i)
        {
          if k == name {
            assert TextInside(m.captures[k], contents, m.span, m.span.start);
          } else {
            var i: nat :| TextInside(im.captures[k], contents, im.span, i);
            assert TextInside(m.captures[k], contents, m.span, i);
          }
        }
      case Concatenate(left, right) =>
        var lm := Range(left, contents, find).value;
        var rest := contents[lm.span.end..];
        var rm := Range(right, rest, find).value;
        if rm.span.start != 0 {
          var sub := Range(e, rest, find).value;
          CapturesLieInMatch(e, rest, find);
          CapturesShift(sub, contents, lm.span.end);
        } else {
          CapturesLieInMatch(left, contents, find);
          CapturesLieInMatch(right, rest, find);
          CapturesWiden(lm, contents, m.span);
          CapturesShift(rm, contents, lm.span.end);
          CapturesWiden(Match(rm.span.Shift(lm.span.end), rm.captures), contents, m.span);
          CapturesMerge(lm.captures, rm.captures, contents, m.span);
        }
      case _ =>
    }
  }

  // ---------------------------------------------------------------------
  // The source's examples

  /** A string literal matches at an occurrence with none before it. */
  lemma LiteralAt(s: Bytes, contents: Bytes, find: RegexFinder, i: nat)
    requires OccursAt(s, contents, i)
    requires forall j :: 0 <= j < i ==> !OccursAt(s, contents, j)
    ensures Range(StringLiteral(s), contents, find) == Ok(Match(Span(i, i + |s|), map[]))
  {
    var r := FirstOccurrence(s, contents);
    assert r.Some? && r.value == i;
  }

  /** `"te" .. "st"` matches all of `test`, and in `tetest` it gives up on
      the first `te`, whose `st` comes too late, and matches the second. */
  lemma ConcatExamples(find: RegexFinder)
    ensures Range(Concatenate(StringLiteral("te"), StringLiteral("st")), "test", find) == Ok(Match(Span(0, 4), map[]))
    ensures Range(Concatenate(StringLiteral("te"), StringLiteral("st")), "tetest", find) == Ok(Match(Span(2, 6), map[]))
  {
    ConcatTest(find);
    ConcatRetest(find);
  }

  lemma ConcatTest(find: RegexFinder)
    ensures Range(Concatenate(StringLiteral("te"), StringLiteral("st")), "test", find) == Ok(Match(Span(0, 4), map[]))
  {
    var em: map<Bytes, Bytes> := map[];
    assert "test"[0..2] == "te";
    LiteralAt("te", "test", find, 0);
    assert "test"[2..] == "st";
    assert "st"[0..2] == "st";
    LiteralAt("st", "st", find, 0);
    ConcatAdjacent(StringLiteral("te"), StringLiteral("st"), "test", find, Match(Span(0, 2), em), Match(Span(0, 2), em));
    assert em + em == em;
  }

  lemma ConcatRetest(find: RegexFinder)
    ensures Range(Concatenate(StringLiteral("te"), StringLiteral("st")), "tetest", find) == Ok(Match(Span(2, 6), map[]))
  {
    var em: map<Bytes, Bytes> := map[];
    var e := Concatenate(StringLiteral("te"), StringLiteral("st"));
    assert "tetest"[0..2] == "te";
    LiteralAt("te", "tetest", find, 0);
    assert "tetest"[2..] == "test";
    SecondHalf(find);
    ConcatRetry(StringLiteral("te"), StringLiteral("st"), "tetest", find, Match(Span(0, 2), em), Match(Span(2, 4), em));
    ConcatTest(find);
  }

  /** In `test` the literal `st` is found at 2. */
  lemma SecondHalf(find: RegexFinder)
    ensures Range(StringLiteral("st"), "test", find) == Ok(Match(Span(2, 4), map[]))
  {
    var t: Bytes := "test";
    assert t[0..2] == "te" && t[1..3] == "es" && t[2..4] == "st";
    LiteralAt("st", t, find, 2);
  }
}
