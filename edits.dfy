/** The range arithmetic of cli/src/refactorings/script.rs (`selected`,
    `overlaps`, `delete_range`) and the edit commands the `replace` method
    emits. The commands are keystrokes an editor replays at its cursor; the
    editor is not part of the repository, so `Editor` below fixes the
    conventional meaning of those keystrokes and the lemmas at the end show
    that the emitted commands turn the buffer into "the target replaced by
    the new text". */
module Edits {
  import opened Basics

  /** One piece of the editor buffer and whether it is the selection
      (`ContentRegion` in cli/src/main.rs). */
  datatype Region = Region(text: Bytes, selected: bool)

  /** The editor contents: the regions in buffer order (`EditorContext`). */
  type Context = seq<Region>

  /** An edit command (`Mutation` in cli/src/refactorings/mod.rs). */
  datatype Mutation = Delete(count: nat) | Backspace(count: nat) | Insert(text: Bytes)

  // ---------------------------------------------------------------------
  // The buffer and its selection

  /** The whole buffer: the regions' texts one after another. */
  function Flatten(ctx: Context): Bytes {
    if ctx == [] then [] else Flatten(ctx[..|ctx| - 1]) + ctx[|ctx| - 1].text
  }

  /** The index of the first region flagged as selected. */
  function FirstSelected(ctx: Context): (r: Option<nat>)
    ensures r.Some? ==> r.value < |ctx| && ctx[r.value].selected
    ensures r.Some? ==> forall j :: 0 <= j < r.value ==> !ctx[j].selected
    ensures r.None? <==> forall j :: 0 <= j < |ctx| ==> !ctx[j].selected
  {
    FirstSelectedFrom(ctx, 0)
  }

  function FirstSelectedFrom(ctx: Context, i: nat): (r: Option<nat>)
    requires i <= |ctx|
    requires forall j :: 0 <= j < i ==> !ctx[j].selected
    ensures r.Some? ==> i <= r.value < |ctx| && ctx[r.value].selected
    ensures r.Some? ==> forall j :: 0 <= j < r.value ==> !ctx[j].selected
    ensures r.None? <==> forall j :: 0 <= j < |ctx| ==> !ctx[j].selected
    decreases |ctx| - i
  {
    if i == |ctx| then None
    else if ctx[i].selected then Some(i)
    else FirstSelectedFrom(ctx, i + 1)
  }

  /** The byte range of the selection in the whole buffer: the first selected
      region, starting after all regions before it; `0..0` when no region is
      selected. */
  function SelectedSpan(ctx: Context): (r: Span)
    ensures r.Valid() && r.Within(|Flatten(ctx)|)
  {
    match FirstSelected(ctx)
    case None => Span(0, 0)
    case Some(i) =>
      FlattenSplit(ctx, i);
      var before := |Flatten(ctx[..i])|;
      Span(before, before + |ctx[i].text|)
  }

  /** The buffer is the regions up to `i`, region `i`, then the rest. */
  lemma {:induction false} FlattenSplit(ctx: Context, i: nat)
    requires i < |ctx|
    ensures |Flatten(ctx[..i])| + |ctx[i].text| <= |Flatten(ctx)|
    ensures Flatten(ctx[..i + 1]) == Flatten(ctx[..i]) + ctx[i].text
    decreases |ctx|
  {
    assert ctx[..i + 1][..i] == ctx[..i];
    if i + 1 < |ctx| {
      FlattenSplit(ctx[..|ctx| - 1], i);
      assert ctx[..|ctx| - 1][..i] == ctx[..i];
      assert ctx[..|ctx| - 1][..i + 1] == ctx[..i + 1];
    } else {
      assert ctx[..i + 1] == ctx;
    }
  }

  /** `selected`: scans the regions, adding up the lengths of the
      unselected ones, and returns the first selected region's range. */
  method Selected(ctx: Context) returns (r: Span)
    ensures r == SelectedSpan(ctx)
  {
    var start := 0;
    for i := 0 to |ctx|
      invariant start == |Flatten(ctx[..i])|
      invariant forall j :: 0 <= j < i ==> !ctx[j].selected
    {
      FlattenSplit(ctx, i);
      if ctx[i].selected {
        return Span(start, start + |ctx[i].text|);
      }
      start := start + |ctx[i].text|;
    }
    return Span(0, 0);
  }

  // ---------------------------------------------------------------------
  // Range arithmetic

  /** Keystroke counts: forward deletes, then backspaces. */
  datatype Keys = Keys(deletes: nat, backspaces: nat)

  /** Position `p` is one of the bytes of `s`. */
  predicate Covers(s: Span, p: nat) {
    s.start <= p < s.end
  }

  /** `overlaps`: the candidate `larger` contains `smaller` and starts no
      later than it, and `smaller` starts before `larger` ends. Only a
      non-empty candidate overlaps anything, and it holds the byte at the
      selection's start. */
  predicate Overlaps(larger: Span, smaller: Span)
    ensures Overlaps(larger, smaller) ==> larger.start < larger.end && Covers(larger, smaller.start)
  {
    larger.start <= smaller.start && larger.end >= smaller.end && smaller.start < larger.end
  }

  /** `delete_range`: how many forward deletes and backspaces turn the
      selection `sel` into a cursor-less removal of `target`. `None` when the
      selection reaches outside the target. A non-empty selection costs one
      extra delete, the keystroke that removes the selection itself. The
      source subtracts the selection's bounds unchecked once both checked
      subtractions succeed, so it needs a well-formed selection there. */
  function DeleteRange(target: Span, sel: Span): (r: Option<Keys>)
    requires sel.end <= target.end && target.start <= sel.start ==> sel.Valid()
    ensures r.Some? <==> target.start <= sel.start && sel.end <= target.end
    ensures r.Some? ==> r.value.deletes + r.value.backspaces
                        == (target.end - target.start) - (sel.end - sel.start) + (if sel.start < sel.end then 1 else 0)
  {
    if target.end < sel.end then None
    else if sel.start < target.start then None
    else
      var deletes := target.end - sel.end;
      var backspaces := sel.start - target.start;
      var selectedLen := sel.end - sel.start;
      if selectedLen > 0 then Some(Keys(deletes + 1, backspaces)) else Some(Keys(deletes, backspaces))
  }

  /** The commands of `Range.replace`: the deletes if any, the backspaces if
      any, then the insertion. */
  function EditScript(deletes: nat, backspaces: nat, text: Bytes): (r: seq<Mutation>)
    ensures |r| > 0 && r[|r| - 1] == Insert(text)
    ensures forall i :: 0 <= i < |r| - 1 ==> !r[i].Insert?
    ensures forall i :: 0 <= i < |r| ==> r[i] != Delete(0) && r[i] != Backspace(0)
    ensures Delete(deletes) in r <==> deletes > 0
    ensures Backspace(backspaces) in r <==> backspaces > 0
    ensures |r| == 1 + (if deletes > 0 then 1 else 0) + (if backspaces > 0 then 1 else 0)
    ensures deletes > 0 ==> r[0] == Delete(deletes)
    ensures backspaces > 0 ==> r[|r| - 2] == Backspace(backspaces)
  {
    (if deletes > 0 then [Delete(deletes)] else [])
      + (if backspaces > 0 then [Backspace(backspaces)] else [])
      + [Insert(text)]
  }

  // ---------------------------------------------------------------------
  // Properties of the range arithmetic

  /** `overlaps` in terms of positions: the candidate holds every byte of
      the selection and the byte at the selection's start (so an empty
      selection, a bare cursor, counts when it sits on a byte of the
      candidate and not when it sits just after it). */
  lemma OverlapsByPositions(larger: Span, smaller: Span)
    requires smaller.Valid()
    ensures Overlaps(larger, smaller)
        <==> Covers(larger, smaller.start) && forall p :: Covers(smaller, p) ==> Covers(larger, p)
  {
    if Covers(larger, smaller.start) && forall p :: Covers(smaller, p) ==> Covers(larger, p) {
      if smaller.start < smaller.end {
        assert Covers(smaller, smaller.end - 1);
      }
    }
  }

  /** The source's test vectors for `overlaps`. */
  lemma OverlapsExamples()
    ensures Overlaps(Span(0, 4), Span(3, 3))
    ensures !Overlaps(Span(0, 4), Span(4, 4))
  {
  }

  /** `delete_range` fails exactly when the selection reaches outside the
      target, and otherwise counts the bytes after and before the selection. */
  lemma DeleteRangeCases(target: Span, sel: Span)
    requires sel.Valid()
    ensures DeleteRange(target, sel).None? <==> target.end < sel.end || sel.start < target.start
    ensures DeleteRange(target, sel).Some? ==>
      DeleteRange(target, sel).value.deletes == target.end - sel.end + (if sel.Len() > 0 then 1 else 0)
      && DeleteRange(target, sel).value.backspaces == sel.start - target.start
  {
  }

  /** A candidate that `overlaps` the selection can always be replaced. */
  lemma OverlapsCanReplace(target: Span, sel: Span)
    requires sel.Valid() && Overlaps(target, sel)
    ensures DeleteRange(target, sel).Some?
  {
  }

  /** The source's test vectors for `delete_range`. */
  lemma DeleteRangeExamples()
    ensures DeleteRange(Span(0, 1), Span(0, 0)) == Some(Keys(1, 0))
    ensures DeleteRange(Span(0, 2), Span(0, 0)) == Some(Keys(2, 0))
    ensures DeleteRange(Span(1, 2), Span(1, 1)) == Some(Keys(1, 0))
    ensures DeleteRange(Span(0, 2), Span(1, 1)) == Some(Keys(1, 1))
    ensures DeleteRange(Span(0, 2), Span(0, 2)) == Some(Keys(1, 0))
    ensures DeleteRange(Span(0, 4), Span(0, 2)) == Some(Keys(3, 0))
    ensures DeleteRange(Span(1, 3), Span(0, 0)) == None
  {
  }

  /** The source's test vectors for `selected`. */
  lemma SelectedExamples()
    ensures SelectedSpan([Region("test", false)]) == Span(0, 0)
    ensures SelectedSpan([Region("test", false), Region("some", true)]) == Span(4, 8)
    ensures SelectedSpan([Region("test", false), Region("some", true), Region("stuff", false)]) == Span(4, 8)
    ensures SelectedSpan([Region("test", false), Region("", true), Region("stuff", false)]) == Span(4, 4)
  {
    var a: Context := [Region("test", false), Region("some", true)];
    var b: Context := [Region("test", false), Region("some", true), Region("stuff", false)];
    var c: Context := [Region("test", false), Region("", true), Region("stuff", false)];
    assert a[..1] == [Region("test", false)];
    assert b[..1] == [Region("test", false)];
    assert c[..1] == [Region("test", false)];
    assert Flatten([Region("test", false)]) == "test" by {
      var one: Context := [Region("test", false)];
      assert one[..0] == [];
    }
  }

  // ---------------------------------------------------------------------
  // The editor that replays the commands

  /** An editor buffer with its selection; an empty selection is the cursor. */
  datatype Editor = Editor(text: Bytes, sel: Span) {
    predicate Valid() { sel.Valid() && sel.Within(|text|) }
  }

  /** The delete key: removes the selection if there is one, otherwise the
      byte after the cursor (nothing at the end of the buffer). */
  function DeleteKey(ed: Editor): (r: Editor)
    requires ed.Valid()
    ensures r.Valid()
  {
    if ed.sel.Len() > 0 then
      Editor(ed.text[..ed.sel.start] + ed.text[ed.sel.end..], Span(ed.sel.start, ed.sel.start))
    else if ed.sel.start < |ed.text| then
      Editor(ed.text[..ed.sel.start] + ed.text[ed.sel.start + 1..], ed.sel)
    else ed
  }

  /** The backspace key: removes the selection if there is one, otherwise the
      byte before the cursor (nothing at the start of the buffer). */
  function BackspaceKey(ed: Editor): (r: Editor)
    requires ed.Valid()
    ensures r.Valid()
  {
    if ed.sel.Len() > 0 then
      Editor(ed.text[..ed.sel.start] + ed.text[ed.sel.end..], Span(ed.sel.start, ed.sel.start))
    else if ed.sel.start > 0 then
      Editor(ed.text[..ed.sel.start - 1] + ed.text[ed.sel.start..], Span(ed.sel.start - 1, ed.sel.start - 1))
    else ed
  }

  function Deletes(ed: Editor, n: nat): (r: Editor)
    requires ed.Valid()
    ensures r.Valid()
    decreases n
  {
    if n == 0 then ed else Deletes(DeleteKey(ed), n - 1)
  }

  function Backspaces(ed: Editor, n: nat): (r: Editor)
    requires ed.Valid()
    ensures r.Valid()
    decreases n
  {
    if n == 0 then ed else Backspaces(BackspaceKey(ed), n - 1)
  }

  /** Typing `s`: replaces the selection and leaves the cursor after `s`. */
  function Type(ed: Editor, s: Bytes): (r: Editor)
    requires ed.Valid()
    ensures r.Valid()
  {
    Editor(ed.text[..ed.sel.start] + s + ed.text[ed.sel.end..], Span(ed.sel.start + |s|, ed.sel.start + |s|))
  }

  function Replay(ed: Editor, ms: seq<Mutation>): (r: Editor)
    requires ed.Valid()
    ensures r.Valid()
    decreases |ms|
  {
    if ms == [] then ed
    else
      var next := match ms[0]
        case Delete(n) => Deletes(ed, n)
        case Backspace(n) => Backspaces(ed, n)
        case Insert(s) => Type(ed, s);
      Replay(next, ms[1..])
  }

  /** `n` deletes at a cursor remove the `n` bytes after it. */
  lemma {:induction false} DeletesAtCursor(text: Bytes, c: nat, n: nat)
    requires c + n <= |text|
    ensures Deletes(Editor(text, Span(c, c)), n) == Editor(text[..c] + text[c + n..], Span(c, c))
  {
    if n == 0 {
      assert text[..c] + text[c..] == text;
    } else {
      var once := text[..c] + text[c + 1..];
      assert DeleteKey(Editor(text, Span(c, c))) == Editor(once, Span(c, c));
      DeletesAtCursor(once, c, n - 1);
      assert once[..c] == text[..c];
      assert once[c + (n - 1)..] == text[c + n..];
    }
  }

  /** `n` backspaces at a cursor remove the `n` bytes before it. */
  lemma {:induction false} BackspacesAtCursor(text: Bytes, c: nat, n: nat)
    requires n <= c <= |text|
    ensures Backspaces(Editor(text, Span(c, c)), n) == Editor(text[..c - n] + text[c..], Span(c - n, c - n))
  {
    if n == 0 {
      assert text[..c] + text[c..] == text;
    } else {
      var once := text[..c - 1] + text[c..];
      assert BackspaceKey(Editor(text, Span(c, c))) == Editor(once, Span(c - 1, c - 1));
      BackspacesAtCursor(once, c - 1, n - 1);
      assert once[..c - 1 - (n - 1)] == text[..c - n];
      assert once[c - 1..] == text[c..];
    }
  }

  lemma ReplayCons(ed: Editor, m: Mutation, ms: seq<Mutation>)
    requires ed.Valid()
    ensures Replay(ed, [m] + ms) == Replay(Replay(ed, [m]), ms)
  {
    assert ([m] + ms)[1..] == ms;
    assert [m][1..] == [];
  }

  /** With a non-empty selection `[a, b)`, the first delete removes it and
      the next `n` remove the `n` bytes after it. */
  lemma DeleteSelectionThenMore(buffer: Bytes, a: nat, b: nat, n: nat)
    requires a < b && b + n <= |buffer|
    ensures Deletes(Editor(buffer, Span(a, b)), n + 1) == Editor(buffer[..a] + buffer[b + n..], Span(a, a))
  {
    var rest := buffer[..a] + buffer[b..];
    assert DeleteKey(Editor(buffer, Span(a, b))) == Editor(rest, Span(a, a));
    DeletesAtCursor(rest, a, n);
    assert rest[..a] == buffer[..a];
    assert rest[a + n..] == buffer[b + n..];
  }

  /** The deletes of `replace` remove the selection and everything after it
      up to the target's end. */
  lemma DeletePhase(buffer: Bytes, target: Span, sel: Span)
    requires target.Valid() && target.Within(|buffer|)
    requires sel.Valid() && sel.Within(|buffer|)
    requires DeleteRange(target, sel).Some?
    ensures Deletes(Editor(buffer, sel), DeleteRange(target, sel).value.deletes)
            == Editor(buffer[..sel.start] + buffer[target.end..], Span(sel.start, sel.start))
  {
    DeleteRangeCases(target, sel);
    if sel.Len() > 0 {
      DeleteSelectionThenMore(buffer, sel.start, sel.end, target.end - sel.end);
    } else {
      DeletesAtCursor(buffer, sel.start, target.end - sel.end);
    }
  }

  /** The backspaces of `replace` then remove the target's bytes before the
      cursor. */
  lemma BackspacePhase(buffer: Bytes, target: Span, sel: Span)
    requires target.Valid() && target.Within(|buffer|)
    requires sel.Valid() && sel.Within(|buffer|)
    requires DeleteRange(target, sel).Some?
    ensures Backspaces(Editor(buffer[..sel.start] + buffer[target.end..], Span(sel.start, sel.start)), DeleteRange(target, sel).value.backspaces)
            == Editor(buffer[..target.start] + buffer[target.end..], Span(target.start, target.start))
  {
    var cut := buffer[..sel.start] + buffer[target.end..];
    var b := DeleteRange(target, sel).value.backspaces;
    BackspacesAtCursor(cut, sel.start, b);
    assert cut[..sel.start - b] == buffer[..target.start];
    assert cut[sel.start..] == buffer[target.end..];
  }

  /** Replaying optional deletes, optional backspaces and an insertion. */
  lemma ReplayScript(ed: Editor, d: nat, b: nat, text: Bytes)
    requires ed.Valid()
    ensures Replay(ed, EditScript(d, b, text)) == Type(Backspaces(Deletes(ed, d), b), text)
  {
    var ins := [Insert(text)];
    var bs: seq<Mutation> := if b > 0 then [Backspace(b)] else [];
    var ds: seq<Mutation> := if d > 0 then [Delete(d)] else [];
    var mid := Deletes(ed, d);
    assert Replay(mid, bs + ins) == Type(Backspaces(mid, b), text) by {
      assert ins[1..] == [];
      if b > 0 {
        ReplayCons(mid, Backspace(b), ins);
        assert [Backspace(b)][1..] == [];
      } else {
        assert bs + ins == ins;
      }
    }
    assert EditScript(d, b, text) == ds + (bs + ins);
    if d > 0 {
      ReplayCons(ed, Delete(d), bs + ins);
      assert [Delete(d)][1..] == [];
    } else {
      assert ds + (bs + ins) == bs + ins;
    }
  }

  /** Replaying the commands of `replace` on the editor whose selection is
      `sel` turns its buffer into the buffer with `target` replaced by
      `text`, and leaves the cursor right after the inserted text. */
  lemma ReplaceRealisesEdit(buffer: Bytes, target: Span, sel: Span, text: Bytes)
    requires target.Valid() && target.Within(|buffer|)
    requires sel.Valid() && sel.Within(|buffer|)
    requires DeleteRange(target, sel).Some?
    ensures Replay(Editor(buffer, sel), EditScript(DeleteRange(target, sel).value.deletes, DeleteRange(target, sel).value.backspaces, text))
            == Editor(buffer[..target.start] + text + buffer[target.end..], Span(target.start + |text|, target.start + |text|))
  {
    var keys := DeleteRange(target, sel).value;
    ReplayScript(Editor(buffer, sel), keys.deletes, keys.backspaces, text);
    DeletePhase(buffer, target, sel);
    BackspacePhase(buffer, target, sel);
    var joined := buffer[..target.start] + buffer[target.end..];
    assert joined[..target.start] == buffer[..target.start];
    assert joined[target.start..] == buffer[target.end..];
  }
}
