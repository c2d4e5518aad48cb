/** The GUI's key-chord recogniser (gui/src/keyboard_control.rs): typed text
    and named keys accumulate in a history string, and `Take` turns the front
    of that history into the action of a key sequence from the keymap,
    skipping input that can never match. */
module Keyboard {
  import opened Basics

  /** Some key sequence of `keymap` either already matches the front of `h`
      or could still be completed by more input (`h` is a prefix of it). */
  predicate Live<A>(keymap: map<Bytes, A>, h: Bytes) {
    exists k :: k in keymap && (IsPrefix(k, h) || IsPrefix(h, k))
  }

  /** Some key sequence of `keymap` is a prefix of `h`. */
  predicate Ready<A>(keymap: map<Bytes, A>, h: Bytes) {
    exists k :: k in keymap && IsPrefix(k, h)
  }

  /** With at least one key sequence, the empty history is always live: so a
      history that is not live has a first character to drop. */
  lemma DeadIsNonEmpty<A>(keymap: map<Bytes, A>, h: Bytes)
    requires |keymap| > 0 && !Live(keymap, h)
    ensures |h| > 0
  {
    var k :| k in keymap;
    assert h == [] ==> IsPrefix(h, k);
  }

  /** What is left of `h` once `take` has dropped every leading character
      that cannot start a key sequence; empty when the keymap is empty. */
  function Resync<A>(keymap: map<Bytes, A>, h: Bytes): (r: Bytes)
    ensures |r| <= |h|
    ensures |keymap| == 0 ==> r == []
    ensures |keymap| > 0 ==> Live(keymap, r)
    decreases |h|
  {
    if Live(keymap, h) then h
    else if |keymap| == 0 then []
    else
      DeadIsNonEmpty(keymap, h);
      Resync(keymap, h[1..])
  }

  /** Resynchronisation only drops leading characters. */
  lemma {:induction false} ResyncIsSuffix<A>(keymap: map<Bytes, A>, h: Bytes)
    ensures Resync(keymap, h) == h[|h| - |Resync(keymap, h)|..]
    decreases |h|
  {
    if !Live(keymap, h) && |keymap| > 0 {
      ResyncIsSuffix(keymap, h[1..]);
      SuffixOfTail(h, Resync(keymap, h));
    }
  }

  /** `Take` may return `r` and leave history `h'` when it started from
      history `h`: after resynchronising, some matching key sequence `k`
      (the map's iteration order picks which) yields its action and exactly
      `k` is consumed; if none matches, nothing more is consumed. */
  ghost predicate Took<A>(keymap: map<Bytes, A>, h: Bytes, r: Option<A>, h': Bytes) {
    var s := Resync(keymap, h);
    if Ready(keymap, s) then
      exists k :: k in keymap && IsPrefix(k, s) && r == Some(keymap[k]) && h' == s[|k|..]
    else
      r == None && h' == s
  }

  class KeyboardControl<A> {
    var keymap: map<Bytes, A>
    var history: Bytes

    constructor(keymap: map<Bytes, A>)
      ensures this.keymap == keymap && history == []
    {
      this.keymap := keymap;
      history := [];
    }

    /** A key press, given by the name of the key: a name of one character
        is left to the text event that accompanies it, a longer one is
        recorded as `<Name>`. */
    method OnKey(name: Bytes)
      modifies this
      ensures keymap == old(keymap)
      ensures |name| > 1 ==> history == old(history) + "<" + name + ">"
      ensures |name| <= 1 ==> history == old(history)
    {
      if |name| > 1 {
        history := history + "<" + name + ">";
      }
    }

    method OnText(text: Bytes)
      modifies this
      ensures keymap == old(keymap) && history == old(history) + text
    {
      history := history + text;
    }

    method Take() returns (r: Option<A>)
      modifies this
      ensures keymap == old(keymap)
      ensures Took(keymap, old(history), r, history)
      decreases |history|
    {
      if k :| k in keymap && IsPrefix(k, history) {
        history := history[|k|..];
        return Some(keymap[k]);
      }
      if exists k :: k in keymap && IsPrefix(history, k) {
        return None;
      }
      if |keymap| == 0 {
        history := [];
        return None;
      }
      DeadIsNonEmpty(keymap, history);
      history := history[1..];
      r := Take();
    }
  }

  /** A history on which some key sequence is live is not touched by
      resynchronisation. */
  lemma ResyncKeepsLive<A>(keymap: map<Bytes, A>, h: Bytes)
    requires Live(keymap, h)
    ensures Resync(keymap, h) == h
  {
  }

  /** Resynchronisation drops the shortest run of leading characters that
      makes the history live: every longer suffix is dead. */
  lemma {:induction false} ResyncDropsOnlyDead<A>(keymap: map<Bytes, A>, h: Bytes, j: nat)
    requires j < |h| - |Resync(keymap, h)|
    ensures !Live(keymap, h[j..])
    decreases |h|
  {
    if j > 0 && |keymap| > 0 {
      assert !Live(keymap, h);
      ResyncDropsOnlyDead(keymap, h[1..], j - 1);
      assert h[1..][j - 1..] == h[j..];
    }
  }

  /** Conversely, resynchronisation drops every leading character whose
      suffix is dead and stops at the first live one. */
  lemma {:induction false} ResyncSkipsJunk<A>(keymap: map<Bytes, A>, junk: Bytes, s: Bytes)
    requires Live(keymap, s)
    requires forall i :: 0 <= i < |junk| ==> !Live(keymap, junk[i..] + s)
    ensures Resync(keymap, junk + s) == s
    decreases |junk|
  {
    if junk == [] {
      assert junk + s == s;
    } else {
      assert junk[0..] == junk;
      assert !Live(keymap, junk + s);
      assert (junk + s)[1..] == junk[1..] + s;
      forall i | 0 <= i < |junk| - 1
        ensures !Live(keymap, junk[1..][i..] + s)
      {
        assert junk[1..][i..] == junk[i + 1..];
      }
      ResyncSkipsJunk(keymap, junk[1..], s);
    }
  }

  /** When a key sequence matches, `Take` returns its action and removes
      exactly that prefix; the source's behaviour when the matching key is
      the only one. */
  lemma TookMatch<A>(keymap: map<Bytes, A>, h: Bytes, k: Bytes, r: Option<A>, h': Bytes)
    requires k in keymap && IsPrefix(k, h)
    requires forall k' :: k' in keymap && IsPrefix(k', h) ==> k' == k
    ensures Took(keymap, h, r, h') <==> r == Some(keymap[k]) && h == k + h'
  {
    ResyncKeepsLive(keymap, h);
    if Took(keymap, h, r, h') {
      var k' :| k' in keymap && IsPrefix(k', h) && r == Some(keymap[k']) && h' == h[|k'|..];
      assert k' == k;
      assert h == k + h';
    }
    if r == Some(keymap[k]) && h == k + h' {
      assert h' == h[|k|..];
    }
  }

  /** While the history is only the beginning of a key sequence, `Take`
      waits: it returns nothing and keeps the history. */
  lemma TookInProgress<A>(keymap: map<Bytes, A>, h: Bytes, r: Option<A>, h': Bytes)
    requires !Ready(keymap, h) && exists k :: k in keymap && IsPrefix(h, k)
    ensures Took(keymap, h, r, h') <==> r == None && h' == h
  {
    ResyncKeepsLive(keymap, h);
  }

  /** With no key sequences at all, `Take` forgets the history. */
  lemma TookEmptyMap<A>(keymap: map<Bytes, A>, h: Bytes, r: Option<A>, h': Bytes)
    requires |keymap| == 0
    ensures Took(keymap, h, r, h') <==> r == None && h' == []
  {
  }

  /** `Take` never discards input that could still complete a key sequence:
      when it returns nothing with a non-empty keymap, what is left is the
      beginning of some key sequence. */
  lemma TookWaits<A>(keymap: map<Bytes, A>, h: Bytes, h': Bytes)
    requires |keymap| > 0 && Took(keymap, h, None, h')
    ensures exists k :: k in keymap && IsPrefix(h', k)
  {
    var s := Resync(keymap, h);
    assert !Ready(keymap, s);
    var k :| k in keymap && (IsPrefix(k, s) || IsPrefix(s, k));
    assert IsPrefix(s, k);
  }

  /** Whatever `Take` returns, the new history is a suffix of the old one,
      strictly shorter when an action came out of a non-empty key. */
  lemma TookConsumes<A>(keymap: map<Bytes, A>, h: Bytes, r: Option<A>, h': Bytes)
    requires Took(keymap, h, r, h')
    ensures |h'| <= |h| && h' == h[|h| - |h'|..]
    ensures r.Some? ==> exists k :: k in keymap && r == Some(keymap[k]) && |h'| <= |h| - |k|
  {
    var s := Resync(keymap, h);
    ResyncIsSuffix(keymap, h);
    if Ready(keymap, s) {
      var k :| k in keymap && IsPrefix(k, s) && r == Some(keymap[k]) && h' == s[|k|..];
      calc {
        h';
        s[|k|..];
        h[|h| - |s|..][|k|..];
        h[|h| - |h'|..];
      }
    }
  }

  // The source's unit tests, replayed on the class.

  method UnrecognizedIsNone() returns (r: Option<()>)
    ensures r == None
  {
    var control := new KeyboardControl<()>(map[]);
    control.OnText("o");
    r := control.Take();
    TookEmptyMap(control.keymap, "o", r, control.history);
  }

  /** `single_char` and `captial_char`: typing the only key sequence yields
      its action and leaves nothing behind. */
  method TypeOnlyKey<A>(key: Bytes, action: A) returns (r: Option<A>)
    ensures r == Some(action)
  {
    var keymap := map[key := action];
    var control := new KeyboardControl(keymap);
    control.OnText(key);
    var h := control.history;
    assert h == key;
    r := control.Take();
    TookMatch(keymap, h, key, r, control.history);
  }

  method SingleChar() returns (r: Option<Bytes>)
    ensures r == Some("down")
  {
    r := TypeOnlyKey("j", "down");
  }

  method CapitalChar() returns (r: Option<Bytes>)
    ensures r == Some("cursor_down")
  {
    r := TypeOnlyKey("J", "cursor_down");
  }

  /** `char_sequence`: the only key sequence, typed in two pieces, yields
      its action. */
  method TypeKeyInPieces<A>(key: Bytes, n: nat, action: A) returns (r: Option<A>)
    requires n <= |key|
    ensures r == Some(action)
  {
    var keymap := map[key := action];
    var control := new KeyboardControl(keymap);
    control.OnText(key[..n]);
    control.OnText(key[n..]);
    var h := control.history;
    assert h == key;
    r := control.Take();
    TookMatch(keymap, h, key, r, control.history);
  }

  method CharSequence() returns (r: Option<Bytes>)
    ensures r == Some("open_file")
  {
    r := TypeKeyInPieces("of", 1, "open_file");
  }

  /** `prefixed_free`: with key sequences `f` and `of`, typing `o` then `f`
      yields `of`'s action; the `f` at the end does not match on its own. */
  method PrefixedFree() returns (r: Option<Bytes>)
    ensures r == Some("open_file")
  {
    var f: Bytes, of: Bytes := "f", "of";
    var control := new KeyboardControl(map[f := "cursor_down", of := "open_file"]);
    assert control.keymap.Keys == {of, f} && control.keymap[of] == "open_file";
    control.OnText(of[..1]);
    control.OnText(of[1..]);
    assert control.history == of;
    assert !IsPrefix(f, control.history) by {
      assert control.history[0] != f[0];
    }
    r := TakeMatching(control, of, f);
  }

  /** Input that cannot start any key sequence is skipped until a key
      sequence matches. */
  lemma TookAfterJunk<A>(keymap: map<Bytes, A>, junk: Bytes, k: Bytes, r: Option<A>, h': Bytes)
    requires k in keymap
    requires forall k' :: k' in keymap && IsPrefix(k', k) ==> k' == k
    requires forall i :: 0 <= i < |junk| ==> !Live(keymap, junk[i..] + k)
    requires Took(keymap, junk + k, r, h')
    ensures r == Some(keymap[k]) && h' == []
  {
    assert IsPrefix(k, k);
    ResyncSkipsJunk(keymap, junk, k);
    ResyncKeepsLive(keymap, k);
    TookSameResync(keymap, junk + k, k, r, h');
    TookMatch(keymap, k, k, r, h');
    assert |k + h'| == |k| + |h'|;
  }

  /** `Take` depends on the history only through what resynchronisation
      leaves of it. */
  lemma TookSameResync<A>(keymap: map<Bytes, A>, h1: Bytes, h2: Bytes, r: Option<A>, h': Bytes)
    requires Resync(keymap, h1) == Resync(keymap, h2)
    ensures Took(keymap, h1, r, h') == Took(keymap, h2, r, h')
  {
  }

  /** `TookAfterJunk` for a keymap of one key sequence. */
  lemma TookOnlyKeyAfterJunk<A>(keymap: map<Bytes, A>, junk: Bytes, key: Bytes, r: Option<A>, h': Bytes)
    requires keymap.Keys == {key}
    requires forall i :: 0 <= i < |junk| ==> !IsPrefix(key, junk[i..] + key)
    requires Took(keymap, junk + key, r, h')
    ensures r == Some(keymap[key]) && h' == []
  {
    forall i | 0 <= i < |junk|
      ensures !Live(keymap, junk[i..] + key)
    {
      assert |junk[i..] + key| > |key|;
    }
    TookAfterJunk(keymap, junk, key, r, h');
  }

  /** `TookMatch` for a keymap of two key sequences of which only `a`
      matches. */
  lemma TookOneOfTwo<A>(keymap: map<Bytes, A>, a: Bytes, b: Bytes, h: Bytes, r: Option<A>, h': Bytes)
    requires keymap.Keys == {a, b} && IsPrefix(a, h) && !IsPrefix(b, h)
    requires Took(keymap, h, r, h')
    ensures r == Some(keymap[a]) && h == a + h'
  {
    TookMatch(keymap, h, a, r, h');
  }

  /** `Take` when exactly one of the two key sequences matches. */
  method TakeMatching<A>(control: KeyboardControl<A>, a: Bytes, b: Bytes) returns (r: Option<A>)
    requires control.keymap.Keys == {a, b}
    requires IsPrefix(a, control.history) && !IsPrefix(b, control.history)
    modifies control
    ensures control.keymap == old(control.keymap)
    ensures r == Some(control.keymap[a]) && old(control.history) == a + control.history
  {
    var h := control.history;
    r := control.Take();
    TookOneOfTwo(control.keymap, a, b, h, r, control.history);
  }

  /** `Take` on input that cannot start any key sequence followed by a key
      sequence that only itself matches. */
  method TakeAfterJunk<A>(control: KeyboardControl<A>, junk: Bytes, key: Bytes) returns (r: Option<A>)
    requires key in control.keymap && control.history == junk + key
    requires forall k' :: k' in control.keymap && IsPrefix(k', key) ==> k' == key
    requires forall i :: 0 <= i < |junk| ==> !Live(control.keymap, junk[i..] + key)
    modifies control
    ensures control.keymap == old(control.keymap)
    ensures r == Some(control.keymap[key]) && control.history == []
  {
    r := control.Take();
    TookAfterJunk(control.keymap, junk, key, r, control.history);
  }

  /** `Take` while the history is only the beginning of a key sequence. */
  method TakeWaiting<A>(control: KeyboardControl<A>) returns (r: Option<A>)
    requires !Ready(control.keymap, control.history)
    requires exists k :: k in control.keymap && IsPrefix(control.history, k)
    modifies control
    ensures control.keymap == old(control.keymap)
    ensures r == None && control.history == old(control.history)
  {
    var h := control.history;
    r := control.Take();
    TookInProgress(control.keymap, h, r, control.history);
  }

  lemma NothingTypedWaits<A>(keymap: map<Bytes, A>, j: Bytes, of: Bytes)
    requires keymap.Keys == {j, of} && |j| > 0 && |of| > 0
    ensures !Ready(keymap, []) && j in keymap && IsPrefix([], j)
  {
    forall k | k in keymap
      ensures !IsPrefix(k, [])
    {
      assert k == j || k == of;
    }
  }

  lemma TypedTwoKeys(j: Bytes, of: Bytes)
    requires |j| == 1 && |of| == 2 && j[0] != of[0]
    ensures var h := [] + j + of[..1] + of[1..]; h == j + of && !IsPrefix(of, h)
  {
    var h := [] + j + of[..1] + of[1..];
    assert of[..1] + of[1..] == of;
    assert h[0] != of[0];
  }

  lemma DifferentStart(j: Bytes, of: Bytes)
    requires |j| == 1 && |of| == 2 && j[0] != of[0]
    ensures !IsPrefix(j, of)
  {
    assert of[0] != j[0];
  }

  /** The `sequence_of_actions` scenario for any one-character key `j` and
      two-character key `of` that do not start alike: typing `j`, then `of`
      one character at a time, yields the two actions in order and then
      nothing. */
  method TypeTwoKeys<A>(j: Bytes, of: Bytes, down: A, open: A)
    returns (first: Option<A>, second: Option<A>, third: Option<A>)
    requires |j| == 1 && |of| == 2 && j[0] != of[0]
    ensures first == Some(down) && second == Some(open) && third == None
  {
    var control := new KeyboardControl(map[j := down, of := open]);
    assert control.keymap.Keys == {j, of};
    control.OnText(j);
    control.OnText(of[..1]);
    control.OnText(of[1..]);
    TypedTwoKeys(j, of);
    first := TakeMatching(control, j, of);
    DifferentStart(j, of);
    second := TakeMatching(control, of, j);
    assert control.history == [] by {
      assert of + control.history == of + [];
    }
    NothingTypedWaits(control.keymap, j, of);
    third := TakeWaiting(control);
  }

  method SequenceOfActions() returns (first: Option<Bytes>, second: Option<Bytes>, third: Option<Bytes>)
    ensures first == Some("cursor_down")
    ensures second == Some("open_file")
    ensures third == None
  {
    first, second, third := TypeTwoKeys("j", "of", "cursor_down", "open_file");
  }

  /** `unrecognized_input` and `unrecognized_partial_input`: leading input
      that starts no key sequence is skipped before the only key sequence
      matches. */
  method SkipThenMatch<A>(junk: Bytes, key: Bytes, action: A) returns (r: Option<A>)
    requires forall i :: 0 <= i < |junk| ==> !IsPrefix(key, junk[i..] + key)
    ensures r == Some(action)
  {
    var keymap := map[key := action];
    var control := new KeyboardControl(keymap);
    control.OnText(junk);
    control.OnText(key);
    EmptyThen(junk);
    r := control.Take();
    TookOnlyKeyAfterJunk(keymap, junk, key, r, control.history);
  }

  method UnrecognizedInput() returns (r: Option<Bytes>)
    ensures r == Some("open_file")
  {
    var junk: Bytes, key: Bytes := "j", "of";
    assert !IsPrefix(key, junk[0..] + key) by {
      assert (junk[0..] + key)[0] != key[0];
    }
    r := SkipThenMatch(junk, key, "open_file");
  }

  method UnrecognizedPartialInput() returns (r: Option<Bytes>)
    ensures r == Some("open_file")
  {
    var junk: Bytes, key: Bytes := "or", "of";
    forall i | 0 <= i < |junk|
      ensures !IsPrefix(key, junk[i..] + key)
    {
      assert (junk[i..] + key)[1 - i] != key[1 - i];
    }
    r := SkipThenMatch(junk, key, "open_file");
  }

  /** After the first two characters of `oof` and then `j`, neither suffix
      that starts inside `oof` can still become a key sequence, and only `j`
      matches `j`. */
  lemma PartialIsDead<A>(keymap: map<Bytes, A>, j: Bytes, oof: Bytes)
    requires |j| == 1 && |oof| == 3 && j[0] !in oof
    requires keymap.Keys == {j, oof}
    ensures forall i :: 0 <= i < |oof[..2]| ==> !Live(keymap, oof[..2][i..] + j)
    ensures forall k' :: k' in keymap && IsPrefix(k', j) ==> k' == j
  {
    var junk := oof[..2];
    forall i | 0 <= i < 2
      ensures !Live(keymap, junk[i..] + j)
    {
      var t := junk[i..] + j;
      assert t[|t| - 1] == j[0] && t[0] == oof[i];
      assert oof[i] != j[0];
      assert |t| == 3 - i;
    }
  }

  /** `three_char_sequence` for any one-character key `j` whose character
      does not occur in the three-character key `oof`: after the first two
      characters of `oof`, typing `j` abandons `oof` and yields `j`'s
      action. */
  method AbandonPartial<A>(j: Bytes, oof: Bytes, down: A, open: A) returns (r: Option<A>)
    requires |j| == 1 && |oof| == 3 && j[0] !in oof
    ensures r == Some(down)
  {
    var control := new KeyboardControl(map[j := down, oof := open]);
    assert control.keymap.Keys == {j, oof} && control.keymap[j] == down;
    control.OnText(oof[..1]);
    control.OnText(oof[1..2]);
    control.OnText(j);
    assert control.history == oof[..2] + j;
    PartialIsDead(control.keymap, j, oof);
    r := TakeAfterJunk(control, oof[..2], j);
  }

  method ThreeCharSequence() returns (r: Option<Bytes>)
    ensures r == Some("cursor_down")
  {
    r := AbandonPartial("j", "oof", "cursor_down", "open_file");
  }

  /** `multi_letter_button`: a named key is matched by its `<Name>` form. */
  method NamedKey<A>(name: Bytes, action: A) returns (r: Option<A>)
    requires |name| > 1
    ensures r == Some(action)
  {
    var key := "<" + name + ">";
    var keymap := map[key := action];
    var control := new KeyboardControl(keymap);
    control.OnKey(name);
    var h := control.history;
    assert h == key;
    r := control.Take();
    TookMatch(keymap, h, key, r, control.history);
  }

  method MultiLetterButton() returns (r: Option<Bytes>)
    ensures r == Some("cursor_down")
  {
    r := NamedKey("Tab", "cursor_down");
  }
}
