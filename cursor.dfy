/** The GUI's text cursor (gui/src/cursor.rs): a (row, column) pair moved by
    arrow keys, and its translation into a byte offset of the text, clamped
    to the line it lands on. */
module TextCursor {
  import opened Basics

  /** The four arrow directions (gui/src/main.rs). */
  datatype Direction = Up | Down | Left | Right

  /** `n - 1` saturating at zero (Rust `usize::saturating_sub(1)`). */
  function Pred(n: nat): nat {
    if n == 0 then 0 else n - 1
  }

  /** Index of the first `\n` of `s`, or `|s|` when there is none: where
      `split_once("\n")` cuts. */
  function LineEnd(s: Bytes): (r: nat)
    ensures r <= |s|
  {
    if s == [] || s[0] == '\n' then 0 else 1 + LineEnd(s[1..])
  }

  /** `LineEnd` is the first newline: none comes before it. */
  lemma {:induction false} LineEndIsFirstNewline(s: Bytes)
    ensures forall i :: 0 <= i < LineEnd(s) ==> s[i] != '\n'
    ensures LineEnd(s) < |s| ==> s[LineEnd(s)] == '\n'
  {
    if s != [] && s[0] != '\n' {
      LineEndIsFirstNewline(s[1..]);
    }
  }

  /** What follows the first newline: the `tail` of `split_once("\n")`. */
  function AfterLine(s: Bytes): (r: Bytes)
    requires LineEnd(s) < |s|
    ensures |r| == |s| - LineEnd(s) - 1
  {
    if s[0] == '\n' then s[1..] else AfterLine(s[1..])
  }

  /** `split_once("\n")` loses nothing: the line, the newline, the tail. */
  lemma {:induction false} SplitAtLine(s: Bytes)
    requires LineEnd(s) < |s|
    ensures s == s[..LineEnd(s)] + "\n" + AfterLine(s)
  {
    if s[0] != '\n' {
      SplitAtLine(s[1..]);
      assert s[..LineEnd(s)] == [s[0]] + s[1..][..LineEnd(s[1..])];
      assert s == [s[0]] + s[1..];
    }
  }

  /** The byte offset of (row, col) in `s`: follow `row` newlines while there
      are any, then clamp `col` to the last byte of the line reached. */
  function BytePosIn(s: Bytes, row: nat, col: nat): (r: nat)
    ensures r <= |s|
    decreases |s|
  {
    var e := LineEnd(s);
    if row > 0 && e < |s| then
      e + 1 + BytePosIn(AfterLine(s), row - 1, col)
    else
      var last := Pred(e);
      if col < last then col else last
  }

  /** The lines of `s`, split at every `\n`; a trailing `\n` ends with an
      empty line, as in the source's repeated `split_once`. */
  function Lines(s: Bytes): (r: seq<Bytes>)
    ensures |r| >= 1
    decreases |s|
  {
    var e := LineEnd(s);
    if e == |s| then [s] else [s[..e]] + Lines(AfterLine(s))
  }

  /** The lines after the first are the lines of the text after its first
      newline. */
  lemma LinesStep(s: Bytes)
    requires LineEnd(s) < |s|
    ensures Lines(s) == [s[..LineEnd(s)]] + Lines(AfterLine(s))
  {
  }

  /** No line holds a newline. */
  lemma {:induction false} LinesHaveNoNewline(s: Bytes)
    ensures forall i :: 0 <= i < |Lines(s)| ==> '\n' !in Lines(s)[i]
    decreases |s|
  {
    var e := LineEnd(s);
    LineEndIsFirstNewline(s);
    if e < |s| {
      LinesHaveNoNewline(AfterLine(s));
      LinesStep(s);
    }
  }

  /** The lines joined back with `\n`. */
  function Join(lines: seq<Bytes>): Bytes
    requires |lines| >= 1
  {
    if |lines| == 1 then lines[0] else lines[0] + "\n" + Join(lines[1..])
  }

  /** Where line `k` starts once `lines` are joined. */
  function LineStart(lines: seq<Bytes>, k: nat): nat
    requires k < |lines|
  {
    if k == 0 then 0 else |lines[0]| + 1 + LineStart(lines[1..], k - 1)
  }

  function Min(a: nat, b: nat): nat {
    if a <= b then a else b
  }

  /** Splitting into lines loses nothing. */
  lemma {:induction false} JoinLines(s: Bytes)
    ensures Join(Lines(s)) == s
    decreases |s|
  {
    var e := LineEnd(s);
    if e < |s| {
      JoinLines(AfterLine(s));
      LinesStep(s);
      JoinCons(s[..e], Lines(AfterLine(s)));
      SplitAtLine(s);
    }
  }

  lemma JoinCons(line: Bytes, lines: seq<Bytes>)
    requires |lines| >= 1
    ensures Join([line] + lines) == line + "\n" + Join(lines)
  {
    assert ([line] + lines)[1..] == lines;
  }

  /** The offset of (row, col) read off the lines: the start of line
      `min(row, last line)` plus the column clamped to that line's last
      byte. */
  function LinePos(lines: seq<Bytes>, row: nat, col: nat): nat
    requires |lines| >= 1
  {
    var k := Min(row, |lines| - 1);
    LineStart(lines, k) + Min(col, Pred(|lines[k]|))
  }

  /** The offset is the one read off the lines: a row past the end stays on
      the last line, a column past the end of a line stays on its last
      byte, and a `\r` before the `\n` counts as a byte of the line. */
  lemma {:induction false} BytePosByLines(s: Bytes, row: nat, col: nat)
    ensures BytePosIn(s, row, col) == LinePos(Lines(s), row, col)
    decreases |s|
  {
    var e := LineEnd(s);
    LinesFirst(s);
    if row > 0 && e < |s| {
      BytePosByLines(AfterLine(s), row - 1, col);
      LinesStep(s);
      LinePosCons(s[..e], Lines(AfterLine(s)), row, col);
    } else {
      LinePosFirst(Lines(s), row, col);
    }
  }

  lemma LinePosFirst(lines: seq<Bytes>, row: nat, col: nat)
    requires |lines| >= 1 && (row == 0 || |lines| == 1)
    ensures LinePos(lines, row, col) == Min(col, Pred(|lines[0]|))
  {
  }

  lemma LinePosCons(line: Bytes, lines: seq<Bytes>, row: nat, col: nat)
    requires |lines| >= 1 && row > 0
    ensures LinePos([line] + lines, row, col) == |line| + 1 + LinePos(lines, row - 1, col)
  {
    LineStartCons(line, lines, Min(row, |lines|));
  }

  /** The first line runs up to the first newline; it is the only line
      exactly when there is no newline. */
  lemma LinesFirst(s: Bytes)
    ensures |Lines(s)[0]| == LineEnd(s)
    ensures |Lines(s)| == 1 <==> LineEnd(s) == |s|
  {
  }

  lemma LineStartCons(line: Bytes, lines: seq<Bytes>, k: nat)
    requires 0 < k <= |lines|
    ensures LineStart([line] + lines, k) == |line| + 1 + LineStart(lines, k - 1)
    ensures ([line] + lines)[k] == lines[k - 1]
  {
    assert ([line] + lines)[1..] == lines;
  }

  /** The source's unit tests of the position, and the row-0 clamp. */
  lemma BytePosExamples()
    ensures BytePosIn("", 0, 0) == 0
    ensures BytePosIn("foo", 0, 1) == 1
    ensures BytePosIn("x", 0, 1) == 0
    ensures BytePosIn("x\ny", 1, 0) == 2
    ensures BytePosIn("x\r\ny", 1, 0) == 3
    ensures BytePosIn("x\ny", 0, 3) == 0
    ensures BytePosIn("foo", 1, 0) == 0
    ensures BytePosIn("12\n34", 0, 0) == 0
  {
    OneLineExamples();
    UnixNewline();
    WindowsNewline();
    DigitsOnTwoLines();
  }

  lemma OneLineExamples()
    ensures BytePosIn("", 0, 0) == 0
    ensures BytePosIn("foo", 0, 1) == 1 && BytePosIn("foo", 1, 0) == 0
    ensures BytePosIn("x", 0, 1) == 0
  {
  }

  lemma UnixNewline()
    ensures BytePosIn("x\ny", 1, 0) == 2 && BytePosIn("x\ny", 0, 3) == 0
  {
    assert LineEnd("x\ny") == 1;
  }

  lemma WindowsNewline()
    ensures BytePosIn("x\r\ny", 1, 0) == 3
  {
    assert LineEnd("x\r\ny") == 2;
  }

  lemma DigitsOnTwoLines()
    ensures BytePosIn("12\n34", 0, 0) == 0
  {
  }

  class Cursor {
    var col: nat
    var row: nat

    /** `Cursor::default()`: the top-left corner. */
    constructor()
      ensures col == 0 && row == 0
    {
      col := 0;
      row := 0;
    }

    function BytePos(text: Bytes): (r: nat)
      reads this
      ensures r <= |text|
    {
      BytePosIn(text, row, col)
    }

    method DoMove(direction: Direction)
      modifies this
      ensures direction == Right ==> col == old(col) + 1 && row == old(row)
      ensures direction == Left ==> col == Pred(old(col)) && row == old(row)
      ensures direction == Down ==> row == old(row) + 1 && col == old(col)
      ensures direction == Up ==> row == Pred(old(row)) && col == old(col)
    {
      match direction {
        case Right => col := col + 1;
        case Left => col := Pred(col);
        case Down => row := row + 1;
        case Up => row := Pred(row);
      }
    }
  }

  /** Down, Right, Up, Left brings any cursor back where it was. */
  method AllMotionsCancel(cursor: Cursor)
    modifies cursor
    ensures cursor.row == old(cursor.row) && cursor.col == old(cursor.col)
  {
    cursor.DoMove(Down);
    cursor.DoMove(Right);
    cursor.DoMove(Up);
    cursor.DoMove(Left);
  }

  // The source's unit tests, replayed on the class.

  method DefaultIsAtZero() returns (pos: nat)
    ensures pos == 0
  {
    var cursor := new Cursor();
    pos := cursor.BytePos("");
  }

  method MoveRightPutsAtOne() returns (pos: nat, clamped: nat, pastFirstLine: nat)
    ensures pos == 1 && clamped == 0 && pastFirstLine == 0
  {
    var cursor := new Cursor();
    cursor.DoMove(Right);
    pos := cursor.BytePos("foo");
    clamped := cursor.BytePos("x");
    cursor.DoMove(Right);
    cursor.DoMove(Right);
    pastFirstLine := cursor.BytePos("x\ny");
    OneLineExamples();
    UnixNewline();
  }

  method DownGoesToNextLine() returns (pos: nat, windows: nat, pastLastLine: nat)
    ensures pos == 2 && windows == 3 && pastLastLine == 0
  {
    var cursor := new Cursor();
    cursor.DoMove(Down);
    pos := cursor.BytePos("x\ny");
    windows := cursor.BytePos("x\r\ny");
    pastLastLine := cursor.BytePos("foo");
    OneLineExamples();
    UnixNewline();
    WindowsNewline();
  }

  method MotionsCancelToOrigin() returns (pos: nat)
    ensures pos == 0
  {
    var cursor := new Cursor();
    AllMotionsCancel(cursor);
    pos := cursor.BytePos("12\n34");
    DigitsOnTwoLines();
  }
}
