/** The editor's actions as functions on a buffer value (the lines, the cursor and the virtual
    selection cursor). Each function does what one TextEditorAction_* does, including the two
    places where the source throws, and _Input's keyboard dispatch is a function over key events. */
module EditOps {
  import opened LineStore
  import opened Cursor

  datatype Buffer = Buffer(lines: seq<string>, cursor: Pos, virt: Pos)

  /** The editor invariant: at least one line, no newline inside a line, both cursors in range. */
  predicate WellFormed(b: Buffer) {
    |b.lines| >= 1 && NoNewlines(b.lines) && ValidPos(b.lines, b.cursor) && ValidPos(b.lines, b.virt)
  }

  /** Something is selected: the two cursors differ. */
  predicate HasSelection(b: Buffer) {
    b.cursor != b.virt
  }

  /** The selection the CursorSelection* fields hold: both of its ends are coordinates of the buffer. */
  function Sel(b: Buffer): (s: Selection)
    requires WellFormed(b)
    ensures ValidPos(b.lines, s.Start()) && ValidPos(b.lines, s.End()) && LexLe(s.Start(), s.End())
    ensures s.Start() == s.End() <==> !HasSelection(b)
  {
    var s := Normalize(b.cursor, b.virt);
    assert s.Start() in {b.cursor, b.virt} && s.End() in {b.cursor, b.virt};
    assert b.cursor in {s.Start(), s.End()} && b.virt in {s.Start(), s.End()};
    s
  }

  /** The exceptions the actions can raise: `String.Remove(-1, 1)` (ArgumentOutOfRangeException)
      and reading the character at index `Length` of a line (IndexOutOfRangeException). */
  datatype Fault = RemoveBeforeLineStart | ReadPastLineEnd

  /** An action either finishes, or is stopped by an exception and leaves behind whatever it had
      already changed. */
  datatype Outcome = Done(buffer: Buffer) | Failed(fault: Fault, buffer: Buffer)

  /** A state whose virtual cursor sits on the cursor: the "undo any selection" step. */
  function Collapsed(lines: seq<string>, p: Pos): Buffer {
    Buffer(lines, p, p)
  }

  /** .NET's `Char.IsControl` for a UTF-16 code unit: U+0000..U+001F and U+007F..U+009F. */
  predicate IsControl(c: char) {
    c as int <= 0x1F || 0x7F <= c as int <= 0x9F
  }

  /** Replacing some lines by newline-free lines keeps the store newline-free. */
  lemma NoNewlinesSplice(lines: seq<string>, i: int, j: int, mid: seq<string>)
    requires 0 <= i <= j <= |lines| && NoNewlines(lines) && NoNewlines(mid)
    ensures NoNewlines(lines[..i] + mid + lines[j..])
  {
    var r := lines[..i] + mid + lines[j..];
    forall k | 0 <= k < |r| ensures '\n' !in r[k] {
      if k < i {
        assert r[k] == lines[k];
      } else if k < i + |mid| {
        assert r[k] == mid[k - i];
      } else {
        assert r[k] == lines[k - i - |mid| + j];
      }
    }
  }

  /** Updating one line with a newline-free line keeps the store newline-free. */
  lemma NoNewlinesUpdate(lines: seq<string>, i: int, s: string)
    requires 0 <= i < |lines| && NoNewlines(lines) && '\n' !in s
    ensures NoNewlines(lines[i := s])
  {
    var r := lines[i := s];
    forall k | 0 <= k < |r| ensures '\n' !in r[k] {
      if k != i { assert r[k] == lines[k]; }
    }
  }

  // ---------------------------------------------------------------------------
  // The actions

  /** The cursor's line with text put at the cursor (`Insert` before the end, `+=` at the end,
      which come to the same thing); the cursor moves past the text and the selection collapses. */
  function InsertText(b: Buffer, t: string): (r: Buffer)
    requires WellFormed(b) && '\n' !in t
    ensures WellFormed(r) && |r.lines| == |b.lines| && !HasSelection(r)
  {
    var l, c := b.cursor.line, b.cursor.col;
    var line := b.lines[l];
    NoNewlinesUpdate(b.lines, l, line[..c] + t + line[c..]);
    Collapsed(b.lines[l := line[..c] + t + line[c..]], Pos(l, c + |t|))
  }

  /** TextEditorAction_InsertCharacter: a control character changes nothing at all. */
  function InsertCharacter(b: Buffer, ch: char): (r: Buffer)
    requires WellFormed(b)
    ensures WellFormed(r)
    ensures IsControl(ch) ==> r == b
    ensures !IsControl(ch) ==> !HasSelection(r)
  {
    if IsControl(ch) then b else InsertText(b, [ch])
  }

  /** TextEditorAction_AddTab: a tab is inserted at the cursor (no control-character check). */
  function AddTab(b: Buffer): (r: Buffer)
    requires WellFormed(b)
    ensures WellFormed(r) && !HasSelection(r)
  {
    InsertText(b, "\t")
  }

  /** TextEditorAction_DeleteText (Backspace, and Delete, which does the same). The first branch
      of the source also catches column 0 of a one-character line and then calls `Remove(-1, 1)`,
      which throws before anything has changed. */
  function DeleteText(b: Buffer): (r: Outcome)
    requires WellFormed(b)
    ensures WellFormed(r.buffer)
    ensures r.Failed? <==> b.cursor.col == 0 && |b.lines[b.cursor.line]| == 1
    ensures r.Failed? ==> r == Failed(RemoveBeforeLineStart, b)
    ensures r.Done? ==> !HasSelection(r.buffer)
  {
    var l, c := b.cursor.line, b.cursor.col;
    var line := b.lines[l];
    if c >= |line| - 1 && |line| > 0 then
      if c - 1 < 0 then Failed(RemoveBeforeLineStart, b)
      else
        NoNewlinesUpdate(b.lines, l, line[..c - 1] + line[c..]);
        Done(Collapsed(b.lines[l := line[..c - 1] + line[c..]], Pos(l, c - 1)))
    else if c - 1 >= 0 then
      NoNewlinesUpdate(b.lines, l, line[..c - 1] + line[c..]);
      Done(Collapsed(b.lines[l := line[..c - 1] + line[c..]], Pos(l, c - 1)))
    else if l > 0 then
      NoNewlinesSplice(b.lines, l - 1, l + 1, [b.lines[l - 1] + line]);
      Done(Collapsed(b.lines[..l - 1] + [b.lines[l - 1] + line] + b.lines[l + 1..], Pos(l - 1, |b.lines[l - 1]|)))
    else Done(Collapsed(b.lines, b.cursor))
  }

  /** TextEditorAction_DeleteText_Selection. On one line the characters of [start, end) go. Across
      lines the start line is cut back to its prefix first; then the suffix of the end line is
      copied backwards from index `Length`, which throws unless the selection ends at the end of
      its line (the copy is then empty); otherwise the lines after the start through the end
      line are dropped and the cursor goes to the start of the selection. */
  function DeleteSelection(b: Buffer): (r: Outcome)
    requires WellFormed(b)
    ensures WellFormed(r.buffer)
    ensures r.Done? ==> !HasSelection(r.buffer)
  {
    var s := Sel(b);
    var sl, ps, el, pe := s.lineStart, s.positionStart, s.lineEnd, s.positionEnd;
    if sl == el then
      var line := b.lines[sl];
      NoNewlinesUpdate(b.lines, sl, line[..ps] + line[pe..]);
      Done(Collapsed(b.lines[sl := line[..ps] + line[pe..]], s.Start()))
    else
      var prefix := b.lines[sl][..ps];
      if pe < |b.lines[el]| then
        NoNewlinesUpdate(b.lines, sl, prefix);
        Failed(ReadPastLineEnd, Buffer(b.lines[sl := prefix], b.cursor, b.virt))
      else
        NoNewlinesSplice(b.lines, sl, el + 1, [prefix]);
        Done(Collapsed(b.lines[..sl] + [prefix] + b.lines[el + 1..], s.Start()))
  }

  /** What deleting a selection is meant to do: the start line's prefix joined to the end line's
      suffix, the lines between removed, the cursor at the start. */
  function JoinedDelete(b: Buffer): (r: Buffer)
    requires WellFormed(b)
    ensures WellFormed(r)
  {
    var s := Sel(b);
    var joined := b.lines[s.lineStart][..s.positionStart] + b.lines[s.lineEnd][s.positionEnd..];
    NoNewlinesSplice(b.lines, s.lineStart, s.lineEnd + 1, [joined]);
    Collapsed(b.lines[..s.lineStart] + [joined] + b.lines[s.lineEnd + 1..], s.Start())
  }

  /** TextEditorAction_AddNewLine: the line is cut at the cursor, the part before it becomes a
      new line in front and the cursor goes to the start of the part after it. */
  function SplitLine(b: Buffer): (r: Buffer)
    requires WellFormed(b)
    ensures WellFormed(r) && |r.lines| == |b.lines| + 1 && !HasSelection(r)
  {
    var l, c := b.cursor.line, b.cursor.col;
    var line := b.lines[l];
    NoNewlinesSplice(b.lines, l, l + 1, [line[..c], line[c..]]);
    Collapsed(b.lines[..l] + [line[..c], line[c..]] + b.lines[l + 1..], Pos(l + 1, 0))
  }

  /** `Replace('\r', ' ')`. */
  function ReplaceCarriageReturns(s: string): (r: string)
    ensures |r| == |s| && '\r' !in r
    ensures forall i :: 0 <= i < |s| ==> r[i] == (if s[i] == '\r' then ' ' else s[i])
  {
    seq(|s|, i requires 0 <= i < |s| => if s[i] == '\r' then ' ' else s[i])
  }

  /** A text without carriage returns is left as it is. */
  lemma ReplaceWithoutCarriageReturns(s: string)
    requires '\r' !in s
    ensures ReplaceCarriageReturns(s) == s
  {
  }

  /** A text holding a newline splits into at least two pieces. */
  lemma SplitWithNewline(s: string)
    requires '\n' in s
    ensures |Split(s)| >= 2
  {
    var k :| 0 <= k < |s| && s[k] == '\n';
    assert s == s[..k] + "\n" + s[k + 1..];
    SplitAtNewline(s[..k], s[k + 1..]);
  }

  /** TextEditorAction_PasteClipboard. A clipboard without newlines is inserted at the cursor,
      carriage returns included. Otherwise carriage returns become spaces, the text is split at
      the newlines, the first piece goes in at the cursor (the rest of the old line stays after
      it), every further piece becomes a new line below, and the cursor ends after the last one. */
  function Paste(b: Buffer, clipboard: string): (r: Buffer)
    requires WellFormed(b)
    ensures WellFormed(r) && !HasSelection(r)
  {
    if '\n' in clipboard then
      var text := ReplaceCarriageReturns(clipboard);
      assert '\n' in text by {
        var k :| 0 <= k < |clipboard| && clipboard[k] == '\n';
        assert text[k] == '\n';
      }
      SplitWithNewline(text);
      var pieces := Split(text);
      var l, c := b.cursor.line, b.cursor.col;
      var line := b.lines[l];
      var first := line[..c] + pieces[0] + line[c..];
      NoNewlinesSplice(b.lines, l, l + 1, [first] + pieces[1..]);
      var lines' := b.lines[..l] + ([first] + pieces[1..]) + b.lines[l + 1..];
      assert lines'[l + |pieces| - 1] == pieces[|pieces| - 1];
      Collapsed(lines', Pos(l + |pieces| - 1, |pieces[|pieces| - 1]|))
    else InsertText(b, clipboard)
  }

  /** TextEditorAction_CopyClipboard: the selected text; on one line the characters of
      [start, end), across lines the start line's tail, a newline, every line in between with its
      newline, and the end line's head. A newline is in it exactly when the selection spans lines. */
  function SelectedText(b: Buffer): (t: string)
    requires WellFormed(b)
    ensures '\n' in t <==> Sel(b).lineStart != Sel(b).lineEnd
    ensures !HasSelection(b) ==> t == ""
  {
    var s := Sel(b);
    if s.lineStart == s.lineEnd then
      var line := b.lines[s.lineStart];
      assert '\n' !in line;
      assert '\n' !in line[s.positionStart..s.positionEnd];
      line[s.positionStart..s.positionEnd]
    else
      var t := b.lines[s.lineStart][s.positionStart..] + "\n" + Serialize(b.lines[s.lineStart + 1..s.lineEnd])
               + b.lines[s.lineEnd][..s.positionEnd];
      assert t[|b.lines[s.lineStart][s.positionStart..]|] == '\n';
      t
  }

  /** TextEditorAction_NavigateArrowKeys followed by the dispatcher's collapse of the selection. */
  function Navigate(b: Buffer, d: Direction): (r: Buffer)
    requires WellFormed(b)
    ensures WellFormed(r) && r.lines == b.lines && !HasSelection(r)
  {
    Collapsed(b.lines, MoveTarget(b.lines, b.cursor, d))
  }

  /** TextEditorAction_NavigateArrowKeys_Selection: only the virtual cursor moves. */
  function NavigateSelection(b: Buffer, d: Direction): (r: Buffer)
    requires WellFormed(b)
    ensures WellFormed(r) && r.lines == b.lines && r.cursor == b.cursor
  {
    Buffer(b.lines, b.cursor, MoveTarget(b.lines, b.virt, d))
  }

  /** RefreshAllLines: the text is loaded, the cursor is clamped into it, the selection collapses. */
  function Reload(text: string, cursor: Pos): (r: Buffer)
    ensures WellFormed(r) && r.lines == Load(text) && !HasSelection(r)
  {
    var lines := Load(text);
    var l := Clamp(cursor.line, 0, |lines| - 1);
    Collapsed(lines, Pos(l, Clamp(cursor.col, 0, |lines[l]|)))
  }

  // ---------------------------------------------------------------------------
  // Keyboard dispatch

  /** The key codes _Input tells apart; every other key is OtherKey. */
  datatype Scancode =
    | KeyBackspace | KeyDelete | KeyTab | KeyV | KeyC | KeyX | KeyEnter
    | KeyRight | KeyLeft | KeyUp | KeyDown
    | OtherKey(code: int)

  /** A keyboard event: pressed or released, its key, the character it types and its modifiers. */
  datatype KeyEvent = KeyEvent(pressed: bool, scancode: Scancode, unicode: char, control: bool, command: bool, shift: bool)

  /** Ctrl or Cmd is held. */
  predicate Shortcut(ev: KeyEvent) {
    ev.control || ev.command
  }

  predicate IsArrow(k: Scancode) {
    k == KeyRight || k == KeyLeft || k == KeyUp || k == KeyDown
  }

  function ArrowDirection(k: Scancode): Direction
    requires IsArrow(k)
  {
    if k == KeyRight then Right else if k == KeyLeft then Left else if k == KeyUp then Up else Down
  }

  /** The "delete the selection first" step before Enter, paste and typing. */
  function ClearSelection(b: Buffer): (r: Outcome)
    requires WellFormed(b)
    ensures WellFormed(r.buffer)
    ensures !HasSelection(b) ==> r == Done(b)
  {
    if HasSelection(b) then DeleteSelection(b) else Done(b)
  }

  /** Runs an action after the selection was cleared, unless clearing it threw. */
  function AfterClear(o: Outcome, next: Buffer): Outcome {
    if o.Failed? then o else Done(next)
  }

  /** _Input for a keyboard event: the outcome and the clipboard afterwards. An exception ends
      the handling of the event, so nothing after the throwing action runs. */
  function Dispatch(b: Buffer, ev: KeyEvent, clipboard: string): (r: (Outcome, string))
    requires WellFormed(b)
    ensures WellFormed(r.0.buffer)
  {
    var k := ev.scancode;
    if !ev.pressed then (Done(b), clipboard)
    else if k == KeyBackspace || k == KeyDelete then
      (if HasSelection(b) then DeleteSelection(b) else DeleteText(b), clipboard)
    else if k == KeyTab then (Done(AddTab(b)), clipboard)
    else if k == KeyV && Shortcut(ev) then
      var o := ClearSelection(b);
      (AfterClear(o, Paste(o.buffer, clipboard)), clipboard)
    else if k == KeyC && Shortcut(ev) then (Done(b), SelectedText(b))
    else if k == KeyX && Shortcut(ev) then (DeleteSelection(b), SelectedText(b))
    else if k == KeyEnter then
      var o := ClearSelection(b);
      (AfterClear(o, SplitLine(o.buffer)), clipboard)
    else if IsArrow(k) then
      var d := ArrowDirection(k);
      (Done(if ev.shift then NavigateSelection(b, d) else Navigate(b, d)), clipboard)
    else if !IsControl(ev.unicode) then
      var o := ClearSelection(b);
      (AfterClear(o, InsertCharacter(o.buffer, ev.unicode)), clipboard)
    else (Done(b), clipboard)
  }

  // ---------------------------------------------------------------------------
  // What the actions do to each other

  /** Backspace right after typing a character takes it out again. */
  lemma BackspaceUndoesInsert(b: Buffer, ch: char)
    requires WellFormed(b) && !IsControl(ch)
    ensures DeleteText(InsertCharacter(b, ch)) == Done(Collapsed(b.lines, b.cursor))
  {
    var l, c := b.cursor.line, b.cursor.col;
    var line := b.lines[l];
    var line' := line[..c] + [ch] + line[c..];
    assert line'[..c] == line[..c] && line'[c + 1..] == line[c..];
    assert line'[..c] + line'[c + 1..] == line;
    assert b.lines[l := line'][l := line] == b.lines;
  }

  /** Backspace right after Enter joins the two halves again, except when the part after the
      cursor was exactly one character: then it throws. */
  lemma BackspaceAfterSplit(b: Buffer)
    requires WellFormed(b)
    ensures DeleteText(SplitLine(b)) ==
              if |b.lines[b.cursor.line]| - b.cursor.col == 1 then Failed(RemoveBeforeLineStart, SplitLine(b))
              else Done(Collapsed(b.lines, b.cursor))
  {
    var l, c := b.cursor.line, b.cursor.col;
    var line := b.lines[l];
    var r := SplitLine(b);
    assert r.lines[l] == line[..c] && r.lines[l + 1] == line[c..];
    if |line| - c != 1 {
      assert r.lines[..l] == b.lines[..l] && r.lines[l + 2..] == b.lines[l + 1..];
      assert line[..c] + line[c..] == line;
      assert b.lines[..l] + [line] + b.lines[l + 1..] == b.lines;
    }
  }

  /** A line update is the same as cutting the line out and putting the new one in. */
  lemma UpdateAsSplice(lines: seq<string>, i: int, s: string)
    requires 0 <= i < |lines|
    ensures lines[i := s] == lines[..i] + [s] + lines[i + 1..]
  {
  }

  /** Deleting a selection throws exactly when it spans lines and ends before the end of its last
      line; when it does not throw it does what JoinedDelete describes. */
  lemma DeleteSelectionAsIntended(b: Buffer)
    requires WellFormed(b)
    ensures DeleteSelection(b).Failed? <==> Sel(b).lineStart != Sel(b).lineEnd && Sel(b).positionEnd < |b.lines[Sel(b).lineEnd]|
    ensures DeleteSelection(b).Done? ==> DeleteSelection(b).buffer == JoinedDelete(b)
  {
    var s := Sel(b);
    if s.lineStart == s.lineEnd {
      var line := b.lines[s.lineStart];
      UpdateAsSplice(b.lines, s.lineStart, line[..s.positionStart] + line[s.positionEnd..]);
    } else if s.positionEnd == |b.lines[s.lineEnd]| {
      assert b.lines[s.lineEnd][s.positionEnd..] == "";
      assert b.lines[s.lineStart][..s.positionStart] + "" == b.lines[s.lineStart][..s.positionStart];
    }
  }

  /** The throwing case happens: "ab" / "cd" with the selection from (0, 1) to (1, 1) leaves the
      first line cut to "a" and everything else as it was. */
  lemma DeleteSelectionThrows()
    ensures DeleteSelection(Buffer(["ab", "cd"], Pos(0, 1), Pos(1, 1))) ==
            Failed(ReadPastLineEnd, Buffer(["a", "cd"], Pos(0, 1), Pos(1, 1)))
  {
    var b := Buffer(["ab", "cd"], Pos(0, 1), Pos(1, 1));
    assert WellFormed(b) by {
      assert '\n' !in b.lines[0] && '\n' !in b.lines[1];
    }
    assert "ab"[..1] == "a";
    assert ["ab", "cd"][0 := "a"] == ["a", "cd"];
  }

  /** With nothing selected, deleting the selection changes nothing. */
  lemma DeleteEmptySelection(b: Buffer)
    requires WellFormed(b) && !HasSelection(b)
    ensures DeleteSelection(b) == Done(b)
  {
    var s := Sel(b);
    var line := b.lines[s.lineStart];
    assert line[..s.positionStart] + line[s.positionEnd..] == line;
    assert b.lines[s.lineStart := line] == b.lines;
  }

  /** The lines a multi-line selection copies, read back by Split: the start line's tail, the
      middle lines, the end line's head. */
  lemma SplitSelected(head: string, middle: seq<string>, tail: string)
    requires '\n' !in head && NoNewlines(middle) && '\n' !in tail
    ensures Split(head + "\n" + (Serialize(middle) + tail)) == [head] + (middle + [tail])
  {
    SplitAtNewline(head, Serialize(middle) + tail);
    SplitSerialize(middle, tail);
    SplitOfLine(head);
  }

  /** Paste of a clipboard holding a newline, in terms of its pieces. */
  lemma PasteLines(b: Buffer, clipboard: string, pieces: seq<string>)
    requires WellFormed(b) && '\n' in clipboard && '\r' !in clipboard && pieces == Split(clipboard)
    ensures |pieces| >= 2
    ensures var l, c := b.cursor.line, b.cursor.col;
      Paste(b, clipboard) ==
        Collapsed(b.lines[..l] + ([b.lines[l][..c] + pieces[0] + b.lines[l][c..]] + pieces[1..]) + b.lines[l + 1..],
                  Pos(l + |pieces| - 1, |pieces[|pieces| - 1]|))
  {
    ReplaceWithoutCarriageReturns(clipboard);
    SplitWithNewline(clipboard);
  }

  /** Cut and paste within one line. */
  lemma CutThenPasteInLine(b: Buffer)
    requires WellFormed(b) && Sel(b).lineStart == Sel(b).lineEnd
    ensures DeleteSelection(b).Done?
    ensures Paste(DeleteSelection(b).buffer, SelectedText(b)) == Collapsed(b.lines, Sel(b).End())
  {
    var s := Sel(b);
    var sl, ps, pe := s.lineStart, s.positionStart, s.positionEnd;
    var line := b.lines[sl];
    var cut := line[..ps] + line[pe..];
    assert cut[..ps] == line[..ps] && cut[ps..] == line[pe..];
    assert line[..ps] + line[ps..pe] + line[pe..] == line;
    assert b.lines[sl := cut][sl := line] == b.lines;
  }

  /** What a multi-line cut that does not throw leaves behind: the start line's prefix, and the
      selection reached the end of its last line. */
  lemma CutAcrossLines(b: Buffer)
    requires WellFormed(b) && DeleteSelection(b).Done? && Sel(b).lineStart != Sel(b).lineEnd
    ensures Sel(b).positionEnd == |b.lines[Sel(b).lineEnd]|
    ensures DeleteSelection(b).buffer ==
            Collapsed(b.lines[..Sel(b).lineStart] + [b.lines[Sel(b).lineStart][..Sel(b).positionStart]] + b.lines[Sel(b).lineEnd + 1..],
                      Sel(b).Start())
  {
  }

  /** The text a multi-line selection reaching the end of its last line copies, and its pieces. */
  lemma CopyAcrossLines(b: Buffer)
    requires WellFormed(b) && Sel(b).lineStart != Sel(b).lineEnd && Sel(b).positionEnd == |b.lines[Sel(b).lineEnd]|
    ensures var s := Sel(b);
      Split(SelectedText(b)) == [b.lines[s.lineStart][s.positionStart..]] + (b.lines[s.lineStart + 1..s.lineEnd] + [b.lines[s.lineEnd]])
  {
    var s := Sel(b);
    var sl, ps, el, pe := s.lineStart, s.positionStart, s.lineEnd, s.positionEnd;
    var start, end := b.lines[sl], b.lines[el];
    var middle := b.lines[sl + 1..el];
    assert end[..pe] == end;
    assert NoNewlines(middle) by {
      forall k | 0 <= k < |middle| ensures '\n' !in middle[k] { assert middle[k] == b.lines[sl + 1 + k]; }
    }
    assert SelectedText(b) == start[ps..] + "\n" + (Serialize(middle) + end);
    SplitSelected(start[ps..], middle, end);
  }

  /** Putting a cut-out multi-line selection back where it was gives the original lines. */
  lemma Reassemble(lines: seq<string>, sl: int, ps: int, el: int)
    requires 0 <= sl < el < |lines| && 0 <= ps <= |lines[sl]|
    ensures var prefix := lines[sl][..ps];
      var kept := lines[..sl] + [prefix] + lines[el + 1..];
      var pieces := [lines[sl][ps..]] + (lines[sl + 1..el] + [lines[el]]);
      kept[..sl] + ([kept[sl][..ps] + pieces[0] + kept[sl][ps..]] + pieces[1..]) + kept[sl + 1..] == lines
  {
    var start := lines[sl];
    var prefix := start[..ps];
    var kept := lines[..sl] + [prefix] + lines[el + 1..];
    var pieces := [start[ps..]] + (lines[sl + 1..el] + [lines[el]]);
    assert kept[sl] == prefix;
    assert prefix[..ps] + pieces[0] + prefix[ps..] == start;
    assert kept[..sl] == lines[..sl] && kept[sl + 1..] == lines[el + 1..];
    assert pieces[1..] == lines[sl + 1..el] + [lines[el]];
    assert lines[..sl] + ([start] + (lines[sl + 1..el] + [lines[el]])) + lines[el + 1..] == lines;
  }

  /** Cut and paste across lines, when the cut does not throw. */
  lemma CutThenPasteAcrossLines(b: Buffer)
    requires WellFormed(b) && DeleteSelection(b).Done? && Sel(b).lineStart != Sel(b).lineEnd
    requires '\r' !in SelectedText(b)
    ensures Paste(DeleteSelection(b).buffer, SelectedText(b)) == Collapsed(b.lines, Sel(b).End())
  {
    var s := Sel(b);
    var sl, ps, el := s.lineStart, s.positionStart, s.lineEnd;
    CutAcrossLines(b);
    CopyAcrossLines(b);
    var cut, text := DeleteSelection(b).buffer, SelectedText(b);
    var kept := b.lines[..sl] + [b.lines[sl][..ps]] + b.lines[el + 1..];
    assert cut == Collapsed(kept, Pos(sl, ps));
    var pieces := [b.lines[sl][ps..]] + (b.lines[sl + 1..el] + [b.lines[el]]);
    assert Split(text) == pieces;
    PasteLines(cut, text, pieces);
    Reassemble(b.lines, sl, ps, el);
  }

  /** Cut followed by paste at the place the cut leaves the cursor gives back the lines, with the
      cursor at the far end of the old selection. Carriage returns in a multi-line selection would
      come back as spaces, so they are excluded there. */
  lemma CutThenPaste(b: Buffer)
    requires WellFormed(b) && DeleteSelection(b).Done?
    requires Sel(b).lineStart == Sel(b).lineEnd || '\r' !in SelectedText(b)
    ensures Paste(DeleteSelection(b).buffer, SelectedText(b)) == Collapsed(b.lines, Sel(b).End())
  {
    if Sel(b).lineStart == Sel(b).lineEnd {
      CutThenPasteInLine(b);
    } else {
      CutThenPasteAcrossLines(b);
    }
  }

  /** Reloading the serialized text at the same cursor gives the same state back. */
  lemma ReloadSerialized(b: Buffer)
    requires WellFormed(b) && !HasSelection(b)
    ensures Reload(Serialize(b.lines), b.cursor) == b
  {
    LoadSerialize(b.lines);
  }

  // ---------------------------------------------------------------------------
  // Dispatch

  /** The event of typing a character on a key _Input has no special meaning for. */
  predicate Typing(ev: KeyEvent) {
    ev.pressed && ev.scancode.OtherKey? && !IsControl(ev.unicode)
  }

  /** A pressed Backspace or Delete, whatever the modifiers. */
  predicate Erasing(ev: KeyEvent) {
    ev.pressed && (ev.scancode == KeyBackspace || ev.scancode == KeyDelete)
  }

  /** Keys that do not edit: a release, an arrow, copy, and a control character on an ordinary
      key leave the lines as they are. */
  lemma NonEditingKeys(b: Buffer, ev: KeyEvent, clipboard: string)
    requires WellFormed(b)
    requires !ev.pressed || IsArrow(ev.scancode) || (ev.scancode == KeyC && Shortcut(ev))
             || (ev.scancode.OtherKey? && IsControl(ev.unicode))
    ensures var r := Dispatch(b, ev, clipboard); r.0.Done? && r.0.buffer.lines == b.lines
    ensures ev.pressed && IsArrow(ev.scancode) && ev.shift ==> Dispatch(b, ev, clipboard).0.buffer.cursor == b.cursor
    ensures ev.pressed && IsArrow(ev.scancode) && !ev.shift ==> !HasSelection(Dispatch(b, ev, clipboard).0.buffer)
  {
  }

  /** Typing over a selection that can be deleted replaces it by the character. */
  lemma TypingReplacesSelection(b: Buffer, ev: KeyEvent, clipboard: string)
    requires WellFormed(b) && HasSelection(b) && DeleteSelection(b).Done? && Typing(ev)
    ensures Dispatch(b, ev, clipboard) == (Done(InsertText(JoinedDelete(b), [ev.unicode])), clipboard)
  {
    DeleteSelectionAsIntended(b);
  }

  /** Typing a character and then Backspace with nothing selected gives the state back. */
  lemma TypeThenBackspace(b: Buffer, ev: KeyEvent, bs: KeyEvent, clipboard: string)
    requires WellFormed(b) && !HasSelection(b) && Typing(ev) && Erasing(bs)
    ensures var r := Dispatch(b, ev, clipboard);
      r.0.Done? && Dispatch(r.0.buffer, bs, r.1) == (Done(b), clipboard)
  {
    BackspaceUndoesInsert(b, ev.unicode);
  }

  /** Ctrl+X then Ctrl+V (when the cut does not throw) gives the lines back, with the cursor at
      the far end of the old selection and the cut text on the clipboard. */
  lemma CutKeyThenPasteKey(b: Buffer, x: KeyEvent, v: KeyEvent, clipboard: string)
    requires WellFormed(b) && DeleteSelection(b).Done?
    requires Sel(b).lineStart == Sel(b).lineEnd || '\r' !in SelectedText(b)
    requires x.pressed && x.scancode == KeyX && Shortcut(x)
    requires v.pressed && v.scancode == KeyV && Shortcut(v)
    ensures var r := Dispatch(b, x, clipboard);
      r.0.Done? && Dispatch(r.0.buffer, v, r.1) == (Done(Collapsed(b.lines, Sel(b).End())), SelectedText(b))
  {
    var text := SelectedText(b);
    assert Dispatch(b, x, clipboard) == (DeleteSelection(b), text);
    var cut := DeleteSelection(b).buffer;
    assert ClearSelection(cut) == Done(cut);
    assert Dispatch(cut, v, text) == (Done(Paste(cut, text)), text);
    CutThenPaste(b);
  }
}
