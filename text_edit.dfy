/** The editor control (Custom_TextEdit): its lines, its cursor, its virtual selection cursor and
    the normalized selection, the syntax tables, and one method per editor action, each proved to
    do what the corresponding EditOps function says. */
module TextEditor {
  import opened LineStore
  import opened Cursor
  import opened SyntaxRules
  import opened EditOps

  /** The line-building pass of RefreshAllLines: characters are gathered until a newline, a
      non-empty trailing fragment becomes a last line, and no line at all becomes one empty line. */
  method LinesOf(text: string) returns (newLines: seq<string>)
    ensures newLines == Load(text)
  {
    newLines := [];
    var lineValue := "";
    for charIndex := 0 to |text|
      invariant Split(text[..charIndex]) == newLines + [lineValue]
    {
      assert text[..charIndex + 1] == text[..charIndex] + [text[charIndex]];
      SplitStep(text[..charIndex], text[charIndex], newLines, lineValue);
      if text[charIndex] == '\n' {
        newLines := newLines + [lineValue];
        lineValue := "";
      } else {
        lineValue := lineValue + [text[charIndex]];
      }
    }
    assert text[..|text|] == text;
    LoadOfSplit(text, newLines, lineValue);
    if lineValue != "" {
      newLines := newLines + [lineValue];
      lineValue := "";
    }
    // with no line at all, a single empty one
    if |newLines| == 0 {
      newLines := newLines + [""];
    }
  }

  /** The characters of s in [lo, hi): the single-line loop of TextEditorAction_CopyClipboard,
      which looks at every character of the line. */
  method CopyInside(s: string, lo: int, hi: int) returns (t: string)
    requires 0 <= lo <= hi <= |s|
    ensures t == s[lo..hi]
  {
    t := "";
    for i := 0 to |s|
      invariant t == s[Min(i, lo)..Min(i, hi)]
    {
      if i < lo || i >= hi {
        // skipped
      } else {
        t := t + [s[i]];
      }
    }
  }

  /** The characters of s from n on, copied one at a time. */
  method CopySuffix(s: string, n: int) returns (t: string)
    requires 0 <= n <= |s|
    ensures t == s[n..]
  {
    t := "";
    for i := n to |s|
      invariant t == s[n..i]
    {
      t := t + [s[i]];
    }
    assert s[n..|s|] == s[n..];
  }

  /** Every line strictly between lines lo and hi followed by a newline: the copy loop over all
      line labels, which takes those after the start line and before the end line. */
  method JoinBetween(lines: seq<string>, lo: int, hi: int) returns (t: string)
    requires 0 <= lo < hi <= |lines|
    ensures t == Serialize(lines[lo + 1..hi])
  {
    t := "";
    for i := 0 to |lines|
      invariant t == Serialize(lines[lo + 1..Clamp(i, lo + 1, hi)])
    {
      if i > lo && i < hi {
        assert lines[lo + 1..i + 1][..i - lo - 1] == lines[lo + 1..i];
        t := t + lines[i];
        t := t + "\n";
      }
    }
  }

  /** The elements of s outside [lo, hi), copied one at a time in order: the character loop of
      TextEditorAction_DeleteText_Selection and its loop over the line labels. */
  method CopyOutside<T>(s: seq<T>, lo: int, hi: int) returns (t: seq<T>)
    requires 0 <= lo <= hi <= |s|
    ensures t == s[..lo] + s[hi..]
  {
    t := [];
    for i := 0 to |s|
      invariant t == KeptBefore(s, lo, hi, i)
    {
      KeptStep(s, lo, hi, i);
      if i >= lo && i < hi {
        // skipped
      } else {
        t := t + [s[i]];
      }
    }
    if |s| > 0 {
      KeptStep(s, lo, hi, 0);
    }
  }

  /** The first n characters of s, copied one at a time. */
  method CopyPrefix(s: string, n: int) returns (t: string)
    requires 0 <= n <= |s|
    ensures t == s[..n]
  {
    t := "";
    for i := 0 to n
      invariant t == s[..i]
    {
      t := t + [s[i]];
    }
  }

  /** `String.Insert` at the column, or `+=` when the column is the line's end. */
  method InsertInto(line: string, col: int, text: string) returns (r: string)
    requires 0 <= col <= |line|
    ensures r == line[..col] + text + line[col..]
  {
    if col < |line| {
      r := line[..col] + text + line[col..];
    } else {
      assert line[col..] == "";
      r := line + text;
    }
  }

  /** The pieces inserted one `List.Insert` at a time from index at on, each after the one before. */
  method InsertAll(lines: seq<string>, at: int, pieces: seq<string>) returns (r: seq<string>)
    requires 0 <= at <= |lines|
    ensures r == lines[..at] + pieces + lines[at..]
  {
    r := lines;
    for k := 0 to |pieces|
      invariant r == lines[..at] + pieces[..k] + lines[at..]
    {
      assert pieces[..k + 1] == pieces[..k] + [pieces[k]];
      r := InsertAt(r, at + k, pieces[k]);
    }
    assert pieces[..|pieces|] == pieces;
  }

  /** The line edits and the cursor move of TextEditorAction_PasteClipboard, worked out on the
      editor's lines and cursor. */
  method PastedLines(b: Buffer, clipboard: string) returns (newLines: seq<string>, newCursor: Pos)
    requires WellFormed(b)
    ensures Collapsed(newLines, newCursor) == Paste(b, clipboard)
  {
    if '\n' in clipboard {
      newLines, newCursor := PastedLineBreaks(b, clipboard);
    } else {
      var cl, cp := b.cursor.line, b.cursor.col;
      var lineText := InsertInto(b.lines[cl], cp, clipboard);
      newLines := b.lines[cl := lineText];
      newCursor := Pos(cl, cp + |clipboard|);
      assert Paste(b, clipboard) == InsertText(b, clipboard);
    }
  }

  /** PasteClipboard with a newline in the clipboard: the first piece goes into the cursor's line,
      the others become new lines after it, and the cursor ends after the last piece. */
  method PastedLineBreaks(b: Buffer, clipboard: string) returns (newLines: seq<string>, newCursor: Pos)
    requires WellFormed(b) && '\n' in clipboard
    ensures Collapsed(newLines, newCursor) == Paste(b, clipboard)
  {
    var cl, cp := b.cursor.line, b.cursor.col;
    var clipboardText := ReplaceCarriageReturns(clipboard);
    assert '\n' in clipboardText by {
      var k :| 0 <= k < |clipboard| && clipboard[k] == '\n';
      assert clipboardText[k] == '\n';
    }
    SplitWithNewline(clipboardText);
    var textLines := Split(clipboardText);
    var lineText := InsertInto(b.lines[cl], cp, textLines[0]);
    newLines := InsertAll(b.lines[cl := lineText], cl + 1, textLines[1..]);
    assert newLines == b.lines[..cl] + ([lineText] + textLines[1..]) + b.lines[cl + 1..];
    newCursor := Pos(cl + |textLines| - 1, |textLines[|textLines| - 1]|);
  }

  class CustomTextEdit {
    /** EditorText: the raw text, loaded by RefreshAllLines and rebuilt by UpdateEditorTextInternal. */
    var editorText: string
    /** The LineText of every line label, in order. */
    var lines: seq<string>
    var cursorLine: int
    var cursorPosition: int
    var virtualLine: int
    var virtualPosition: int
    var selectionLineStart: int
    var selectionPositionStart: int
    var selectionLineEnd: int
    var selectionPositionEnd: int
    var rules: RuleSet

    function CursorPos(): Pos reads this { Pos(cursorLine, cursorPosition) }
    function VirtualPos(): Pos reads this { Pos(virtualLine, virtualPosition) }
    function SelectionFields(): Selection reads this {
      Selection(selectionLineStart, selectionPositionStart, selectionLineEnd, selectionPositionEnd)
    }

    /** The lines and both cursors as a value. */
    function State(): Buffer reads this {
      Buffer(lines, CursorPos(), VirtualPos())
    }

    /** The editor invariant: the state is well formed and the selection fields are the
        normalized pair of cursors. */
    predicate Valid() reads this {
      WellFormed(State()) && SelectionFields() == Normalize(CursorPos(), VirtualPos())
    }

    /** The field initializers, then _Ready: the default tables when asked for, and a first load. */
    constructor (text: string, autoApplyDefaultSyntaxHighlighting: bool)
      ensures Valid() && editorText == text
      ensures State() == Reload(text, Pos(0, 0))
      ensures rules == if autoApplyDefaultSyntaxHighlighting then AddDefaultSyntaxColoring(EmptyRules) else EmptyRules
    {
      editorText := text;
      lines := [];
      cursorLine, cursorPosition := 0, 0;
      selectionLineStart, selectionLineEnd := 1, 4;
      selectionPositionStart, selectionPositionEnd := 2, 10;
      virtualLine, virtualPosition := 0, 0;
      rules := EmptyRules;
      new;
      if autoApplyDefaultSyntaxHighlighting {
        ApplyDefaultSyntaxColoring();
      }
      RefreshAllLines();
    }

    // -------------------------------------------------------------------------
    // Rule tables

    /** AddDefaultSyntaxColoring. */
    method ApplyDefaultSyntaxColoring()
      modifies this
      ensures rules == AddDefaultSyntaxColoring(old(rules))
      ensures State() == old(State()) && SelectionFields() == old(SelectionFields()) && editorText == old(editorText)
    {
      rules := AddDefaultSyntaxColoring(rules);
    }

    /** AddKeywordColor: add the entry, or overwrite the existing one. */
    method AddKeywordColorEntry(keyword: string, color: Color)
      modifies this
      ensures rules == AddKeywordColor(old(rules), keyword, color)
      ensures State() == old(State()) && SelectionFields() == old(SelectionFields()) && editorText == old(editorText)
    {
      rules := rules.(keywordColors := rules.keywordColors[keyword := color]);
    }

    /** AddKeywordRegionColor. */
    method AddKeywordRegionColorEntry(keyword: string, color: Color, endKeyword: string := "\n")
      modifies this
      ensures rules == AddKeywordRegionColor(old(rules), keyword, color, endKeyword)
      ensures State() == old(State()) && SelectionFields() == old(SelectionFields()) && editorText == old(editorText)
    {
      rules := rules.(regionColors := rules.regionColors[keyword := RegionRule(endKeyword, color)]);
    }

    /** AddKeywordCharRegionColor. */
    method AddKeywordCharRegionColorEntry(keyword: char, color: Color, endChar: char := '\n',
                                          useEndChar: bool := false, hasToBeWordStart: bool := false)
      modifies this
      ensures rules == AddKeywordCharRegionColor(old(rules), keyword, color, endChar, useEndChar, hasToBeWordStart)
      ensures State() == old(State()) && SelectionFields() == old(SelectionFields()) && editorText == old(editorText)
    {
      rules := rules.(charRegionColors :=
        rules.charRegionColors[keyword := CharRegionRule(endChar, useEndChar, hasToBeWordStart, color)]);
    }

    /** AddKeywordEndSymbol. */
    method AddKeywordEndSymbolEntry(keywordSymbol: char)
      modifies this
      ensures rules == AddKeywordEndSymbol(old(rules), keywordSymbol)
      ensures State() == old(State()) && SelectionFields() == old(SelectionFields()) && editorText == old(editorText)
    {
      rules := rules.(wordEndSymbols := rules.wordEndSymbols + {keywordSymbol});
    }

    // -------------------------------------------------------------------------
    // Loading and saving

    /** UpdateSelectionBasedOnVirtualCursor. */
    method UpdateSelectionBasedOnVirtualCursor()
      modifies this
      ensures SelectionFields() == Normalize(CursorPos(), VirtualPos())
      ensures State() == old(State()) && editorText == old(editorText) && rules == old(rules)
    {
      if cursorLine < virtualLine {
        selectionLineStart, selectionPositionStart := cursorLine, cursorPosition;
        selectionLineEnd, selectionPositionEnd := virtualLine, virtualPosition;
      } else if cursorLine > virtualLine {
        selectionLineStart, selectionPositionStart := virtualLine, virtualPosition;
        selectionLineEnd, selectionPositionEnd := cursorLine, cursorPosition;
      } else {
        selectionLineStart, selectionLineEnd := cursorLine, cursorLine;
        selectionPositionStart := Min(cursorPosition, virtualPosition);
        selectionPositionEnd := Max(cursorPosition, virtualPosition);
      }
    }

    /** RefreshAllLines: cut the text into lines character by character, keep a trailing fragment,
        make sure there is a line, clamp the cursor into the new lines and collapse the selection. */
    method RefreshAllLines()
      modifies this
      ensures Valid() && State() == Reload(old(editorText), old(CursorPos()))
      ensures editorText == old(editorText) && rules == old(rules)
    {
      var newLines := LinesOf(editorText);
      // the line count is at least one here, so the source's other branch is never taken
      var l := Clamp(cursorLine, 0, |newLines| - 1);
      var c := Clamp(cursorPosition, 0, |newLines[l]|);
      assert Reload(editorText, CursorPos()) == Collapsed(newLines, Pos(l, c));
      lines := newLines;
      cursorLine, cursorPosition := l, c;
      virtualLine, virtualPosition := cursorLine, cursorPosition;
      UpdateSelectionBasedOnVirtualCursor();
    }

    /** UpdateEditorTextInternal: every line followed by a newline. */
    method UpdateEditorTextInternal()
      modifies this
      ensures editorText == Serialize(lines)
      ensures State() == old(State()) && SelectionFields() == old(SelectionFields()) && rules == old(rules)
    {
      var newText := "";
      for i := 0 to |lines|
        invariant newText == Serialize(lines[..i])
      {
        assert lines[..i + 1][..i] == lines[..i];
        newText := newText + lines[i];
        newText := newText + "\n";
      }
      assert lines[..|lines|] == lines;
      editorText := newText;
    }

    // -------------------------------------------------------------------------
    // Editing actions

    /** TextEditorAction_DeleteText (Backspace and Delete). */
    method DeleteText() returns (r: Outcome)
      requires Valid()
      modifies this
      ensures Valid() && r == EditOps.DeleteText(old(State())) && State() == r.buffer
      ensures editorText == old(editorText) && rules == old(rules)
    {
      var l, c := cursorLine, cursorPosition;
      var line := lines[l];
      var newLines, newCursor := lines, Pos(l, c);
      if c >= |line| - 1 && |line| > 0 {
        if c - 1 < 0 {
          // String.Remove(-1, 1) throws before anything has changed
          return Failed(RemoveBeforeLineStart, State());
        }
        newLines, newCursor := lines[l := line[..c - 1] + line[c..]], Pos(l, c - 1);
      } else if c - 1 >= 0 {
        newLines, newCursor := lines[l := line[..c - 1] + line[c..]], Pos(l, c - 1);
      } else if l > 0 {
        var priorLineLength := |lines[l - 1]|;
        newLines := lines[l - 1 := lines[l - 1] + lines[l]];
        newLines := RemoveAt(newLines, l);
        assert newLines == lines[..l - 1] + [lines[l - 1] + line] + lines[l + 1..];
        newCursor := Pos(l - 1, priorLineLength);
      }
      assert EditOps.DeleteText(State()) == Done(Collapsed(newLines, newCursor));
      lines := newLines;
      cursorLine, cursorPosition := newCursor.line, newCursor.col;
      virtualLine, virtualPosition := cursorLine, cursorPosition;
      UpdateSelectionBasedOnVirtualCursor();
      r := Done(State());
    }

    /** TextEditorAction_DeleteText_Selection. */
    method DeleteTextSelection() returns (r: Outcome)
      requires Valid()
      modifies this
      ensures Valid() && r == DeleteSelection(old(State())) && State() == r.buffer
      ensures editorText == old(editorText) && rules == old(rules)
    {
      var sl, ps, el, pe := selectionLineStart, selectionPositionStart, selectionLineEnd, selectionPositionEnd;
      assert Sel(State()) == Selection(sl, ps, el, pe);
      var newLines := lines;
      if sl == el {
        // the cursor is on the selected line, and its label receives the result
        var newText := CopyOutside(lines[sl], ps, pe);
        newLines := lines[sl := newText];
      } else {
        var newStartText := CopyPrefix(lines[sl], ps);
        newLines := lines[sl := newStartText];
        var endText := newLines[el];
        if |endText| > pe {
          // the backwards copy of the end line's tail starts by reading endText[endText.Length]
          assert DeleteSelection(State()) == Failed(ReadPastLineEnd, Buffer(newLines, CursorPos(), VirtualPos()));
          lines := newLines;
          return Failed(ReadPastLineEnd, State());
        }
        // the backwards copy runs no time
        var newEndText := "";
        newLines := newLines[el := newEndText];
        ghost var cut := newLines;
        var newFileLabels := CopyOutside(newLines, sl + 1, el + 1);
        assert cut[..sl + 1] == lines[..sl] + [newStartText];
        assert cut[el + 1..] == lines[el + 1..];
        assert newFileLabels == lines[..sl] + [newStartText] + lines[el + 1..];
        assert newFileLabels[sl] + newEndText == newFileLabels[sl];
        newLines := newFileLabels[sl := newFileLabels[sl] + newEndText];
        assert newLines == newFileLabels;
      }
      assert DeleteSelection(State()) == Done(Collapsed(newLines, Pos(sl, ps)));
      lines := newLines;
      cursorLine, cursorPosition := sl, ps;
      virtualLine, virtualPosition := cursorLine, cursorPosition;
      UpdateSelectionBasedOnVirtualCursor();
      r := Done(State());
    }

    /** TextEditorAction_AddTab. */
    method AddTab()
      requires Valid()
      modifies this
      ensures Valid() && State() == EditOps.AddTab(old(State()))
      ensures editorText == old(editorText) && rules == old(rules)
    {
      var lineText := InsertInto(lines[cursorLine], cursorPosition, "\t");
      var newLines, newCursor := lines[cursorLine := lineText], Pos(cursorLine, cursorPosition + 1);
      assert EditOps.AddTab(State()) == Collapsed(newLines, newCursor);
      lines := newLines;
      cursorPosition := newCursor.col;
      virtualLine, virtualPosition := cursorLine, cursorPosition;
      UpdateSelectionBasedOnVirtualCursor();
    }

    /** TextEditorAction_InsertCharacter: a control character is ignored. */
    method InsertCharacter(keyAsCode: char)
      requires Valid()
      modifies this
      ensures Valid() && State() == EditOps.InsertCharacter(old(State()), keyAsCode)
      ensures editorText == old(editorText) && rules == old(rules)
    {
      if !IsControl(keyAsCode) {
        var lineText := InsertInto(lines[cursorLine], cursorPosition, [keyAsCode]);
        var newLines, newCursor := lines[cursorLine := lineText], Pos(cursorLine, cursorPosition + 1);
        assert EditOps.InsertCharacter(State(), keyAsCode) == Collapsed(newLines, newCursor);
        lines := newLines;
        cursorPosition := newCursor.col;
        virtualLine, virtualPosition := cursorLine, cursorPosition;
        UpdateSelectionBasedOnVirtualCursor();
      }
    }

    /** TextEditorAction_PasteClipboard, with the clipboard passed in. */
    method PasteClipboard(clipboard: string)
      requires Valid()
      modifies this
      ensures Valid() && State() == Paste(old(State()), clipboard)
      ensures editorText == old(editorText) && rules == old(rules)
    {
      var newLines, newCursor := PastedLines(State(), clipboard);
      lines := newLines;
      cursorLine, cursorPosition := newCursor.line, newCursor.col;
      virtualLine, virtualPosition := cursorLine, cursorPosition;
      UpdateSelectionBasedOnVirtualCursor();
    }

    /** TextEditorAction_CopyClipboard: the selected text, which becomes the clipboard. */
    method CopyClipboard() returns (clipboardText: string)
      requires Valid()
      ensures clipboardText == SelectedText(State())
    {
      var sl, ps, el, pe := selectionLineStart, selectionPositionStart, selectionLineEnd, selectionPositionEnd;
      assert Sel(State()) == Selection(sl, ps, el, pe);
      if sl == el {
        clipboardText := CopyInside(lines[sl], ps, pe);
      } else {
        var head := CopySuffix(lines[sl], ps);
        var middle := JoinBetween(lines, sl, el);
        var tail := CopyPrefix(lines[el], pe);
        clipboardText := head + "\n" + middle + tail;
      }
    }

    /** TextEditorAction_AddNewLine. */
    method AddNewLine()
      requires Valid()
      modifies this
      ensures Valid() && State() == SplitLine(old(State()))
      ensures editorText == old(editorText) && rules == old(rules)
    {
      var l, c := cursorLine, cursorPosition;
      var labelText := lines[l];
      var labelTextOne := CopyPrefix(labelText, c);
      var labelTextTwo := CopySuffix(labelText, c);
      var newLines := lines[l := labelTextTwo];
      assert newLines[..l] == lines[..l] && newLines[l..] == [labelTextTwo] + lines[l + 1..];
      newLines := InsertAt(newLines, l, labelTextOne);
      assert newLines == lines[..l] + [labelTextOne, labelTextTwo] + lines[l + 1..];
      assert SplitLine(State()) == Collapsed(newLines, Pos(l + 1, 0));
      lines := newLines;
      cursorLine, cursorPosition := l + 1, 0;
      virtualLine, virtualPosition := cursorLine, cursorPosition;
      UpdateSelectionBasedOnVirtualCursor();
    }

    /** TextEditorAction_NavigateArrowKeys: only the cursor moves; the selection fields are left to
        the caller. */
    method NavigateArrowKeys(d: Direction)
      requires Valid()
      modifies this
      ensures CursorPos() == MoveTarget(old(lines), old(CursorPos()), d)
      ensures lines == old(lines) && VirtualPos() == old(VirtualPos()) && SelectionFields() == old(SelectionFields())
      ensures editorText == old(editorText) && rules == old(rules)
    {
      var q := MovePosition(lines, CursorPos(), d);
      cursorLine, cursorPosition := q.line, q.col;
    }

    /** TextEditorAction_NavigateArrowKeys_Selection: only the virtual cursor moves. */
    method NavigateArrowKeysSelection(d: Direction)
      requires Valid()
      modifies this
      ensures Valid() && State() == NavigateSelection(old(State()), d)
      ensures editorText == old(editorText) && rules == old(rules)
    {
      var q := MovePosition(lines, VirtualPos(), d);
      virtualLine, virtualPosition := q.line, q.col;
      UpdateSelectionBasedOnVirtualCursor();
    }

    // -------------------------------------------------------------------------
    // Keyboard input

    /** The step _Input takes before paste, Enter and typing: a selection, when there is one, is
        deleted first. */
    method ClearSelectionFirst() returns (r: Outcome)
      requires Valid()
      modifies this
      ensures Valid() && r == ClearSelection(old(State())) && State() == r.buffer
      ensures editorText == old(editorText) && rules == old(rules)
    {
      r := Done(State());
      if cursorLine != virtualLine || cursorPosition != virtualPosition {
        r := DeleteTextSelection();
      }
    }

    /** Ctrl/Cmd+V: the selection deleted first, then the clipboard pasted unless that threw. */
    method PasteKey(clipboard: string) returns (r: Outcome)
      requires Valid()
      modifies this
      ensures Valid() && State() == r.buffer
      ensures r == AfterClear(ClearSelection(old(State())), Paste(ClearSelection(old(State())).buffer, clipboard))
      ensures editorText == old(editorText) && rules == old(rules)
    {
      r := ClearSelectionFirst();
      if r.Done? {
        PasteClipboard(clipboard);
        r := Done(State());
      }
    }

    /** Ctrl/Cmd+X: the selection copied, then deleted. */
    method CutKey() returns (r: Outcome, clipboardAfter: string)
      requires Valid()
      modifies this
      ensures Valid() && State() == r.buffer
      ensures r == DeleteSelection(old(State())) && clipboardAfter == SelectedText(old(State()))
      ensures editorText == old(editorText) && rules == old(rules)
    {
      clipboardAfter := CopyClipboard();
      r := DeleteTextSelection();
    }

    /** Enter: the selection deleted first, then the line split at the cursor unless that threw. */
    method EnterKey() returns (r: Outcome)
      requires Valid()
      modifies this
      ensures Valid() && State() == r.buffer
      ensures r == AfterClear(ClearSelection(old(State())), SplitLine(ClearSelection(old(State())).buffer))
      ensures editorText == old(editorText) && rules == old(rules)
    {
      r := ClearSelectionFirst();
      if r.Done? {
        AddNewLine();
        r := Done(State());
      }
    }

    /** An arrow key: with Shift the virtual cursor moves and the selection follows it; without,
        the cursor moves and the selection collapses onto it. */
    method ArrowKey(d: Direction, shift: bool)
      requires Valid()
      modifies this
      ensures Valid() && State() == if shift then NavigateSelection(old(State()), d) else Navigate(old(State()), d)
      ensures editorText == old(editorText) && rules == old(rules)
    {
      if shift {
        NavigateArrowKeysSelection(d);
      } else {
        NavigateArrowKeys(d);
        // a plain move drops the selection
        virtualLine, virtualPosition := cursorLine, cursorPosition;
        UpdateSelectionBasedOnVirtualCursor();
      }
    }

    /** Any other key typing a character that is not a control character: the selection deleted
        first, then the character inserted unless that threw. */
    method TypeKey(keyAsCode: char) returns (r: Outcome)
      requires Valid() && !IsControl(keyAsCode)
      modifies this
      ensures Valid() && State() == r.buffer
      ensures r == AfterClear(ClearSelection(old(State())), EditOps.InsertCharacter(ClearSelection(old(State())).buffer, keyAsCode))
      ensures editorText == old(editorText) && rules == old(rules)
    {
      r := ClearSelectionFirst();
      if r.Done? {
        InsertCharacter(keyAsCode);
        r := Done(State());
      }
    }

    /** The keyboard part of _Input, for a visible editor that has the focus: the action the key
        selects, with the selection deleted first before paste, Enter and typing. An exception
        ends the handling, so the actions after it do not run and the state is what it was when
        it was thrown. The clipboard is passed in and the clipboard afterwards returned. */
    method Input(ev: KeyEvent, clipboard: string) returns (r: Outcome, clipboardAfter: string)
      requires Valid()
      modifies this
      ensures Valid() && (r, clipboardAfter) == Dispatch(old(State()), ev, clipboard) && State() == r.buffer
      ensures editorText == old(editorText) && rules == old(rules)
    {
      ghost var b := State();
      clipboardAfter := clipboard;
      var k := ev.scancode;
      r := Done(State());
      if !ev.pressed {
        return;
      }
      if k == KeyBackspace || k == KeyDelete {
        assert Dispatch(b, ev, clipboard) == (if HasSelection(b) then DeleteSelection(b) else EditOps.DeleteText(b), clipboard);
        if cursorLine != virtualLine || cursorPosition != virtualPosition {
          r := DeleteTextSelection();
        } else {
          r := DeleteText();
        }
      } else if k == KeyTab {
        assert Dispatch(b, ev, clipboard) == (Done(EditOps.AddTab(b)), clipboard);
        AddTab();
        r := Done(State());
      } else if k == KeyV && Shortcut(ev) {
        assert Dispatch(b, ev, clipboard) == (AfterClear(ClearSelection(b), Paste(ClearSelection(b).buffer, clipboard)), clipboard);
        r := PasteKey(clipboard);
      } else if k == KeyC && Shortcut(ev) {
        assert Dispatch(b, ev, clipboard) == (Done(b), SelectedText(b));
        clipboardAfter := CopyClipboard();
      } else if k == KeyX && Shortcut(ev) {
        assert Dispatch(b, ev, clipboard) == (DeleteSelection(b), SelectedText(b));
        r, clipboardAfter := CutKey();
      } else if k == KeyEnter {
        assert Dispatch(b, ev, clipboard) == (AfterClear(ClearSelection(b), SplitLine(ClearSelection(b).buffer)), clipboard);
        r := EnterKey();
      } else if IsArrow(k) {
        var d := ArrowDirection(k);
        assert Dispatch(b, ev, clipboard) == (Done(if ev.shift then NavigateSelection(b, d) else Navigate(b, d)), clipboard);
        ArrowKey(d, ev.shift);
        r := Done(State());
      } else {
        // the key's Unicode value as a UTF-16 code unit
        var keyAsCode := ev.unicode;
        if !IsControl(keyAsCode) {
          assert Dispatch(b, ev, clipboard) == (AfterClear(ClearSelection(b), EditOps.InsertCharacter(ClearSelection(b).buffer, keyAsCode)), clipboard);
          r := TypeKey(keyAsCode);
        }
      }
    }
  }
}
