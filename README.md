# Godot_MobileTextEdit in Dafny

A model of the editing core of `Custom_TextEdit`, a multi-line text editor control for Godot
written in C#. The editor keeps its text as a list of line labels
(`Custom_TextEdit_RichTextLabel`), a cursor, a second "virtual" cursor that marks the other end
of the selection, and the normalized selection derived from the two. Each label shows its line
through a small syntax colorizer that wraps keywords, word regions (comments) and character
triggers (numbers, operators, strings) in `[color=#…]…[/color]` tags.

The project has eight modules:

- `LineStore` (`line_store.dfy`): the line store. `Split` is `String.Split('\n')`, `Load` is the
  line-building pass of `RefreshAllLines`, and `Serialize` is `UpdateEditorTextInternal`. The
  lemmas prove how these undo each other.
- `Cursor` (`cursor.dfy`): coordinates, the selection normalization of
  `UpdateSelectionBasedOnVirtualCursor`, and arrow-key movement. `MoveTarget` is the
  specification; `MovePosition` is the source's clamp-and-wrap steps, proved to compute it.
- `EditOps` (`edit_ops.dfy`): every editor action as a function on a `Buffer` value (lines,
  cursor, virtual cursor). `Dispatch` is the keyboard part of `_Input` as a function over key
  events. The two places where the source throws are modelled as `Failed` outcomes that carry
  the state the exception leaves behind. Lemmas state what the actions do to each other: undo by
  Backspace, cut then paste, and the dispatch rules.
- `TextEditor` (`text_edit.dfy`): the class `CustomTextEdit` with the source's fields and one
  method per action. Each method changes the fields step by step, with the source's character
  loops as loop methods. Each is proved to end in the state the matching `EditOps` function
  gives. Each also keeps the invariant `Valid()`, except `NavigateArrowKeys`: like the source, it
  moves only the cursor and leaves the selection fields for its caller to bring up to date
  (`ArrowKey`, as at Custom_TextEdit/Custom_TextEdit.cs:460-463).
- `SyntaxRules` (`syntax_rules.dfy`): the four rule tables and their builders.
- `Colorizer` (`colorizer.dfy`): the colorizer. It is a scanner with three modes (normal, inside
  a word region, inside a character region) stepping over one line. `Step`, `Run`, `Finish` and
  `Highlight` are the specification, on tokens `Txt(c) | Open(color) | Close`, and `Render` turns
  tokens into the markup string. `HighlightLine` is the source's loop over its flags, proved to
  build `Render(Highlight(rules, line))`. The lemmas prove erasure (removing the tags gives the
  line back) and balance (every tag closes, and at most two spans are open).
- `LineLabel` (`line_label.dfy`): a line label, whose markup is always the highlighted (or
  verbatim) form of its text.
- `TextView` (`text_view.dfy`): the actions seen on the editor's text, that is, the string
  `UpdateEditorTextInternal` builds from the lines. `Offset` turns a (line, column) coordinate
  into a position in that string. The lemmas state each action as an edit of the string:
  - typing, Tab and Enter insert at the cursor's offset;
  - Backspace removes the character before it;
  - deleting a selection removes the text between the offsets of its ends, and copying returns
    exactly that text;
  - each action leaves the cursor at the offset where the edit ends.

### Where the code and the usual description part ways

This model follows the code:

- **Backspace can throw.** With the cursor at column 0 of a line holding exactly one character,
  `TextEditorAction_DeleteText` takes its first branch and calls `Remove(-1, 1)`, which throws
  (`EditOps.DeleteText`, `EditOps.BackspaceAfterSplit`).
- **Deleting a multi-line selection can throw.** It throws unless the selection ends at the end
  of its last line. The start line has already been cut back to its prefix when the exception
  comes (`EditOps.DeleteSelectionAsIntended`, `EditOps.DeleteSelectionThrows`). When it does not
  throw, it gives the intended join (`EditOps.JoinedDelete`).
- **More than one colour span can be open.** A one-character region-start word directly followed
  by a trigger that opens no region nests two spans. Under the default rules this happens for
  "#(" (`Colorizer.NestedSpans`, `Colorizer.DefaultRulesNest`). The bound proved is two
  (`Colorizer.Balanced`).
- **Load then Serialize.** `Serialize(Load(s))` gives back `s` whenever `s` ends with a newline,
  however many newlines end it, and `s + "\n"` otherwise.
- **A multi-line paste does not insert at the cursor.** The first piece goes in at the cursor,
  but the rest of the cursor's line stays right after it, and the other pieces come as new lines
  below. The pasted text lands inside the text at the cursor only when the cursor is at the end
  of its line (`TextView.PasteLinesView`, `TextView.PasteAtLineEnd`).
- **Right at the end of the last line** leaves the cursor at column `|line|`.
- **Left across a line start** lands at column `min(99999, |previous line|)`.

## Model

| member | source | states |
|---|---|---|
| LineStore.Split | Custom_TextEdit/Custom_TextEdit.cs:645 | `String.Split('\n')`: at least one piece and no piece holds a newline |
| LineStore.Load | Custom_TextEdit/Custom_TextEdit.cs:229-258 | RefreshAllLines' line building yields at least one line and no line holds a newline |
| LineStore.SplitJoin | Custom_TextEdit/Custom_TextEdit.cs:229-250 | the text is the newline-terminated pieces followed by the last piece |
| LineStore.SplitOfLine | Custom_TextEdit/Custom_TextEdit.cs:645 | a text without newlines splits into itself |
| LineStore.SplitStep | Custom_TextEdit/Custom_TextEdit.cs:232-244 | one more character either starts a new piece (newline) or extends the last piece |
| LineStore.LoadOfSplit | Custom_TextEdit/Custom_TextEdit.cs:245-258 | the trailing fragment is kept only when non-empty, and an empty result becomes one empty line |
| LineStore.SplitAtNewline | Custom_TextEdit/Custom_TextEdit.cs:645 | splitting `s + "\n" + t` gives the pieces of s followed by those of t |
| LineStore.SplitSerialize | Custom_TextEdit/Custom_TextEdit.cs:323-332 | splitting serialized newline-free lines plus a tail gives the lines and then the tail |
| LineStore.LoadSerialize | Custom_TextEdit/Custom_TextEdit.cs:219-332 | loading serialized lines (at least one, newline-free) gives the same lines |
| LineStore.SerializeLoad | Custom_TextEdit/Custom_TextEdit.cs:219-332 | serializing a loaded text gives the text when it ends with a newline and the text plus a newline otherwise |
| LineStore.SerializeConcat | Custom_TextEdit/Custom_TextEdit.cs:323-332 | serializing two blocks of lines is serializing each in turn |
| LineStore.KeptStep | Custom_TextEdit/Custom_TextEdit.cs:544-554 | copying one element at a time while skipping [lo, hi) ends with the elements outside the range, in order |
| Cursor.Normalize | Custom_TextEdit/Custom_TextEdit.cs:1120-1145 | the selection start is lexicographically at most its end, and {start, end} is {cursor, virtual cursor} |
| Cursor.NormalizeUnique | Custom_TextEdit/Custom_TextEdit.cs:1120-1145 | those two properties determine the selection: any ordered pair of the two cursors is Normalize's result |
| Cursor.MoveTarget | Custom_TextEdit/Custom_TextEdit.cs:773-838 | one arrow move from a valid coordinate lands on a valid coordinate |
| Cursor.MovePosition | Custom_TextEdit/Custom_TextEdit.cs:773-838 | the step, clamp, wrap and re-clamp sequence computes MoveTarget: Right wraps to the next line's start and stops at the end of the last line, Left wraps to min(99999, previous length) and stops at (0, 0), Up/Down clamp line and column |
| Cursor.LeftUndoesRight | Custom_TextEdit/Custom_TextEdit.cs:773-838 | Left after Right returns to the start point, except at the end of the last line or after a line longer than 99999 |
| Cursor.RightUndoesLeft | Custom_TextEdit/Custom_TextEdit.cs:773-838 | Right after Left returns to the start point, except at (0, 0) or after wrapping onto a line longer than 99999 |
| Cursor.LeftWrapStopsShort | Custom_TextEdit/Custom_TextEdit.cs:803-810 | wrapping onto a line longer than 99999 lands at column 99999, and Right then goes to 100000 |
| SyntaxRules.AddKeywordColor | Custom_TextEdit/Custom_TextEdit.cs:181-191 | the keyword maps to the colour, every other entry is kept and nothing is added, the other tables are unchanged |
| SyntaxRules.AddKeywordRegionColor | Custom_TextEdit/Custom_TextEdit.cs:192-202 | the word maps to its end word (newline by default) and colour, other entries kept, other tables unchanged |
| SyntaxRules.AddKeywordCharRegionColor | Custom_TextEdit/Custom_TextEdit.cs:203-213 | the character maps to its rule with the given defaults, other entries kept, other tables unchanged |
| SyntaxRules.AddKeywordEndSymbol | Custom_TextEdit/Custom_TextEdit.cs:214-217 | the symbol joins the word-end set, the other tables are unchanged |
| Colorizer.ProcessWordSpec | Custom_TextEdit/Custom_TextEdit_RichTextLabel.cs:277-304 | a flushed word keeps its characters; region-start words (checked first) open an unclosed span and enter the region, keywords are wrapped and closed, other words and every word inside a region are verbatim |
| Colorizer.ProcessCharSpec | Custom_TextEdit/Custom_TextEdit_RichTextLabel.cs:305-337 | a trigger fires exactly when it is in the table and is not a word-start trigger inside a word; a region trigger opens a span and enters the character region, a plain trigger is wrapped and closed, anything else is uncoloured |
| Colorizer.StepBreak | Custom_TextEdit/Custom_TextEdit_RichTextLabel.cs:192-212 | a break that does not fire emits the flushed word and then the break uncoloured, and keeps the scanner invariant |
| Colorizer.WordRegionExit | Custom_TextEdit/Custom_TextEdit_RichTextLabel.cs:220-244 | a word region ends exactly when a word equal to its end word is followed by a break, emitting the word, the close tag and the break |
| Colorizer.CharRegionExit | Custom_TextEdit/Custom_TextEdit_RichTextLabel.cs:245-258 | a character region closes right after its end character and the scanner is back in its initial state; any other character is emitted and the state stays |
| Colorizer.StepInvariant | Custom_TextEdit/Custom_TextEdit_RichTextLabel.cs:164-259 | every step emits the character once (after the pending word), keeps at most two spans open and tracks the open spans in the mode |
| Colorizer.RunInvariant | Custom_TextEdit/Custom_TextEdit_RichTextLabel.cs:164-259 | after every prefix the plain output followed by the pending word is the prefix, and the output is balanced up to the spans the mode holds |
| Colorizer.FinishInvariant | Custom_TextEdit/Custom_TextEdit_RichTextLabel.cs:260-273 | the end of the line emits the pending word and closes every open span, unterminated regions included |
| Colorizer.Erasure | Custom_TextEdit/Custom_TextEdit_RichTextLabel.cs:164-273 | erasing the tags of the output gives the line exactly |
| Colorizer.Balanced | Custom_TextEdit/Custom_TextEdit_RichTextLabel.cs:260-273 | every span opened is closed by the end, no prefix closes more than it opened, and at most two spans are open at any point |
| Colorizer.NestedSpans | Custom_TextEdit/Custom_TextEdit_RichTextLabel.cs:171-189 | a one-character region word followed by a non-region trigger has two spans open at once |
| Colorizer.DefaultRulesNest | Custom_TextEdit/Custom_TextEdit.cs:82-180 | under the default rules "#(" produces two nested spans |
| Colorizer.ScanChar | Custom_TextEdit/Custom_TextEdit_RichTextLabel.cs:164-259 | one pass of the loop on the source's flags is exactly one scanner step, and the two region flags are never both set |
| Colorizer.FinishLine | Custom_TextEdit/Custom_TextEdit_RichTextLabel.cs:260-273 | the end-of-line sequence on the flags emits Finish of the scanner state |
| Colorizer.HighlightLine | Custom_TextEdit/Custom_TextEdit_RichTextLabel.cs:156-276 | the markup built is the rendering of Highlight(rules, line), a function of the line and the tables only |
| Colorizer.RenderConcat | Custom_TextEdit/Custom_TextEdit_RichTextLabel.cs:164-273 | appending tokens appends their markup, which is how the loop builds `bbcode` piece by piece |
| Colorizer.RenderTxts | Custom_TextEdit/Custom_TextEdit_RichTextLabel.cs:299-303 | uncoloured text renders as itself |
| Colorizer.RenderSpan | Custom_TextEdit/Custom_TextEdit_RichTextLabel.cs:294-298 | a coloured word renders as `[color=#html]word[/color]` |
| Colorizer.SampleTokens | Custom_TextEdit/Custom_TextEdit_RichTextLabel.cs:156-276 | with keyword "if", a non-region trigger '=' and breaks ' ' and '=', "if x=1" gives `Open(a) i f Close ' ' x Open(b) = Close 1` |
| LineLabel.Label.UpdateLineText | Custom_TextEdit/Custom_TextEdit_RichTextLabel.cs:138-155 | the label's markup is the highlighted text, or the text itself with highlighting off |
| LineLabel.Label.SetLineText | Custom_TextEdit/Custom_TextEdit_RichTextLabel.cs:56-68 | the label holds the new text and its markup |
| EditOps.Sel | Custom_TextEdit/Custom_TextEdit.cs:1120-1145 | both ends of the selection are valid coordinates in order, and they coincide exactly when nothing is selected |
| EditOps.InsertCharacter | Custom_TextEdit/Custom_TextEdit.cs:905-933 | a control character changes nothing; otherwise the state stays well formed and the selection collapses |
| EditOps.DeleteText | Custom_TextEdit/Custom_TextEdit.cs:488-533 | Backspace throws exactly at column 0 of a one-character line, leaving the state as it was; otherwise the state stays well formed and the selection collapses |
| EditOps.DeleteSelectionAsIntended | Custom_TextEdit/Custom_TextEdit.cs:534-608 | deleting the selection throws exactly when it spans lines and ends before its last line's end; otherwise it joins the start prefix to the end suffix and drops the lines between |
| EditOps.DeleteSelectionThrows | Custom_TextEdit/Custom_TextEdit.cs:559-576 | "ab"/"cd" selected from (0, 1) to (1, 1) throws with the first line already cut to "a" |
| EditOps.DeleteEmptySelection | Custom_TextEdit/Custom_TextEdit.cs:539-556 | with nothing selected, deleting the selection changes nothing |
| EditOps.CutAcrossLines | Custom_TextEdit/Custom_TextEdit.cs:557-597 | a multi-line delete that does not throw keeps the start prefix, drops the lines after it through the end line and puts the cursor at the start |
| EditOps.SplitLine | Custom_TextEdit/Custom_TextEdit.cs:742-772 | Enter adds exactly one line, keeps the state well formed and collapses the selection |
| EditOps.ReplaceCarriageReturns | Custom_TextEdit/Custom_TextEdit.cs:643 | every carriage return becomes a space and nothing else changes |
| EditOps.PasteLines | Custom_TextEdit/Custom_TextEdit.cs:640-665 | a clipboard with newlines: the first piece goes in at the cursor with the old suffix after it, the other pieces become new lines below, the cursor ends after the last piece |
| EditOps.SelectedText | Custom_TextEdit/Custom_TextEdit.cs:687-741 | the copied text holds a newline exactly when the selection spans lines, and is empty when nothing is selected |
| EditOps.CopyAcrossLines | Custom_TextEdit/Custom_TextEdit.cs:708-736 | a multi-line copy reaching its last line's end splits back into the start tail, the middle lines and the end line |
| EditOps.CutThenPaste | Custom_TextEdit/Custom_TextEdit.cs:534-741 | pasting a cut selection where the cut left the cursor gives the old lines back, cursor at the far end of the old selection |
| EditOps.BackspaceUndoesInsert | Custom_TextEdit/Custom_TextEdit.cs:488-533 | Backspace after typing a printable character gives the lines and the cursor back |
| EditOps.BackspaceAfterSplit | Custom_TextEdit/Custom_TextEdit.cs:488-533 | Backspace after Enter joins the two halves again, except that it throws when one character followed the cursor |
| EditOps.Navigate | Custom_TextEdit/Custom_TextEdit.cs:451-466 | a plain arrow keeps the lines and collapses the selection |
| EditOps.NavigateSelection | Custom_TextEdit/Custom_TextEdit.cs:839-904 | a Shift arrow keeps the lines and the cursor; only the virtual cursor moves |
| EditOps.Reload | Custom_TextEdit/Custom_TextEdit.cs:219-277 | loading gives Load's lines, a cursor clamped into them and a collapsed selection |
| EditOps.ReloadSerialized | Custom_TextEdit/Custom_TextEdit.cs:219-332 | reloading the serialized text at the same cursor gives the same state |
| EditOps.ClearSelection | Custom_TextEdit/Custom_TextEdit.cs:423-426 | with nothing selected the "delete the selection first" step does nothing |
| EditOps.Dispatch | Custom_TextEdit/Custom_TextEdit.cs:397-487 | every key event leaves a well-formed state |
| EditOps.NonEditingKeys | Custom_TextEdit/Custom_TextEdit.cs:397-487 | releases, arrows, copy and control characters leave the lines alone; Shift arrows keep the cursor and plain arrows collapse the selection |
| EditOps.TypingReplacesSelection | Custom_TextEdit/Custom_TextEdit.cs:467-481 | typing over a deletable selection replaces it by the character |
| EditOps.TypeThenBackspace | Custom_TextEdit/Custom_TextEdit.cs:403-481 | typing a character and then Backspace or Delete gives the state back |
| EditOps.CutKeyThenPasteKey | Custom_TextEdit/Custom_TextEdit.cs:420-439 | Ctrl+X then Ctrl+V gives the lines back with the cut text on the clipboard |
| TextEditor.LinesOf | Custom_TextEdit/Custom_TextEdit.cs:229-258 | the character loop builds exactly Load of the text |
| TextEditor.CopyInside | Custom_TextEdit/Custom_TextEdit.cs:696-706 | the loop copies exactly the characters in [start, end) |
| TextEditor.CopySuffix | Custom_TextEdit/Custom_TextEdit.cs:713-716 | the loop copies exactly the characters from the start column on |
| TextEditor.JoinBetween | Custom_TextEdit/Custom_TextEdit.cs:720-727 | the loop copies exactly the lines strictly between start and end, each followed by a newline |
| TextEditor.CopyPrefix | Custom_TextEdit/Custom_TextEdit.cs:732-735 | the loop copies exactly the characters before the end column |
| TextEditor.CopyOutside | Custom_TextEdit/Custom_TextEdit.cs:544-554 | the loop keeps exactly the characters outside [start, end), in order |
| TextEditor.InsertInto | Custom_TextEdit/Custom_TextEdit.cs:647-654 | `Insert` before the end and `+=` at the end both put the text at the column |
| TextEditor.InsertAll | Custom_TextEdit/Custom_TextEdit.cs:657-660 | one `InsertLine` per piece puts the pieces, in order, at the index |
| TextEditor.PastedLines | Custom_TextEdit/Custom_TextEdit.cs:633-686 | the paste's line edits and cursor move give Paste's state |
| TextEditor.PastedLineBreaks | Custom_TextEdit/Custom_TextEdit.cs:640-665 | the multi-line paste's edits give Paste's state |
| TextEditor.CustomTextEdit.constructor | Custom_TextEdit/Custom_TextEdit.cs:34-80 | the field initializers and _Ready: the default tables when asked for, the text loaded, the invariant established |
| TextEditor.CustomTextEdit.ApplyDefaultSyntaxColoring | Custom_TextEdit/Custom_TextEdit.cs:82-180 | the tables get the default entries; nothing else changes |
| TextEditor.CustomTextEdit.AddKeywordColorEntry | Custom_TextEdit/Custom_TextEdit.cs:181-191 | the keyword table is updated as AddKeywordColor says; nothing else changes |
| TextEditor.CustomTextEdit.AddKeywordRegionColorEntry | Custom_TextEdit/Custom_TextEdit.cs:192-202 | the region table is updated; nothing else changes |
| TextEditor.CustomTextEdit.AddKeywordCharRegionColorEntry | Custom_TextEdit/Custom_TextEdit.cs:203-213 | the trigger table is updated; nothing else changes |
| TextEditor.CustomTextEdit.AddKeywordEndSymbolEntry | Custom_TextEdit/Custom_TextEdit.cs:214-217 | the word-end set gains the symbol; nothing else changes |
| TextEditor.CustomTextEdit.UpdateSelectionBasedOnVirtualCursor | Custom_TextEdit/Custom_TextEdit.cs:1120-1145 | the selection fields become the normalized pair of cursors; nothing else changes |
| TextEditor.CustomTextEdit.RefreshAllLines | Custom_TextEdit/Custom_TextEdit.cs:219-277 | the new state is Reload of the text and the old cursor, and the invariant holds |
| TextEditor.CustomTextEdit.UpdateEditorTextInternal | Custom_TextEdit/Custom_TextEdit.cs:323-332 | the text becomes every line followed by a newline; nothing else changes |
| TextEditor.CustomTextEdit.DeleteText | Custom_TextEdit/Custom_TextEdit.cs:488-533 | the new state and the outcome are DeleteText's, and the invariant holds |
| TextEditor.CustomTextEdit.DeleteTextSelection | Custom_TextEdit/Custom_TextEdit.cs:534-608 | the new state and the outcome are DeleteSelection's, the partial edit included when it throws |
| TextEditor.CustomTextEdit.AddTab | Custom_TextEdit/Custom_TextEdit.cs:610-632 | the new state is AddTab's (a tab at the cursor, no control check) |
| TextEditor.CustomTextEdit.InsertCharacter | Custom_TextEdit/Custom_TextEdit.cs:905-933 | the new state is InsertCharacter's |
| TextEditor.CustomTextEdit.PasteClipboard | Custom_TextEdit/Custom_TextEdit.cs:633-686 | the new state is Paste's for the clipboard passed in |
| TextEditor.CustomTextEdit.CopyClipboard | Custom_TextEdit/Custom_TextEdit.cs:687-741 | the text returned is SelectedText of the state, which is left as it is |
| TextEditor.CustomTextEdit.AddNewLine | Custom_TextEdit/Custom_TextEdit.cs:742-772 | the new state is SplitLine's |
| TextEditor.CustomTextEdit.NavigateArrowKeys | Custom_TextEdit/Custom_TextEdit.cs:773-838 | only the cursor moves, to MoveTarget; the virtual cursor and the selection fields stay |
| TextEditor.CustomTextEdit.NavigateArrowKeysSelection | Custom_TextEdit/Custom_TextEdit.cs:839-904 | only the virtual cursor moves, and the selection follows it |
| TextEditor.CustomTextEdit.ClearSelectionFirst | Custom_TextEdit/Custom_TextEdit.cs:423-426 | a selection, when there is one, is deleted |
| TextEditor.CustomTextEdit.PasteKey | Custom_TextEdit/Custom_TextEdit.cs:420-428 | delete the selection, then paste unless the delete threw |
| TextEditor.CustomTextEdit.CutKey | Custom_TextEdit/Custom_TextEdit.cs:435-439 | the selection is copied and then deleted |
| TextEditor.CustomTextEdit.EnterKey | Custom_TextEdit/Custom_TextEdit.cs:441-449 | delete the selection, then split the line unless the delete threw |
| TextEditor.CustomTextEdit.ArrowKey | Custom_TextEdit/Custom_TextEdit.cs:451-466 | Shift moves the virtual cursor; otherwise the cursor moves and the selection collapses |
| TextEditor.CustomTextEdit.TypeKey | Custom_TextEdit/Custom_TextEdit.cs:467-481 | delete the selection, then insert the character unless the delete threw |
| TextEditor.CustomTextEdit.Input | Custom_TextEdit/Custom_TextEdit.cs:397-487 | the new state, the outcome and the clipboard are those of Dispatch, and the invariant holds |
| TextView.Offset | Custom_TextEdit/Custom_TextEdit.cs:323-332 | a valid coordinate has an offset inside the editor text (below its length) |
| TextView.SerializeAround | Custom_TextEdit/Custom_TextEdit.cs:323-332 | the editor text is the lines before line l, line l and its newline, then the lines after it |
| TextView.InsertTextView | Custom_TextEdit/Custom_TextEdit.cs:905-933 | newline-free text put in at the cursor is inserted in the editor text at the cursor's offset, and the cursor ends just past it |
| TextView.InsertCharacterView | Custom_TextEdit/Custom_TextEdit.cs:905-933 | a printable character typed is inserted in the editor text at the cursor's offset, and the cursor moves one past it; the selection collapses |
| TextView.AddTabView | Custom_TextEdit/Custom_TextEdit.cs:610-632 | Tab inserts a tab in the editor text at the cursor's offset, and the cursor moves one past it; the selection collapses |
| TextView.SplitLineView | Custom_TextEdit/Custom_TextEdit.cs:742-772 | Enter inserts a newline in the editor text at the cursor's offset, and the cursor moves one past it; the selection collapses |
| TextView.BackspaceView | Custom_TextEdit/Custom_TextEdit.cs:488-533 | a Backspace that does not throw removes the one character before the cursor's offset (a newline at a line start) and moves the cursor back one; at offset 0 the lines and the cursor stay; the selection collapses either way |
| TextView.DeleteSelectionView | Custom_TextEdit/Custom_TextEdit.cs:534-608 | a selection delete that does not throw removes exactly the text between the offsets of the selection's ends, and the cursor goes to the first, with the selection collapsed |
| TextView.DeleteOnLine | Custom_TextEdit/Custom_TextEdit.cs:539-556 | the same, for a selection within one line |
| TextView.DeleteAcross | Custom_TextEdit/Custom_TextEdit.cs:557-597 | the same, for a selection across lines |
| TextView.SelectedTextView | Custom_TextEdit/Custom_TextEdit.cs:687-741 | the copied text is exactly the editor text between the offsets of the selection's ends |
| TextView.PasteView | Custom_TextEdit/Custom_TextEdit.cs:666-684 | a clipboard without a newline is inserted in the editor text at the cursor's offset, carriage returns included, and the cursor ends past it |
| TextView.PasteLinesView | Custom_TextEdit/Custom_TextEdit.cs:640-659 | with a newline in the clipboard, the text around the cursor's line becomes: the line up to the cursor, the first piece, the rest of the line and its newline, then the other pieces with a newline each |
| TextView.PasteCursorView | Custom_TextEdit/Custom_TextEdit.cs:661-662 | after a multi-line paste the cursor's offset is the end of the last piece, just before its newline |
| TextView.PasteAtLineEnd | Custom_TextEdit/Custom_TextEdit.cs:640-665 | at the end of a line, a clipboard with newlines and no carriage return is inserted in the editor text at the cursor's offset, and the cursor ends just past it |

## Left out

- The Godot node lifecycle is not modelled: label instancing, `AddChild`/`MoveChild`,
  `QueueFree`, `SetLineNumber`/`UpdateLineNumbers`, `UpdateSelectedTextLabel`, `Update()`
  repaints, focus and visibility. The lines are a plain sequence of strings, and keyboard input
  is taken to reach a visible editor that has the focus.
- The mouse and touch branches of `_Input` are left out, with `SetCursorToPosition`,
  `GetCharacterAtPosition`, `GetWordWrapSize`, `GetWordWrapEndPos`, `_Draw` and the `RectMinSize`
  sizing. These are floating-point pixel geometry over font metrics.
- `OS.Clipboard` is a parameter and a result. `GetTree().SetInputAsHandled()` is not modelled.
- Colours are opaque: `Color` holds only the hex string the source passes to the `Color`
  constructor (the default colours hold "ffeea6" and the like). Godot's `Color.ToHtml()` puts the
  alpha in front by default ("ffffeea6"). The model leaves that prefix out, so the
  `[color=#…]` tags it renders are not byte for byte the ones the source writes.
- The reflection loop of `AddDefaultSyntaxColoring` is left out; it reads keywords from the
  Godot class names, a foreign assembly. `SyntaxRules.AddDefaultSyntaxColoring` is the net effect
  of the remaining builder calls.
- `RichLabel.Text`, which AddTab, PasteClipboard, AddNewLine, NavigateArrowKeys and
  InsertCharacter read, is taken to be the line's `LineText`. That holds only for lines that
  contain no BBCode tag text. `RichLabel.Text` is what Godot's BBCode parser makes of the markup,
  and the parser also takes as tags any tag text the user typed. The colorizer copies such text
  verbatim inside word regions and character regions, and on every line when highlighting is
  off. An example is the comment line `# [b]`: its markup is `[color=#777c85]# [b][/color]`, and
  the parser reads `[b]` as a tag. On such a line the source rebuilds the line from the parsed
  text at the next Tab, paste, Enter or typed character, and compares the cursor with that
  text's length. The model keeps the line as typed and edits it. `Colorizer.Erasure` proves less
  than read-back: only that the plain text of the colorizer's tokens is the line.
- The editor class keeps each line's text only. Each line's markup is modelled separately by
  `LineLabel.Label`, which is not linked into `TextEditor.CustomTextEdit`.
- `Char.IsControl` is written out for UTF-16 code units (U+0000..U+001F and U+007F..U+009F).
  The `(char)keyPress.Unicode` cast is left out: the event carries the `char` directly.
- Strings are sequences of UTF-16 code units, with no surrogate or normalization handling.
- The sample line "if x=1" is proved at the token level (`Colorizer.SampleTokens`), and
  `Colorizer.RenderSpan` gives the markup of a coloured word. The whole sample line is not
  rendered to one string in a lemma.
- The `else` branch of RefreshAllLines' cursor clamp (line count 0) cannot be reached, because
  the line-building pass always leaves at least one line. It has no counterpart in
  `TextEditor.CustomTextEdit.RefreshAllLines`.
- EditOps.InsertCharacter, EditOps.AddTab and EditOps.SplitLine: their own contracts state
  well-formedness, the collapsed selection, and the control-character case or the line count.
  The edit itself is stated on the editor text by `TextView.InsertCharacterView`, `TextView.AddTabView` and
  `TextView.SplitLineView`. `EditOps.BackspaceUndoesInsert` and `EditOps.BackspaceAfterSplit`
  tie it to Backspace.
- TextView.PasteLinesView: the new text is stated around the cursor's line, not as offsets into
  the whole old text. `TextView.PasteAtLineEnd` gives the offset form for a cursor at the end of
  its line.
