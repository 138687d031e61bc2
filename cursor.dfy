/** Cursor coordinates, the normalized selection derived from the cursor and the virtual
    (selection) cursor, and arrow-key movement of either of them. */
module Cursor {

  /** A (line, column) coordinate; column |line| means "after the last character". */
  datatype Pos = Pos(line: int, col: int)

  /** The four CursorSelection* fields. */
  datatype Selection = Selection(lineStart: int, positionStart: int, lineEnd: int, positionEnd: int)
  {
    function Start(): Pos { Pos(lineStart, positionStart) }
    function End(): Pos { Pos(lineEnd, positionEnd) }
  }

  datatype Direction = Right | Left | Up | Down

  /** The column a left move past column 0 asks for before it is clamped to the previous line. */
  const WrapColumn: int := 99999

  function Min(a: int, b: int): int { if a <= b then a else b }
  function Max(a: int, b: int): int { if a <= b then b else a }

  /** Godot's integer `Mathf.Clamp(value, min, max)`. */
  function Clamp(value: int, lo: int, hi: int): int {
    if value < lo then lo else if value > hi then hi else value
  }

  /** Lexicographic order on (line, column). */
  predicate LexLe(a: Pos, b: Pos) {
    a.line < b.line || (a.line == b.line && a.col <= b.col)
  }

  /** A coordinate inside the store: an existing line, a column in [0, length]. */
  predicate ValidPos(lines: seq<string>, p: Pos) {
    0 <= p.line < |lines| && 0 <= p.col <= |lines[p.line]|
  }

  /** UpdateSelectionBasedOnVirtualCursor: the selection runs from the lexicographically smaller
      of the two cursors to the larger one. */
  function Normalize(cursor: Pos, virt: Pos): (s: Selection)
    ensures LexLe(s.Start(), s.End())
    ensures {s.Start(), s.End()} == {cursor, virt}
  {
    if cursor.line < virt.line then Selection(cursor.line, cursor.col, virt.line, virt.col)
    else if cursor.line > virt.line then Selection(virt.line, virt.col, cursor.line, cursor.col)
    else Selection(cursor.line, Min(cursor.col, virt.col), cursor.line, Max(cursor.col, virt.col))
  }

  /** The two properties of Normalize pin its result down: any ordered pair of the two cursors
      is the normalized selection. */
  lemma NormalizeUnique(cursor: Pos, virt: Pos, s: Selection)
    requires LexLe(s.Start(), s.End()) && {s.Start(), s.End()} == {cursor, virt}
    ensures s == Normalize(cursor, virt)
  {
    assert s.Start() in {cursor, virt} && s.End() in {cursor, virt};
    assert cursor in {s.Start(), s.End()} && virt in {s.Start(), s.End()};
  }

  /** Where one arrow key moves a valid coordinate:
      - Right: one column on; past the end of a line to the start of the next one, and at the
        end of the last line nowhere;
      - Left: one column back; before column 0 to the end of the previous line (at most column
        WrapColumn), and at (0, 0) nowhere;
      - Up/Down: one line, clamped to the first/last line, with the column clamped to the length
        of the line reached. */
  function MoveTarget(lines: seq<string>, p: Pos, d: Direction): (q: Pos)
    requires ValidPos(lines, p)
    ensures ValidPos(lines, q)
  {
    match d
    case Right =>
      if p.col < |lines[p.line]| then Pos(p.line, p.col + 1)
      else if p.line < |lines| - 1 then Pos(p.line + 1, 0)
      else p
    case Left =>
      if p.col > 0 then Pos(p.line, p.col - 1)
      else if p.line > 0 then Pos(p.line - 1, Min(WrapColumn, |lines[p.line - 1]|))
      else p
    case Up =>
      var l := Max(p.line - 1, 0);
      Pos(l, Min(p.col, |lines[l]|))
    case Down =>
      var l := Min(p.line + 1, |lines| - 1);
      Pos(l, Min(p.col, |lines[l]|))
  }

  /** TextEditorAction_NavigateArrowKeys (and its _Selection twin, which runs the same steps on
      the virtual cursor): step the coordinate, clamp the line, clamp the column when the line
      changed, wrap across line ends, then clamp again. */
  method MovePosition(lines: seq<string>, p: Pos, d: Direction) returns (q: Pos)
    requires ValidPos(lines, p)
    ensures q == MoveTarget(lines, p, d)
  {
    var line, position := p.line, p.col;
    var lineChanged := false;
    match d {
      case Right => position := position + 1;
      case Left => position := position - 1;
      case Up => line := line - 1; lineChanged := true;
      case Down => line := line + 1; lineChanged := true;
    }
    line := Clamp(line, 0, |lines| - 1);
    if lineChanged {
      position := Clamp(position, 0, |lines[line]|);
    }
    if position < 0 {
      if line > 0 {
        line := line - 1;
        lineChanged := true;
        position := WrapColumn;
      } else {
        position := 0;
      }
    } else if position > |lines[line]| {
      if line < |lines| - 1 {
        line := line + 1;
        position := 0;
      } else {
        position := position - 1;
      }
    }
    line := Clamp(line, 0, |lines| - 1);
    if lineChanged {
      position := Clamp(position, 0, |lines[line]|);
    }
    q := Pos(line, position);
  }

  /** Left undoes Right, except at the end of the last line, where Right does not move, and after
      the end of a line longer than WrapColumn, where the wrap back stops short. */
  lemma LeftUndoesRight(lines: seq<string>, p: Pos)
    requires ValidPos(lines, p) && |lines[p.line]| <= WrapColumn
    requires !(p.line == |lines| - 1 && p.col == |lines[p.line]|)
    ensures MoveTarget(lines, MoveTarget(lines, p, Right), Left) == p
  {
  }

  /** Right undoes Left, except at (0, 0), where Left does not move, and when Left wrapped to a
      line longer than WrapColumn. */
  lemma RightUndoesLeft(lines: seq<string>, p: Pos)
    requires ValidPos(lines, p) && p != Pos(0, 0)
    requires p.line > 0 ==> |lines[p.line - 1]| <= WrapColumn
    ensures MoveTarget(lines, MoveTarget(lines, p, Left), Right) == p
  {
  }

  /** A wrap to the end of a line longer than WrapColumn lands inside it. */
  lemma LeftWrapStopsShort(lines: seq<string>, l: int)
    requires 0 < l < |lines| && |lines[l - 1]| > WrapColumn
    ensures MoveTarget(lines, Pos(l, 0), Left) == Pos(l - 1, WrapColumn)
    ensures MoveTarget(lines, MoveTarget(lines, Pos(l, 0), Left), Right) == Pos(l - 1, WrapColumn + 1)
  {
  }
}
