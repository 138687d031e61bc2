/** The editor seen as one text: the serialized lines (what UpdateEditorTextInternal writes), with
    a coordinate as an offset into it. Every editing action is then an edit of that text at the
    cursor's offset. */
module TextView {
  import opened LineStore
  import opened Cursor
  import opened EditOps

  /** The offset of a coordinate in the serialized text: the lines above it, each with its newline,
      then the column. It always falls on a character of the text (at worst the line's newline). */
  function Offset(lines: seq<string>, p: Pos): (o: int)
    requires ValidPos(lines, p)
    ensures 0 <= o < |Serialize(lines)|
  {
    SerializeAround(lines, p.line);
    |Serialize(lines[..p.line])| + p.col
  }

  // ---------------------------------------------------------------------------
  // Serialized text around a line

  /** The text of the lines before l, then of the lines from l on. */
  lemma SerializeFrom(lines: seq<string>, l: int)
    requires 0 <= l <= |lines|
    ensures Serialize(lines) == Serialize(lines[..l]) + Serialize(lines[l..])
  {
    var before, here := lines[..l], lines[l..];
    assert before + here == lines;
    SerializeConcat(before, here);
  }

  /** The lines from l on are line l, its newline and the lines after it. */
  lemma SerializeAt(lines: seq<string>, l: int)
    requires 0 <= l < |lines|
    ensures Serialize(lines[l..]) == lines[l] + "\n" + Serialize(lines[l + 1..])
  {
    var here, after := lines[l..], lines[l + 1..];
    assert [lines[l]] + after == here;
    SerializeCons(lines[l], after);
  }

  /** The text is the lines above, the line and its newline, and the lines below. */
  lemma SerializeAround(lines: seq<string>, l: int)
    requires 0 <= l < |lines|
    ensures Serialize(lines) == Serialize(lines[..l]) + lines[l] + "\n" + Serialize(lines[l + 1..])
  {
    SerializeFrom(lines, l);
    SerializeAt(lines, l);
  }

  /** The text up to and including line l. */
  lemma SerializeUpTo(lines: seq<string>, l: int)
    requires 0 <= l < |lines|
    ensures Serialize(lines[..l + 1]) == Serialize(lines[..l]) + lines[l] + "\n"
  {
    var upTo := lines[..l + 1];
    assert upTo[..l] == lines[..l] && upTo[l] == lines[l];
  }

  /** Replacing line l, in the text. */
  lemma SerializeUpdate(lines: seq<string>, l: int, x: string)
    requires 0 <= l < |lines|
    ensures lines[l := x][..l] == lines[..l]
    ensures Serialize(lines[l := x]) == Serialize(lines[..l]) + x + "\n" + Serialize(lines[l + 1..])
  {
    var u := lines[l := x];
    assert u[..l] == lines[..l] && u[l + 1..] == lines[l + 1..];
    SerializeAround(u, l);
  }

  /** Serializing a splice is serializing its three parts. */
  lemma SerializeSplice(a: seq<string>, mid: seq<string>, c: seq<string>)
    ensures Serialize(a + mid + c) == Serialize(a) + Serialize(mid) + Serialize(c)
  {
    SerializeConcat(a + mid, c);
    SerializeConcat(a, mid);
  }

  /** The text around two lines i < j. */
  lemma SerializeAroundTwo(lines: seq<string>, i: int, j: int)
    requires 0 <= i < j < |lines|
    ensures Serialize(lines) ==
      Serialize(lines[..i]) + lines[i] + "\n" + Serialize(lines[i + 1..j]) + lines[j] + "\n" + Serialize(lines[j + 1..])
  {
    var upTo := lines[..j];
    SerializeAround(lines, j);
    SerializeAround(upTo, i);
    assert upTo[..i] == lines[..i] && upTo[i] == lines[i] && upTo[i + 1..] == lines[i + 1..j];
  }

  // ---------------------------------------------------------------------------
  // Shapes of text: s == pre + line + "\n" + post, cut at an offset inside line

  lemma Cut(p: string, m: string, r: string, c: int)
    requires 0 <= c <= |m|
    ensures (p + m + r)[..|p| + c] == p + m[..c]
    ensures (p + m + r)[|p| + c..] == m[c..] + r
  {
    var s := p + m + r;
    assert s[..|p| + c] == p + m[..c] by {
      forall k | 0 <= k < |p| + c ensures s[k] == (p + m[..c])[k] {
        if k < |p| { assert s[k] == p[k]; } else { assert s[k] == m[k - |p|]; }
      }
    }
    assert s[|p| + c..] == m[c..] + r by {
      forall k | 0 <= k < |s| - |p| - c ensures s[|p| + c + k] == (m[c..] + r)[k] {
        if c + k < |m| { assert s[|p| + c + k] == m[c + k]; } else { assert s[|p| + c + k] == r[c + k - |m|]; }
      }
    }
  }

  /** A concatenation cut where its halves meet. */
  lemma Take(a: string, b: string)
    ensures (a + b)[..|a|] == a && (a + b)[|a|..] == b
  {
  }

  /** The text on both sides of offset o = |pre| + c. */
  lemma Sides(s: string, o: int, pre: string, line: string, post: string, c: int)
    requires s == pre + line + "\n" + post && o == |pre| + c && 0 <= c <= |line|
    ensures s[..o] == pre + line[..c] && s[o..] == line[c..] + ("\n" + post)
  {
    assert s == pre + line + ("\n" + post);
    Cut(pre, line, "\n" + post, c);
  }

  /** Text put into the line at column c is text put into the whole at offset o. */
  lemma InsertShape(s: string, o: int, pre: string, line: string, post: string, c: int, t: string)
    requires s == pre + line + "\n" + post && o == |pre| + c && 0 <= c <= |line|
    ensures pre + (line[..c] + t + line[c..]) + "\n" + post == s[..o] + t + s[o..]
  {
    Sides(s, o, pre, line, post, c);
  }

  /** The character before column c removed from the line is the character before offset o
      removed from the whole. */
  lemma RemoveShape(s: string, o: int, pre: string, line: string, post: string, c: int)
    requires s == pre + line + "\n" + post && o == |pre| + c && 0 < c <= |line|
    ensures pre + (line[..c - 1] + line[c..]) + "\n" + post == s[..o - 1] + s[o..]
  {
    Sides(s, o - 1, pre, line, post, c - 1);
    Sides(s, o, pre, line, post, c);
  }

  /** Two lines joined is the newline between them removed. */
  lemma JoinShape(s: string, o: int, up: string, prev: string, line: string, post: string)
    requires s == up + prev + "\n" + line + "\n" + post && o == |up| + |prev| + 1
    ensures up + (prev + line) + "\n" + post == s[..o - 1] + s[o..]
  {
    var a, b := up + prev, line + "\n" + post;
    assert s == a + ("\n" + b);
    Take(a, "\n" + b);
    assert s == (a + "\n") + b;
    Take(a + "\n", b);
    assert up + (prev + line) + "\n" + post == a + b;
  }

  /** The columns [ps, pe) of the line are the offsets [o1, o2) of the whole. */
  lemma RangeShape(s: string, o1: int, o2: int, pre: string, line: string, post: string, ps: int, pe: int)
    requires s == pre + line + "\n" + post && o1 == |pre| + ps && o2 == |pre| + pe && 0 <= ps <= pe <= |line|
    ensures pre + (line[..ps] + line[pe..]) + "\n" + post == s[..o1] + s[o2..]
    ensures o1 <= o2 <= |s| && s[o1..o2] == line[ps..pe]
  {
    Sides(s, o1, pre, line, post, ps);
    Sides(s, o2, pre, line, post, pe);
    assert s[o1..o2] == s[o1..][..pe - ps];
    assert line[ps..][..pe - ps] == line[ps..pe];
  }

  /** A range from column ps of one line to column pe of a later one, in the whole text. */
  lemma AcrossShape(s: string, o1: int, o2: int, pre: string, start: string, mid: string, end: string, post: string,
                    ps: int, pe: int)
    requires s == pre + start + "\n" + mid + end + "\n" + post
    requires o1 == |pre| + ps && o2 == |pre| + |start| + 1 + |mid| + pe
    requires 0 <= ps <= |start| && 0 <= pe <= |end|
    ensures o1 < o2 <= |s| && s[o1..o2] == start[ps..] + "\n" + mid + end[..pe]
    ensures pe == |end| ==> s[..o1] + s[o2..] == pre + start[..ps] + "\n" + post
  {
    var upTo := pre + start + "\n" + mid;
    assert s == upTo + end + ("\n" + post);
    Cut(upTo, end, "\n" + post, pe);
    assert s[..o2] == upTo + end[..pe];
    assert upTo + end[..pe] == pre + start + ("\n" + mid + end[..pe]);
    Cut(pre, start, "\n" + mid + end[..pe], ps);
    assert s[o1..o2] == s[..o2][o1..];
    assert s == pre + start + ("\n" + mid + end + "\n" + post);
    Cut(pre, start, "\n" + mid + end + "\n" + post, ps);
  }

  // ---------------------------------------------------------------------------
  // Edits of the lines as edits of the text

  /** Text put into line l at column c: the text gets it at the offset of (l, c). */
  lemma InsertLines(lines: seq<string>, l: int, c: int, t: string)
    requires 0 <= l < |lines| && 0 <= c <= |lines[l]|
    ensures var lines' := lines[l := lines[l][..c] + t + lines[l][c..]];
      var s, o := Serialize(lines), Offset(lines, Pos(l, c));
      Serialize(lines') == s[..o] + t + s[o..] && Offset(lines', Pos(l, c + |t|)) == o + |t|
  {
    var line := lines[l];
    SerializeAround(lines, l);
    SerializeUpdate(lines, l, line[..c] + t + line[c..]);
    InsertShape(Serialize(lines), Offset(lines, Pos(l, c)), Serialize(lines[..l]), line, Serialize(lines[l + 1..]), c, t);
  }

  /** The character before column c > 0 removed from line l: the text loses the character before
      the offset of (l, c). */
  lemma RemoveLines(lines: seq<string>, l: int, c: int)
    requires 0 <= l < |lines| && 0 < c <= |lines[l]|
    ensures var lines' := lines[l := lines[l][..c - 1] + lines[l][c..]];
      var s, o := Serialize(lines), Offset(lines, Pos(l, c));
      o > 0 && Serialize(lines') == s[..o - 1] + s[o..] && Offset(lines', Pos(l, c - 1)) == o - 1
  {
    var line := lines[l];
    SerializeAround(lines, l);
    SerializeUpdate(lines, l, line[..c - 1] + line[c..]);
    RemoveShape(Serialize(lines), Offset(lines, Pos(l, c)), Serialize(lines[..l]), line, Serialize(lines[l + 1..]), c);
  }

  /** Line l > 0 joined onto the line above: the text loses the newline before the offset of
      (l, 0). */
  lemma JoinLines(lines: seq<string>, l: int)
    requires 0 < l < |lines|
    ensures var lines' := lines[..l - 1] + [lines[l - 1] + lines[l]] + lines[l + 1..];
      var s, o := Serialize(lines), Offset(lines, Pos(l, 0));
      o > 0 && Serialize(lines') == s[..o - 1] + s[o..] && Offset(lines', Pos(l - 1, |lines[l - 1]|)) == o - 1
  {
    JoinText(lines, l);
    JoinShape(Serialize(lines), Offset(lines, Pos(l, 0)), Serialize(lines[..l - 1]), lines[l - 1], lines[l], Serialize(lines[l + 1..]));
  }

  /** The text of line l joined onto line l - 1. */
  lemma JoinText(lines: seq<string>, l: int)
    requires 0 < l < |lines|
    ensures var lines' := lines[..l - 1] + [lines[l - 1] + lines[l]] + lines[l + 1..];
      var up, post := Serialize(lines[..l - 1]), Serialize(lines[l + 1..]);
      Serialize(lines) == up + lines[l - 1] + "\n" + lines[l] + "\n" + post &&
      |Serialize(lines[..l])| == |up| + |lines[l - 1]| + 1 &&
      Serialize(lines') == up + (lines[l - 1] + lines[l]) + "\n" + post &&
      lines'[..l - 1] == lines[..l - 1]
  {
    JoinedBefore(lines, l);
    JoinedAfter(lines, l);
  }

  /** The text of lines l - 1 and l before they are joined. */
  lemma JoinedBefore(lines: seq<string>, l: int)
    requires 0 < l < |lines|
    ensures var up, post := Serialize(lines[..l - 1]), Serialize(lines[l + 1..]);
      Serialize(lines) == up + lines[l - 1] + "\n" + lines[l] + "\n" + post &&
      |Serialize(lines[..l])| == |up| + |lines[l - 1]| + 1
  {
    SerializeAroundTwo(lines, l - 1, l);
    assert lines[l..l] == [];
    SerializeUpTo(lines, l - 1);
  }

  /** The text once line l is joined onto line l - 1. */
  lemma JoinedAfter(lines: seq<string>, l: int)
    requires 0 < l < |lines|
    ensures var lines' := lines[..l - 1] + [lines[l - 1] + lines[l]] + lines[l + 1..];
      Serialize(lines') == Serialize(lines[..l - 1]) + (lines[l - 1] + lines[l]) + "\n" + Serialize(lines[l + 1..]) &&
      lines'[..l - 1] == lines[..l - 1]
  {
    var lines' := lines[..l - 1] + [lines[l - 1] + lines[l]] + lines[l + 1..];
    assert lines'[..l - 1] == lines[..l - 1] && lines'[l - 1] == lines[l - 1] + lines[l] && lines'[l..] == lines[l + 1..];
    SerializeAround(lines', l - 1);
  }

  /** Line l cut in two at column c: the text gets a newline at the offset of (l, c). */
  lemma SplitLines(lines: seq<string>, l: int, c: int)
    requires 0 <= l < |lines| && 0 <= c <= |lines[l]|
    ensures var lines' := lines[..l] + [lines[l][..c], lines[l][c..]] + lines[l + 1..];
      var s, o := Serialize(lines), Offset(lines, Pos(l, c));
      Serialize(lines') == s[..o] + "\n" + s[o..] && Offset(lines', Pos(l + 1, 0)) == o + 1
  {
    var line := lines[l];
    SerializeAround(lines, l);
    SplitText(lines, l, line[..c], line[c..]);
    InsertShape(Serialize(lines), Offset(lines, Pos(l, c)), Serialize(lines[..l]), line, Serialize(lines[l + 1..]), c, "\n");
  }

  /** The text of a line replaced by two. */
  lemma SplitText(lines: seq<string>, l: int, x: string, y: string)
    requires 0 <= l < |lines|
    ensures var lines' := lines[..l] + [x, y] + lines[l + 1..];
      var pre, post := Serialize(lines[..l]), Serialize(lines[l + 1..]);
      Serialize(lines') == pre + (x + "\n" + y) + "\n" + post &&
      |Serialize(lines'[..l + 1])| == |pre| + |x| + 1
  {
    var lines' := lines[..l] + [x, y] + lines[l + 1..];
    SerializeSplice(lines[..l], [x, y], lines[l + 1..]);
    assert [x] + [y] == [x, y];
    SerializeCons(x, [y]);
    SerializeCons(y, []);
    assert [y] + [] == [y];
    SerializeUpTo(lines', l);
    assert lines'[..l] == lines[..l] && lines'[l] == x;
  }

  /** Columns [ps, pe) of line l: they are the text between the offsets of (l, ps) and (l, pe),
      and cutting them out of the line cuts that text out. */
  lemma RangeLines(lines: seq<string>, l: int, ps: int, pe: int)
    requires 0 <= l < |lines| && 0 <= ps <= pe <= |lines[l]|
    ensures var lines' := lines[l := lines[l][..ps] + lines[l][pe..]];
      var s, o1, o2 := Serialize(lines), Offset(lines, Pos(l, ps)), Offset(lines, Pos(l, pe));
      o1 <= o2 && s[o1..o2] == lines[l][ps..pe] &&
      Serialize(lines') == s[..o1] + s[o2..] && Offset(lines', Pos(l, ps)) == o1
  {
    var line := lines[l];
    SerializeAround(lines, l);
    SerializeUpdate(lines, l, line[..ps] + line[pe..]);
    RangeShape(Serialize(lines), Offset(lines, Pos(l, ps)), Offset(lines, Pos(l, pe)),
               Serialize(lines[..l]), line, Serialize(lines[l + 1..]), ps, pe);
  }

  /** From column ps of line sl to column pe of a later line el: the text between their offsets
      is the start line's tail, a newline, the lines between with their newlines and the end
      line's head; when pe is the end of its line, keeping only the start line's head cuts that
      text out. */
  lemma AcrossLines(lines: seq<string>, sl: int, ps: int, el: int, pe: int)
    requires 0 <= sl < el < |lines| && 0 <= ps <= |lines[sl]| && 0 <= pe <= |lines[el]|
    ensures var lines' := lines[..sl] + [lines[sl][..ps]] + lines[el + 1..];
      var s, o1, o2 := Serialize(lines), Offset(lines, Pos(sl, ps)), Offset(lines, Pos(el, pe));
      o1 < o2 && s[o1..o2] == lines[sl][ps..] + "\n" + Serialize(lines[sl + 1..el]) + lines[el][..pe] &&
      (pe == |lines[el]| ==> Serialize(lines') == s[..o1] + s[o2..] && Offset(lines', Pos(sl, ps)) == o1)
  {
    var pre, mid, post := Serialize(lines[..sl]), Serialize(lines[sl + 1..el]), Serialize(lines[el + 1..]);
    var lines' := lines[..sl] + [lines[sl][..ps]] + lines[el + 1..];
    AcrossText(lines, sl, el, lines[sl][..ps]);
    assert Offset(lines', Pos(sl, ps)) == |pre| + ps;
    AcrossShape(Serialize(lines), Offset(lines, Pos(sl, ps)), Offset(lines, Pos(el, pe)),
                pre, lines[sl], mid, lines[el], post, ps, pe);
  }

  /** The text around a range of lines, and the text once they are replaced by one line. */
  lemma AcrossText(lines: seq<string>, sl: int, el: int, x: string)
    requires 0 <= sl < el < |lines|
    ensures var lines' := lines[..sl] + [x] + lines[el + 1..];
      var pre, mid, post := Serialize(lines[..sl]), Serialize(lines[sl + 1..el]), Serialize(lines[el + 1..]);
      Serialize(lines) == pre + lines[sl] + "\n" + mid + lines[el] + "\n" + post &&
      |Serialize(lines[..el])| == |pre| + |lines[sl]| + 1 + |mid| &&
      Serialize(lines') == pre + x + "\n" + post && lines'[..sl] == lines[..sl]
  {
    var lines' := lines[..sl] + [x] + lines[el + 1..];
    SerializeAroundTwo(lines, sl, el);
    AcrossPrefix(lines, sl, el);
    assert lines'[..sl] == lines[..sl] && lines'[sl] == x && lines'[sl + 1..] == lines[el + 1..];
    SerializeAround(lines', sl);
  }

  /** The length of the text before line el, seen from line sl. */
  lemma AcrossPrefix(lines: seq<string>, sl: int, el: int)
    requires 0 <= sl < el < |lines|
    ensures |Serialize(lines[..el])| == |Serialize(lines[..sl])| + |lines[sl]| + 1 + |Serialize(lines[sl + 1..el])|
  {
    var upTo := lines[..el];
    SerializeFrom(upTo, sl);
    SerializeAt(upTo, sl);
    assert upTo[..sl] == lines[..sl] && upTo[sl] == lines[sl] && upTo[sl + 1..] == lines[sl + 1..el];
  }

  /** Line l replaced by the line's text up to c, the first piece and the rest of the line, then the
      further pieces: the text around line l changes accordingly. */
  lemma PasteLines(lines: seq<string>, l: int, c: int, pieces: seq<string>)
    requires 0 <= l < |lines| && 0 <= c <= |lines[l]| && |pieces| >= 2
    ensures var line := lines[l];
      var lines' := lines[..l] + ([line[..c] + pieces[0] + line[c..]] + pieces[1..]) + lines[l + 1..];
      var pre, rest, post := Serialize(lines[..l]), Serialize(pieces[1..]), Serialize(lines[l + 1..]);
      Serialize(lines') == pre + line[..c] + pieces[0] + line[c..] + "\n" + rest + post
  {
    var line := lines[l];
    var first := line[..c] + pieces[0] + line[c..];
    PasteText(lines, l, first, pieces);
    var pre, rest, post := Serialize(lines[..l]), Serialize(pieces[1..]), Serialize(lines[l + 1..]);
    assert pre + (first + "\n" + rest) + post == pre + line[..c] + pieces[0] + line[c..] + "\n" + rest + post;
  }

  /** After the same replacement, the end of the last piece is just before the newline that ends the
      new pieces. */
  lemma PasteEnd(lines: seq<string>, l: int, c: int, pieces: seq<string>)
    requires 0 <= l < |lines| && 0 <= c <= |lines[l]| && |pieces| >= 2
    ensures var n, line := |pieces|, lines[l];
      var lines' := lines[..l] + ([line[..c] + pieces[0] + line[c..]] + pieces[1..]) + lines[l + 1..];
      ValidPos(lines', Pos(l + n - 1, |pieces[n - 1]|)) &&
      Offset(lines', Pos(l + n - 1, |pieces[n - 1]|)) ==
        |Serialize(lines[..l])| + |line| + |pieces[0]| + |Serialize(pieces[1..])|
  {
    var n, line := |pieces|, lines[l];
    var first := line[..c] + pieces[0] + line[c..];
    var lines' := lines[..l] + ([first] + pieces[1..]) + lines[l + 1..];
    PasteText(lines, l, first, pieces);
    assert |first| == |line| + |pieces[0]| by { assert line == line[..c] + line[c..]; }
    assert Offset(lines', Pos(l + n - 1, |pieces[n - 1]|)) == |Serialize(lines'[..l + n - 1])| + |pieces[n - 1]|;
  }

  /** The text of line l replaced by a first line and further pieces, and the length of the text
      up to the last piece. */
  lemma PasteText(lines: seq<string>, l: int, first: string, pieces: seq<string>)
    requires 0 <= l < |lines| && |pieces| >= 2
    ensures var lines' := lines[..l] + ([first] + pieces[1..]) + lines[l + 1..];
      var n := |pieces|;
      var pre, rest := Serialize(lines[..l]), Serialize(pieces[1..]);
      Serialize(lines') == pre + (first + "\n" + rest) + Serialize(lines[l + 1..]) &&
      l + n - 1 < |lines'| && lines'[l + n - 1] == pieces[n - 1] &&
      |Serialize(lines'[..l + n - 1])| + |pieces[n - 1]| + 1 == |pre| + |first| + 1 + |rest|
  {
    var n := |pieces|;
    var lines' := lines[..l] + ([first] + pieces[1..]) + lines[l + 1..];
    SerializeSplice(lines[..l], [first] + pieces[1..], lines[l + 1..]);
    SerializeCons(first, pieces[1..]);
    SerializeUpTo(lines', l + n - 1);
    assert lines'[..l + n] == lines[..l] + ([first] + pieces[1..]);
    SerializeConcat(lines[..l], [first] + pieces[1..]);
    assert lines'[l + n - 1] == pieces[n - 1];
  }

  // ---------------------------------------------------------------------------
  // The actions as edits of the text

  /** Inserting newline-free text at the cursor inserts it at the cursor's offset, and the cursor
      moves past it. */
  lemma InsertTextView(b: Buffer, t: string)
    requires WellFormed(b) && '\n' !in t
    ensures var r, s, o := InsertText(b, t), Serialize(b.lines), Offset(b.lines, b.cursor);
      Serialize(r.lines) == s[..o] + t + s[o..] && Offset(r.lines, r.cursor) == o + |t|
  {
    InsertLines(b.lines, b.cursor.line, b.cursor.col, t);
  }

  /** Typing a printable character inserts it in the text at the cursor, and the selection collapses. */
  lemma InsertCharacterView(b: Buffer, ch: char)
    requires WellFormed(b) && !IsControl(ch)
    ensures var r, s, o := InsertCharacter(b, ch), Serialize(b.lines), Offset(b.lines, b.cursor);
      Serialize(r.lines) == s[..o] + [ch] + s[o..] && Offset(r.lines, r.cursor) == o + 1
    ensures !HasSelection(InsertCharacter(b, ch))
  {
    InsertTextView(b, [ch]);
  }

  /** Tab inserts a tab in the text at the cursor, and the selection collapses. */
  lemma AddTabView(b: Buffer)
    requires WellFormed(b)
    ensures var r, s, o := AddTab(b), Serialize(b.lines), Offset(b.lines, b.cursor);
      Serialize(r.lines) == s[..o] + "\t" + s[o..] && Offset(r.lines, r.cursor) == o + 1
    ensures !HasSelection(AddTab(b))
  {
    InsertTextView(b, "\t");
  }

  /** Enter inserts a newline in the text at the cursor, the cursor moves past it and the selection
      collapses. */
  lemma SplitLineView(b: Buffer)
    requires WellFormed(b)
    ensures var r, s, o := SplitLine(b), Serialize(b.lines), Offset(b.lines, b.cursor);
      Serialize(r.lines) == s[..o] + "\n" + s[o..] && Offset(r.lines, r.cursor) == o + 1
    ensures !HasSelection(SplitLine(b))
  {
    SplitLines(b.lines, b.cursor.line, b.cursor.col);
  }

  /** Backspace that does not throw removes the character before the cursor's offset (a newline at
      the start of a line), and the cursor moves back over it; at offset 0 nothing changes. The
      selection collapses either way. */
  lemma BackspaceView(b: Buffer)
    requires WellFormed(b) && DeleteText(b).Done?
    ensures var r, s, o := DeleteText(b).buffer, Serialize(b.lines), Offset(b.lines, b.cursor);
      (o == 0 ==> r.lines == b.lines && r.cursor == b.cursor) &&
      (o > 0 ==> Serialize(r.lines) == s[..o - 1] + s[o..] && Offset(r.lines, r.cursor) == o - 1)
    ensures !HasSelection(DeleteText(b).buffer)
  {
    var l, c := b.cursor.line, b.cursor.col;
    var line := b.lines[l];
    if c > 0 {
      assert DeleteText(b).buffer == Collapsed(b.lines[l := line[..c - 1] + line[c..]], Pos(l, c - 1));
      RemoveLines(b.lines, l, c);
    } else if l > 0 {
      assert DeleteText(b).buffer == Collapsed(b.lines[..l - 1] + [b.lines[l - 1] + line] + b.lines[l + 1..], Pos(l - 1, |b.lines[l - 1]|));
      JoinLines(b.lines, l);
    } else {
      assert b.lines[..0] == [];
    }
  }

  /** Deleting a selection that does not throw removes the text between the offsets of its ends,
      the cursor goes to the first of them and the selection collapses. */
  lemma DeleteSelectionView(b: Buffer)
    requires WellFormed(b) && DeleteSelection(b).Done?
    ensures var r, s, sel := DeleteSelection(b).buffer, Serialize(b.lines), Sel(b);
      var o1, o2 := Offset(b.lines, sel.Start()), Offset(b.lines, sel.End());
      o1 <= o2 && Serialize(r.lines) == s[..o1] + s[o2..] && Offset(r.lines, r.cursor) == o1
    ensures !HasSelection(DeleteSelection(b).buffer)
  {
    if Sel(b).lineStart == Sel(b).lineEnd {
      DeleteOnLine(b);
    } else {
      DeleteAcross(b);
    }
  }

  /** DeleteSelectionView for a selection within one line. */
  lemma DeleteOnLine(b: Buffer)
    requires WellFormed(b) && DeleteSelection(b).Done? && Sel(b).lineStart == Sel(b).lineEnd
    ensures var r, s, sel := DeleteSelection(b).buffer, Serialize(b.lines), Sel(b);
      var o1, o2 := Offset(b.lines, sel.Start()), Offset(b.lines, sel.End());
      o1 <= o2 && Serialize(r.lines) == s[..o1] + s[o2..] && Offset(r.lines, r.cursor) == o1
  {
    var sel := Sel(b);
    var sl, ps, pe := sel.lineStart, sel.positionStart, sel.positionEnd;
    var line := b.lines[sl];
    assert DeleteSelection(b).buffer == Collapsed(b.lines[sl := line[..ps] + line[pe..]], sel.Start());
    RangeLines(b.lines, sl, ps, pe);
  }

  /** DeleteSelectionView for a selection across lines. */
  lemma DeleteAcross(b: Buffer)
    requires WellFormed(b) && DeleteSelection(b).Done? && Sel(b).lineStart != Sel(b).lineEnd
    ensures var r, s, sel := DeleteSelection(b).buffer, Serialize(b.lines), Sel(b);
      var o1, o2 := Offset(b.lines, sel.Start()), Offset(b.lines, sel.End());
      o1 <= o2 && Serialize(r.lines) == s[..o1] + s[o2..] && Offset(r.lines, r.cursor) == o1
  {
    var sel := Sel(b);
    CutAcrossLines(b);
    AcrossLines(b.lines, sel.lineStart, sel.positionStart, sel.lineEnd, sel.positionEnd);
  }

  /** Copy gives exactly the text between the offsets of the selection's ends. */
  lemma SelectedTextView(b: Buffer)
    requires WellFormed(b)
    ensures var s, sel := Serialize(b.lines), Sel(b);
      var o1, o2 := Offset(b.lines, sel.Start()), Offset(b.lines, sel.End());
      o1 <= o2 && SelectedText(b) == s[o1..o2]
  {
    var sel := Sel(b);
    var sl, ps, el, pe := sel.lineStart, sel.positionStart, sel.lineEnd, sel.positionEnd;
    if sl == el {
      RangeLines(b.lines, sl, ps, pe);
    } else {
      AcrossLines(b.lines, sl, ps, el, pe);
    }
  }

  /** Paste without a newline inserts the clipboard in the text at the cursor, carriage returns
      and all. */
  lemma PasteView(b: Buffer, clipboard: string)
    requires WellFormed(b) && '\n' !in clipboard
    ensures var r, s, o := Paste(b, clipboard), Serialize(b.lines), Offset(b.lines, b.cursor);
      Serialize(r.lines) == s[..o] + clipboard + s[o..] && Offset(r.lines, r.cursor) == o + |clipboard|
  {
    InsertTextView(b, clipboard);
  }

  /** Paste with a newline, in the text around the cursor's line: the first piece goes in at the
      cursor, the rest of the line and its newline follow, and then come the other pieces, each with
      a newline. */
  lemma PasteLinesView(b: Buffer, clipboard: string, pieces: seq<string>)
    requires WellFormed(b) && '\n' in clipboard && pieces == Split(ReplaceCarriageReturns(clipboard))
    ensures |pieces| >= 2
    ensures var r, l, c := Paste(b, clipboard), b.cursor.line, b.cursor.col;
      var line := b.lines[l];
      var pre, rest, post := Serialize(b.lines[..l]), Serialize(pieces[1..]), Serialize(b.lines[l + 1..]);
      Serialize(b.lines) == pre + line + "\n" + post && Offset(b.lines, b.cursor) == |pre| + c &&
      Serialize(r.lines) == pre + line[..c] + pieces[0] + line[c..] + "\n" + rest + post
  {
    PasteResult(b, clipboard);
    SerializeAround(b.lines, b.cursor.line);
    PasteLines(b.lines, b.cursor.line, b.cursor.col, pieces);
  }

  /** After a paste with a newline, the cursor is at the end of the last piece: past the text before
      the cursor's line, that line, the first piece and the other pieces, less the last newline. */
  lemma PasteCursorView(b: Buffer, clipboard: string, pieces: seq<string>)
    requires WellFormed(b) && '\n' in clipboard && pieces == Split(ReplaceCarriageReturns(clipboard))
    ensures |pieces| >= 2
    ensures var r, l := Paste(b, clipboard), b.cursor.line;
      Offset(r.lines, r.cursor) == |Serialize(b.lines[..l])| + |b.lines[l]| + |pieces[0]| + |Serialize(pieces[1..])|
  {
    PasteResult(b, clipboard);
    PasteEnd(b.lines, b.cursor.line, b.cursor.col, pieces);
  }

  /** What Paste builds from a clipboard holding a newline, in terms of its pieces. */
  lemma PasteResult(b: Buffer, clipboard: string)
    requires WellFormed(b) && '\n' in clipboard
    ensures var pieces := Split(ReplaceCarriageReturns(clipboard));
      var l, c, n := b.cursor.line, b.cursor.col, |pieces|;
      n >= 2 &&
      Paste(b, clipboard) ==
        Collapsed(b.lines[..l] + ([b.lines[l][..c] + pieces[0] + b.lines[l][c..]] + pieces[1..]) + b.lines[l + 1..],
                  Pos(l + n - 1, |pieces[n - 1]|))
  {
    var text := ReplaceCarriageReturns(clipboard);
    assert '\n' in text by {
      var k :| 0 <= k < |clipboard| && clipboard[k] == '\n';
      assert text[k] == '\n';
    }
    SplitWithNewline(text);
  }

  /** At the end of a line, a multi-line paste without carriage returns inserts the clipboard in the
      text at the cursor, and the cursor ends after it. */
  lemma PasteAtLineEnd(b: Buffer, clipboard: string)
    requires WellFormed(b) && '\n' in clipboard && '\r' !in clipboard
    requires b.cursor.col == |b.lines[b.cursor.line]|
    ensures var r, s, o := Paste(b, clipboard), Serialize(b.lines), Offset(b.lines, b.cursor);
      Serialize(r.lines) == s[..o] + clipboard + s[o..] && Offset(r.lines, r.cursor) == o + |clipboard|
  {
    ReplaceWithoutCarriageReturns(clipboard);
    var pieces := Split(clipboard);
    PasteLinesView(b, clipboard, pieces);
    PasteCursorView(b, clipboard, pieces);
    PiecesRejoin(clipboard);
    var l := b.cursor.line;
    RejoinShape(Serialize(b.lines), Offset(b.lines, b.cursor), Serialize(b.lines[..l]), b.lines[l],
                Serialize(b.lines[l + 1..]), b.cursor.col, pieces[0], Serialize(pieces[1..]), clipboard);
  }

  /** At the end of a line, the first piece, a newline and the rest, put where the newline was, are
      the text inserted at the line's end. */
  lemma RejoinShape(s: string, o: int, pre: string, line: string, post: string, c: int,
                    p0: string, rest: string, text: string)
    requires s == pre + line + "\n" + post && c == |line| && o == |pre| + c
    requires p0 + "\n" + rest == text + "\n"
    ensures pre + line[..c] + p0 + line[c..] + "\n" + rest + post == s[..o] + text + s[o..]
    ensures |pre| + |line| + |p0| + |rest| == o + |text|
  {
    assert line[..c] == line && line[c..] == "";
    assert s[..o] == pre + line && s[o..] == "\n" + post by { Sides(s, o, pre, line, post, c); }
    assert pre + line + p0 + "\n" + rest + post == pre + line + (p0 + "\n" + rest) + post;
    assert pre + line + (text + "\n") + post == (pre + line) + text + ("\n" + post);
  }

  /** A text holding a newline is its first piece, a newline, and the serialized other pieces
      without their final newline. */
  lemma PiecesRejoin(text: string)
    requires '\n' in text
    ensures var p := Split(text); |p| >= 2 && p[0] + "\n" + Serialize(p[1..]) == text + "\n"
  {
    SplitWithNewline(text);
    SplitJoin(text);
    RestOfPieces(Split(text));
  }

  /** The pieces after the first, serialized, read against the pieces before the last. */
  lemma RestOfPieces(p: seq<string>)
    requires |p| >= 2
    ensures Serialize(p[..|p| - 1]) + p[|p| - 1] + "\n" == p[0] + "\n" + Serialize(p[1..])
  {
    var n := |p|;
    var rest := p[1..];
    assert p[..n - 1] == [p[0]] + p[1..n - 1];
    SerializeCons(p[0], p[1..n - 1]);
    assert rest[..|rest| - 1] == p[1..n - 1] && rest[|rest| - 1] == p[n - 1];
  }
}
