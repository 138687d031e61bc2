/** The editor's line store: the raw text is cut into lines on load (RefreshAllLines) and written
    back with a newline after every line (UpdateEditorTextInternal). */
module LineStore {

  /** No line of the store holds a newline character. */
  predicate NoNewlines(lines: seq<string>) {
    forall i :: 0 <= i < |lines| ==> '\n' !in lines[i]
  }

  /** C#'s `String.Split('\n')`: the pieces between newlines, empty pieces included.
      Defined from the end of the text, the way a left-to-right scan builds it. */
  function Split(s: string): (pieces: seq<string>)
    ensures |pieces| >= 1 && NoNewlines(pieces)
    decreases |s|
  {
    if s == [] then [""]
    else
      var init := Split(s[..|s| - 1]);
      var c := s[|s| - 1];
      if c == '\n' then init + [""]
      else init[..|init| - 1] + [init[|init| - 1] + [c]]
  }

  /** Every line followed by one newline, in order. */
  function Serialize(lines: seq<string>): string {
    if lines == [] then ""
    else Serialize(lines[..|lines| - 1]) + lines[|lines| - 1] + "\n"
  }

  /** The lines RefreshAllLines builds: one line per newline-terminated piece, the trailing
      fragment as a last line when it is not empty, and a single empty line when that leaves none. */
  function Load(text: string): (lines: seq<string>)
    ensures |lines| >= 1 && NoNewlines(lines)
  {
    var pieces := Split(text);
    var kept := if pieces[|pieces| - 1] != "" then pieces else pieces[..|pieces| - 1];
    if kept == [] then [""] else kept
  }

  /** `List.Insert(i, line)`: the lines from index i on move down by one. */
  function InsertAt(lines: seq<string>, i: int, line: string): seq<string>
    requires 0 <= i <= |lines|
  {
    lines[..i] + [line] + lines[i..]
  }

  /** `List.RemoveAt(i)`: the lines after index i move up by one. */
  function RemoveAt(lines: seq<string>, i: int): seq<string>
    requires 0 <= i < |lines|
  {
    lines[..i] + lines[i + 1..]
  }

  /** Ends with a newline. */
  predicate EndsWithNewline(s: string) {
    |s| > 0 && s[|s| - 1] == '\n'
  }

  // ---------------------------------------------------------------------------
  // Split and Serialize undo each other

  /** Joining the pieces back with newlines gives the text: every piece but the last is
      newline-terminated, the last is the fragment after the final newline. */
  lemma {:induction false} SplitJoin(s: string)
    ensures var p := Split(s); s == Serialize(p[..|p| - 1]) + p[|p| - 1]
    decreases |s|
  {
    if s != [] {
      var s', c := s[..|s| - 1], s[|s| - 1];
      assert s == s' + [c];
      SplitJoin(s');
      var p' := Split(s');
      if c == '\n' {
        assert (p' + [""])[..|p'|] == p';
        assert p'[..|p'| - 1] + [p'[|p'| - 1]] == p';
      } else {
        var p := p'[..|p'| - 1] + [p'[|p'| - 1] + [c]];
        assert p[..|p| - 1] == p'[..|p'| - 1];
      }
    }
  }

  /** A newline-free text is a single piece. */
  lemma {:induction false} SplitOfLine(x: string)
    requires '\n' !in x
    ensures Split(x) == [x]
    decreases |x|
  {
    if x != [] {
      var x' := x[..|x| - 1];
      assert '\n' !in x' by {
        forall k | 0 <= k < |x'| ensures x'[k] != '\n' { assert x'[k] == x[k]; }
      }
      SplitOfLine(x');
      assert x' + [x[|x| - 1]] == x;
    }
  }

  /** One more character: a newline starts a new piece, any other extends the last one. */
  lemma SplitSnoc(x: string, c: char)
    ensures var p := Split(x);
            Split(x + [c]) == if c == '\n' then p + [""] else p[..|p| - 1] + [p[|p| - 1] + [c]]
  {
    assert (x + [c])[..|x|] == x;
  }

  /** SplitSnoc for a split already known as the finished lines and the line being gathered. */
  lemma SplitStep(prefix: string, c: char, done: seq<string>, current: string)
    requires Split(prefix) == done + [current]
    ensures Split(prefix + [c]) == if c == '\n' then done + [current] + [""] else done + [current + [c]]
  {
    SplitSnoc(prefix, c);
    var p := done + [current];
    assert p[..|p| - 1] == done && p[|p| - 1] == current;
  }

  /** Load of a text whose split is known as the finished lines and a trailing fragment. */
  lemma LoadOfSplit(text: string, done: seq<string>, current: string)
    requires Split(text) == done + [current]
    ensures Load(text) == (var kept := if current != "" then done + [current] else done;
                           if kept == [] then [""] else kept)
  {
    var p := done + [current];
    assert p[..|p| - 1] == done;
  }

  /** Extending the last element of a + b extends the last element of b. */
  lemma ExtendLast(a: seq<string>, b: seq<string>, c: char)
    requires |b| >= 1
    ensures (a + b)[..|a + b| - 1] + [(a + b)[|a + b| - 1] + [c]] == a + (b[..|b| - 1] + [b[|b| - 1] + [c]])
  {
    assert (a + b)[..|a + b| - 1] == a + b[..|b| - 1];
    assert (a + b)[|a + b| - 1] == b[|b| - 1];
  }

  /** A newline joins the pieces of what is before it to the pieces of what is after it. */
  lemma {:induction false} SplitAtNewline(s: string, t: string)
    ensures Split(s + "\n" + t) == Split(s) + Split(t)
    decreases |t|
  {
    if t == [] {
      assert s + "\n" + t == s + "\n";
      SplitSnoc(s, '\n');
    } else {
      var t', c := t[..|t| - 1], t[|t| - 1];
      var x := s + "\n" + t';
      assert s + "\n" + t == x + [c];
      assert t' + [c] == t;
      var a, b := Split(s), Split(t');
      SplitAtNewline(s, t');
      assert Split(x) == a + b;
      SplitSnoc(x, c);
      SplitSnoc(t', c);
      if c == '\n' {
        assert Split(x + [c]) == (a + b) + [""];
        assert Split(t) == b + [""];
      } else {
        ExtendLast(a, b, c);
        assert Split(x + [c]) == a + (b[..|b| - 1] + [b[|b| - 1] + [c]]);
        assert Split(t) == b[..|b| - 1] + [b[|b| - 1] + [c]];
      }
    }
  }

  /** Splitting serialized lines followed by a newline-free tail gives back the lines and the tail. */
  lemma {:induction false} SplitSerialize(lines: seq<string>, tail: string)
    requires NoNewlines(lines) && '\n' !in tail
    ensures Split(Serialize(lines) + tail) == lines + [tail]
    decreases |lines|
  {
    if lines == [] {
      assert Serialize(lines) + tail == tail;
      SplitOfLine(tail);
    } else {
      var init, last := lines[..|lines| - 1], lines[|lines| - 1];
      assert NoNewlines(init) by {
        forall k | 0 <= k < |init| ensures '\n' !in init[k] { assert init[k] == lines[k]; }
      }
      assert '\n' !in last;
      SplitSerialize(init, last);
      assert Serialize(lines) + tail == (Serialize(init) + last) + "\n" + tail;
      SplitAtNewline(Serialize(init) + last, tail);
      SplitOfLine(tail);
      assert init + [last] == lines;
    }
  }

  // ---------------------------------------------------------------------------
  // Load and Serialize round trips

  /** Serializing and reloading a store gives the same lines (every store has a line and no
      line holds a newline). */
  lemma LoadSerialize(lines: seq<string>)
    requires |lines| >= 1 && NoNewlines(lines)
    ensures Load(Serialize(lines)) == lines
  {
    SplitSerialize(lines, "");
    assert Serialize(lines) + "" == Serialize(lines);
    assert (lines + [""])[..|lines|] == lines;
  }

  /** Loading and serializing gives the text back when it ends with a newline, and the text with
      one newline added otherwise ("" included). */
  lemma SerializeLoad(text: string)
    ensures Serialize(Load(text)) == if EndsWithNewline(text) then text else text + "\n"
  {
    SplitJoin(text);
    var p := Split(text);
    var init, last := p[..|p| - 1], p[|p| - 1];
    if last != "" {
      assert init + [last] == p;
      assert text[|text| - 1] == last[|last| - 1];
      assert '\n' !in last;
    } else if |p| > 1 {
      assert text == Serialize(init);
    } else {
      assert text == "";
    }
  }

  // ---------------------------------------------------------------------------
  // Serialize read from the front

  /** Serialize distributes over concatenation. */
  lemma {:induction false} SerializeConcat(a: seq<string>, b: seq<string>)
    ensures Serialize(a + b) == Serialize(a) + Serialize(b)
    decreases |b|
  {
    if b == [] {
      assert a + b == a;
    } else {
      var b', x := b[..|b| - 1], b[|b| - 1];
      assert (a + b)[..|a + b| - 1] == a + b';
      assert (a + b)[|a + b| - 1] == x;
      SerializeConcat(a, b');
    }
  }

  /** The first line, its newline, then the rest. */
  lemma SerializeCons(x: string, rest: seq<string>)
    ensures Serialize([x] + rest) == x + "\n" + Serialize(rest)
  {
    SerializeConcat([x], rest);
    assert [x][..0] == [];
  }

  // ---------------------------------------------------------------------------
  // Copying all but a range

  function MinIndex(a: int, b: int): int { if a <= b then a else b }

  /** What a loop copying the elements of s before index i, except those in [lo, hi), has built. */
  function KeptBefore<T>(s: seq<T>, lo: int, hi: int, i: int): seq<T>
    requires 0 <= lo <= hi <= |s| && 0 <= i <= |s|
  {
    s[..MinIndex(i, lo)] + s[MinIndex(i, hi)..i]
  }

  /** One more step of that loop: the element at i is skipped inside the range and kept outside it;
      at the end the range is cut out. */
  lemma KeptStep<T>(s: seq<T>, lo: int, hi: int, i: int)
    requires 0 <= lo <= hi <= |s| && 0 <= i < |s|
    ensures KeptBefore(s, lo, hi, i + 1) ==
            if lo <= i < hi then KeptBefore(s, lo, hi, i) else KeptBefore(s, lo, hi, i) + [s[i]]
    ensures KeptBefore(s, lo, hi, |s|) == s[..lo] + s[hi..]
  {
    if i < lo {
      assert s[..i + 1] == s[..i] + [s[i]];
    } else if i >= hi {
      assert s[hi..i + 1] == s[hi..i] + [s[i]];
    }
  }
}
