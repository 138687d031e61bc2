/** The per-line syntax colorizer of a line label (UpdateLineText_SyntaxHighlight with
    SyntaxProcessWord and SyntaxProcessChar): a scanner over one line that emits the characters
    of the line with colour spans around keywords, word regions and character triggers.

    The output is a token sequence; Render turns it into the `[color=#…]…[/color]` markup. */
module Colorizer {
  import opened SyntaxRules

  datatype Token = Txt(c: char) | Open(color: Color) | Close

  /** What the scanner is inside: nothing, a word region waiting for its end word, or a character
      region waiting for its end character. The source's two flags are never both set. */
  datatype Mode = Normal | InWordRegion(endWord: string) | InCharRegion(endChar: char)

  /** The scanner's state between characters: the mode and the pending (unflushed) word. */
  datatype Scanner = Scanner(mode: Mode, word: string)

  /** The state at the start of every line: no region, no pending word. */
  const Initial: Scanner := Scanner(Normal, "")

  // ---------------------------------------------------------------------------
  // Tokens: plain text, rendering, span depth

  /** The characters of s, uncoloured. */
  function Txts(s: string): (ts: seq<Token>)
    ensures |ts| == |s| && forall i :: 0 <= i < |s| ==> ts[i] == Txt(s[i])
  {
    if s == [] then [] else Txts(s[..|s| - 1]) + [Txt(s[|s| - 1])]
  }

  /** The output with every tag erased. */
  function Plain(ts: seq<Token>): string {
    if ts == [] then ""
    else Plain(ts[..|ts| - 1]) + (match ts[|ts| - 1] case Txt(c) => [c] case _ => "")
  }

  function RenderToken(t: Token): string {
    match t
    case Txt(c) => [c]
    case Open(color) => "[color=#" + color.html + "]"
    case Close => "[/color]"
  }

  /** The markup string the label shows. */
  function Render(ts: seq<Token>): string {
    if ts == [] then "" else RenderToken(ts[0]) + Render(ts[1..])
  }

  function Delta(t: Token): int {
    match t case Open(_) => 1 case Close => -1 case Txt(_) => 0
  }

  /** Opened minus closed spans. */
  function Depth(ts: seq<Token>): int {
    if ts == [] then 0 else Delta(ts[0]) + Depth(ts[1..])
  }

  /** Starting with d spans open, reading ts token by token never closes a span that is not open
      and never has more than bound spans open. */
  predicate Fits(d: int, ts: seq<Token>, bound: int)
    decreases |ts|
  {
    0 <= d <= bound && (ts == [] || Fits(d + Delta(ts[0]), ts[1..], bound))
  }

  /** The number of spans the scanner holds open in a mode. */
  function ModeDepth(m: Mode): int {
    if m.Normal? then 0 else 1
  }

  // ---------------------------------------------------------------------------
  // The two helpers and one step of the scanner

  datatype WordResult = WordResult(output: seq<Token>, mode: Mode)

  /** SyntaxProcessWord: inside a region the word is verbatim; otherwise a region-start word (checked
      first) is emitted opened and unclosed and the scanner enters the word region; a keyword is
      wrapped and closed; any other word is verbatim. */
  function ProcessWord(rules: RuleSet, mode: Mode, word: string): WordResult {
    if !mode.Normal? then WordResult(Txts(word), mode)
    else if word in rules.regionColors then
      WordResult([Open(rules.regionColors[word].color)] + Txts(word),
                 InWordRegion(rules.regionColors[word].regionEnd))
    else if word in rules.keywordColors then
      WordResult([Open(rules.keywordColors[word])] + Txts(word) + [Close], Normal)
    else WordResult(Txts(word), Normal)
  }

  /** What SyntaxProcessChar reports: whether the trigger fired, the output for the character, and
      the mode after it (a character region when a region trigger fired, Normal otherwise). */
  datatype CharResult = CharResult(fired: bool, output: seq<Token>, mode: Mode)

  /** SyntaxProcessChar, called only outside regions: a trigger that has to start a word does not
      fire while a word is pending; a firing trigger emits the character opened, and either opens a
      character region or closes the span again; any other character is emitted uncoloured. */
  function ProcessChar(rules: RuleSet, word: string, c: char): CharResult {
    if c in rules.charRegionColors then
      var rule := rules.charRegionColors[c];
      if rule.hasToBeWordStart && word != "" then CharResult(false, [Txt(c)], Normal)
      else if rule.regionEnabled then CharResult(true, [Open(rule.color), Txt(c)], InCharRegion(rule.regionEnd))
      else CharResult(true, [Open(rule.color), Txt(c), Close], Normal)
    else CharResult(false, [Txt(c)], Normal)
  }

  /** One character of the main loop of UpdateLineText_SyntaxHighlight: the new scanner state and
      the tokens appended for the character. */
  function Step(rules: RuleSet, s: Scanner, c: char): (Scanner, seq<Token>) {
    match s.mode
    case Normal =>
      var pc := ProcessChar(rules, s.word, c);
      if pc.fired then
        if pc.mode.Normal? then
          // a non-region trigger: the pending word goes through the keyword/region check first
          var pw := ProcessWord(rules, Normal, s.word);
          (Scanner(pw.mode, ""), pw.output + pc.output)
        else
          // a region trigger: the pending word is emitted verbatim
          (Scanner(pc.mode, ""), Txts(s.word) + pc.output)
      else if c in rules.wordEndSymbols then
        var pw := ProcessWord(rules, Normal, s.word);
        // the second SyntaxProcessChar call sees the same word and character as the first
        var again := ProcessChar(rules, s.word, c);
        (Scanner(pw.mode, ""), pw.output + (if again.fired then again.output else [Txt(c)]))
      else
        (Scanner(Normal, s.word + [c]), [])
    case InWordRegion(endWord) =>
      if c in rules.wordEndSymbols then
        if s.word == endWord then (Scanner(Normal, ""), Txts(s.word) + [Close, Txt(c)])
        else (Scanner(s.mode, ""), Txts(s.word) + [Txt(c)])
      else (Scanner(s.mode, s.word + [c]), [])
    case InCharRegion(endChar) =>
      if c == endChar then (Scanner(Normal, s.word), [Txt(c), Close])
      else (s, [Txt(c)])
  }

  /** The main loop over a line: the state and the output after its characters. */
  function Run(rules: RuleSet, line: string): (Scanner, seq<Token>) {
    if line == [] then (Initial, [])
    else
      var (s, out) := Run(rules, line[..|line| - 1]);
      var (s', o) := Step(rules, s, line[|line| - 1]);
      (s', out + o)
  }

  /** The end of the line: an open character region is closed (and the pending word dropped), a
      pending word is flushed (which may open a word region), and an open word region is closed. */
  function Finish(rules: RuleSet, s: Scanner): seq<Token> {
    var closeChar := if s.mode.InCharRegion? then [Close] else [];
    var word := if s.mode.InCharRegion? then "" else s.word;
    var flushed := if word != "" then ProcessWord(rules, s.mode, word) else WordResult([], s.mode);
    var closeWord := if flushed.mode.InWordRegion? then [Close] else [];
    closeChar + flushed.output + closeWord
  }

  /** UpdateLineText_SyntaxHighlight: the tokens for a line, starting from the initial state. */
  function Highlight(rules: RuleSet, line: string): seq<Token> {
    var (s, out) := Run(rules, line);
    out + Finish(rules, s)
  }

  // ---------------------------------------------------------------------------
  // The loop as the source writes it

  /** The mode the source's flags and end markers stand for. */
  function ModeOf(regionIsCurrent: bool, regionEndWord: string, charRegionIsCurrent: bool,
                  charRegionEndChar: char): Mode {
    if regionIsCurrent then InWordRegion(regionEndWord)
    else if charRegionIsCurrent then InCharRegion(charRegionEndChar)
    else Normal
  }

  /** One pass of the main loop of UpdateLineText_SyntaxHighlight on the source's flags: the flags,
      the pending word and the tokens for the character are those of one scanner step. */
  method ScanChar(rules: RuleSet, regionIsCurrent: bool, regionEndWord: string, charRegionIsCurrent: bool,
                  charRegionEndChar: char, currentWord: string, c: char)
    returns (inRegion: bool, endWord: string, inCharRegion: bool, endChar: char, word: string, emitted: seq<Token>)
    requires !(regionIsCurrent && charRegionIsCurrent)
    ensures !(inRegion && inCharRegion)
    ensures Step(rules, Scanner(ModeOf(regionIsCurrent, regionEndWord, charRegionIsCurrent, charRegionEndChar), currentWord), c)
            == (Scanner(ModeOf(inRegion, endWord, inCharRegion, endChar), word), emitted)
  {
    inRegion, endWord, inCharRegion, endChar, word := regionIsCurrent, regionEndWord, charRegionIsCurrent, charRegionEndChar, currentWord;
    if !regionIsCurrent && !charRegionIsCurrent {
      var pc := ProcessChar(rules, currentWord, c);
      if pc.fired {
        if pc.mode.Normal? {
          var pw := ProcessWord(rules, Normal, currentWord);
          emitted := pw.output + pc.output;
          if pw.mode.InWordRegion? {
            inRegion, endWord := true, pw.mode.endWord;
          }
        } else {
          emitted := Txts(currentWord) + pc.output;
          inCharRegion, endChar := true, pc.mode.endChar;
        }
        word := "";
      } else if c in rules.wordEndSymbols {
        var pw := ProcessWord(rules, Normal, currentWord);
        var again := ProcessChar(rules, currentWord, c);
        if again.fired {
          emitted := pw.output + again.output;
        } else {
          emitted := pw.output + [Txt(c)];
        }
        if pw.mode.InWordRegion? {
          inRegion, endWord := true, pw.mode.endWord;
        }
        word := "";
      } else {
        emitted := [];
        word := currentWord + [c];
      }
    } else if regionIsCurrent {
      if c in rules.wordEndSymbols {
        if currentWord == regionEndWord {
          inRegion := false;
          emitted := Txts(currentWord) + [Close, Txt(c)];
        } else {
          emitted := Txts(currentWord) + [Txt(c)];
        }
        word := "";
      } else {
        emitted := [];
        word := currentWord + [c];
      }
    } else {
      if c == charRegionEndChar {
        inCharRegion := false;
        emitted := [Txt(c), Close];
      } else {
        emitted := [Txt(c)];
      }
    }
  }

  /** The end of the line in UpdateLineText_SyntaxHighlight: close a character region, flush the
      pending word, close a word region. */
  method FinishLine(rules: RuleSet, regionIsCurrent: bool, regionEndWord: string, charRegionIsCurrent: bool,
                    charRegionEndChar: char, currentWord: string) returns (tail: seq<Token>)
    requires !(regionIsCurrent && charRegionIsCurrent)
    ensures tail == Finish(rules, Scanner(ModeOf(regionIsCurrent, regionEndWord, charRegionIsCurrent, charRegionEndChar), currentWord))
  {
    var mode := ModeOf(regionIsCurrent, regionEndWord, charRegionIsCurrent, charRegionEndChar);
    var word, inRegion := currentWord, regionIsCurrent;
    tail := [];
    if charRegionIsCurrent {
      tail := [Close];
      word := "";
    }
    if word != "" {
      var pw := ProcessWord(rules, mode, word);
      tail := tail + pw.output;
      if pw.mode.InWordRegion? {
        inRegion := true;
      }
    }
    if inRegion {
      tail := tail + [Close];
    }
  }

  /** UpdateLineText_SyntaxHighlight, step by step over the line with the source's flags, building
      the markup string: the result is the rendering of Highlight. */
  method HighlightLine(rules: RuleSet, lineText: string) returns (bbcode: string)
    ensures bbcode == Render(Highlight(rules, lineText))
  {
    bbcode := "";
    ghost var out: seq<Token> := [];
    var currentWord := "";
    var regionIsCurrent, charRegionIsCurrent := false, false;
    var regionEndWord, charRegionEndChar := "", '\n';
    for i := 0 to |lineText|
      invariant !(regionIsCurrent && charRegionIsCurrent)
      invariant (Scanner(ModeOf(regionIsCurrent, regionEndWord, charRegionIsCurrent, charRegionEndChar),
                         currentWord), out) == Run(rules, lineText[..i])
      invariant bbcode == Render(out)
    {
      assert lineText[..i + 1][..i] == lineText[..i];
      var emitted: seq<Token>;
      regionIsCurrent, regionEndWord, charRegionIsCurrent, charRegionEndChar, currentWord, emitted :=
        ScanChar(rules, regionIsCurrent, regionEndWord, charRegionIsCurrent, charRegionEndChar, currentWord, lineText[i]);
      RenderConcat(out, emitted);
      bbcode := bbcode + Render(emitted);
      out := out + emitted;
    }
    assert lineText[..|lineText|] == lineText;
    var tail := FinishLine(rules, regionIsCurrent, regionEndWord, charRegionIsCurrent, charRegionEndChar, currentWord);
    RenderConcat(out, tail);
    bbcode := bbcode + Render(tail);
  }

  // ---------------------------------------------------------------------------
  // Lemmas about tokens

  lemma TxtsFacts(s: string)
    ensures Plain(Txts(s)) == s && Depth(Txts(s)) == 0
    ensures forall d, b :: 0 <= d <= b ==> Fits(d, Txts(s), b)
  {
    TxtsPlain(s);
    TextOnly(Txts(s));
  }

  lemma {:induction false} TxtsPlain(s: string)
    ensures Plain(Txts(s)) == s
    decreases |s|
  {
    if s != [] {
      var s' := s[..|s| - 1];
      TxtsPlain(s');
      assert Txts(s)[..|Txts(s)| - 1] == Txts(s');
      assert s' + [s[|s| - 1]] == s;
    }
  }

  /** Uncoloured text opens nothing and fits at any depth. */
  lemma {:induction false} TextOnly(ts: seq<Token>)
    requires forall i :: 0 <= i < |ts| ==> ts[i].Txt?
    ensures Depth(ts) == 0 && forall d, b :: 0 <= d <= b ==> Fits(d, ts, b)
    decreases |ts|
  {
    if ts != [] {
      TextOnly(ts[1..]);
      assert Delta(ts[0]) == 0;
    }
  }

  lemma {:induction false} PlainConcat(a: seq<Token>, b: seq<Token>)
    ensures Plain(a + b) == Plain(a) + Plain(b)
    decreases |b|
  {
    if b == [] {
      assert a + b == a;
    } else {
      var b' := b[..|b| - 1];
      assert (a + b)[..|a + b| - 1] == a + b';
      PlainConcat(a, b');
    }
  }

  lemma {:induction false} RenderConcat(a: seq<Token>, b: seq<Token>)
    ensures Render(a + b) == Render(a) + Render(b)
    decreases |a|
  {
    if a == [] {
      assert a + b == b;
    } else {
      assert (a + b)[1..] == a[1..] + b;
      RenderConcat(a[1..], b);
    }
  }

  /** One more token renders one more piece at the end. */
  lemma RenderSnoc(ts: seq<Token>, t: Token)
    ensures Render(ts + [t]) == Render(ts) + RenderToken(t)
  {
    RenderConcat(ts, [t]);
    assert [t][1..] == [];
  }

  lemma {:induction false} DepthConcat(a: seq<Token>, b: seq<Token>)
    ensures Depth(a + b) == Depth(a) + Depth(b)
    decreases |a|
  {
    if a == [] {
      assert a + b == b;
    } else {
      assert (a + b)[1..] == a[1..] + b;
      DepthConcat(a[1..], b);
    }
  }

  lemma FitsEmpty(d: int, bound: int)
    requires 0 <= d <= bound
    ensures Fits(d, [], bound)
  {
  }

  /** The plain text and depth of one token. */
  lemma SingleFacts(t: Token)
    ensures Plain([t]) == (if t.Txt? then [t.c] else "")
    ensures Depth([t]) == Delta(t)
  {
    assert [t][..|[t]| - 1] == [];
    assert [t][1..] == [];
  }

  lemma FitsOne(d: int, t: Token, bound: int)
    requires 0 <= d <= bound && 0 <= d + Delta(t) <= bound
    ensures Fits(d, [t], bound)
  {
    assert [t][1..] == [];
  }

  /** Fitting pieces fit together: the second piece starts at the depth the first ends at. */
  lemma {:induction false} FitsConcat(d: int, a: seq<Token>, b: seq<Token>, bound: int)
    requires Fits(d, a, bound) && Fits(d + Depth(a), b, bound)
    ensures Fits(d, a + b, bound)
    decreases |a|
  {
    if a == [] {
      assert a + b == b;
    } else {
      assert (a + b)[0] == a[0] && (a + b)[1..] == a[1..] + b;
      FitsConcat(d + Delta(a[0]), a[1..], b, bound);
    }
  }

  /** Read prefix by prefix: every prefix of a fitting sequence leaves between 0 and bound spans open. */
  lemma {:induction false} FitsPrefixes(d: int, ts: seq<Token>, bound: int)
    requires Fits(d, ts, bound)
    ensures forall j :: 0 <= j <= |ts| ==> 0 <= d + Depth(ts[..j]) <= bound
    decreases |ts|
  {
    if ts != [] {
      FitsPrefixes(d + Delta(ts[0]), ts[1..], bound);
      forall j | 0 <= j <= |ts| ensures 0 <= d + Depth(ts[..j]) <= bound {
        if j > 0 {
          assert ts[..j][1..] == ts[1..][..j - 1];
        }
      }
    }
  }

  /** A looser bound is still met. */
  lemma {:induction false} FitsWiden(d: int, ts: seq<Token>, bound: int, bound': int)
    requires Fits(d, ts, bound) && bound <= bound'
    ensures Fits(d, ts, bound')
    decreases |ts|
  {
    if ts != [] {
      FitsWiden(d + Delta(ts[0]), ts[1..], bound, bound');
    }
  }

  /** Starting one span deeper costs one more span of room. */
  lemma {:induction false} FitsShift(d: int, ts: seq<Token>, bound: int)
    requires Fits(d, ts, bound)
    ensures Fits(d + 1, ts, bound + 1)
    decreases |ts|
  {
    if ts != [] {
      FitsShift(d + Delta(ts[0]), ts[1..], bound);
    }
  }

  // ---------------------------------------------------------------------------
  // What the two helpers promise

  /** A flushed word keeps its characters; it leaves the mode alone except that a region-start word
      outside any region (checked before the keywords) is emitted opened and unclosed and enters its
      word region; a keyword outside regions is wrapped and closed; every other word, and every word
      inside a region, is verbatim. At most one span is open while it is emitted. */
  lemma ProcessWordSpec(rules: RuleSet, mode: Mode, word: string)
    ensures var r := ProcessWord(rules, mode, word);
      Plain(r.output) == word &&
      Fits(ModeDepth(mode), r.output, 1) &&
      ModeDepth(mode) + Depth(r.output) == ModeDepth(r.mode)
    ensures var r := ProcessWord(rules, mode, word);
      (r.mode != mode <==> mode.Normal? && word in rules.regionColors) &&
      (r.mode != mode ==> r.mode == InWordRegion(rules.regionColors[word].regionEnd) &&
                          r.output == [Open(rules.regionColors[word].color)] + Txts(word))
    ensures var r := ProcessWord(rules, mode, word);
      mode.Normal? && word !in rules.regionColors && word in rules.keywordColors ==>
        r.output == [Open(rules.keywordColors[word])] + Txts(word) + [Close]
    ensures var r := ProcessWord(rules, mode, word);
      !mode.Normal? || (word !in rules.regionColors && word !in rules.keywordColors) ==>
        r.output == Txts(word)
  {
    TxtsFacts(word);
    if mode.Normal? && word in rules.regionColors {
      OpenedWord(Open(rules.regionColors[word].color), word);
    } else if mode.Normal? && word in rules.keywordColors {
      ClosedWord(Open(rules.keywordColors[word]), word);
    }
  }

  /** A word after an opening tag. */
  lemma OpenedWord(o: Token, word: string)
    requires o.Open?
    ensures Plain([o] + Txts(word)) == word && Depth([o] + Txts(word)) == 1
    ensures Fits(0, [o] + Txts(word), 1)
  {
    assert Plain([o] + Txts(word)) == word by {
      TxtsFacts(word);
      SingleFacts(o);
      PlainConcat([o], Txts(word));
    }
    assert Depth([o] + Txts(word)) == 1 by {
      TxtsFacts(word);
      SingleFacts(o);
      DepthConcat([o], Txts(word));
    }
    assert Fits(0, [o] + Txts(word), 1) by {
      TxtsFacts(word);
      SingleFacts(o);
      FitsOne(0, o, 1);
      FitsConcat(0, [o], Txts(word), 1);
    }
  }

  /** A word between an opening and a closing tag. */
  lemma ClosedWord(o: Token, word: string)
    requires o.Open?
    ensures Plain([o] + Txts(word) + [Close]) == word && Depth([o] + Txts(word) + [Close]) == 0
    ensures Fits(0, [o] + Txts(word) + [Close], 1)
  {
    OpenedWord(o, word);
    SingleFacts(Close);
    assert Plain([o] + Txts(word) + [Close]) == word by {
      PlainConcat([o] + Txts(word), [Close]);
    }
    assert Depth([o] + Txts(word) + [Close]) == 0 by {
      DepthConcat([o] + Txts(word), [Close]);
    }
    assert Fits(0, [o] + Txts(word) + [Close], 1) by {
      FitsOne(1, Close, 1);
      FitsConcat(0, [o] + Txts(word), [Close], 1);
    }
  }

  /** A trigger fires exactly when it is in the table and is not a word-start trigger met inside a
      word; a firing region trigger emits the character opened and enters the character region, a
      firing non-region trigger emits one wrapped, closed character, and anything else is emitted
      uncoloured. */
  lemma ProcessCharSpec(rules: RuleSet, word: string, c: char)
    ensures var r := ProcessChar(rules, word, c);
      Plain(r.output) == [c] && Fits(0, r.output, 1) && Depth(r.output) == ModeDepth(r.mode)
    ensures var r := ProcessChar(rules, word, c);
      r.fired <==> c in rules.charRegionColors && !(rules.charRegionColors[c].hasToBeWordStart && word != "")
    ensures var r := ProcessChar(rules, word, c);
      !r.fired ==> r.output == [Txt(c)] && r.mode == Normal
    ensures var r := ProcessChar(rules, word, c);
      r.fired && rules.charRegionColors[c].regionEnabled ==>
        r.output == [Open(rules.charRegionColors[c].color), Txt(c)] &&
        r.mode == InCharRegion(rules.charRegionColors[c].regionEnd)
    ensures var r := ProcessChar(rules, word, c);
      r.fired && !rules.charRegionColors[c].regionEnabled ==>
        r.output == [Open(rules.charRegionColors[c].color), Txt(c), Close] && r.mode == Normal
  {
    if c in rules.charRegionColors {
      var rule := rules.charRegionColors[c];
      if rule.hasToBeWordStart && word != "" {
        UncolouredChar(c);
      } else if rule.regionEnabled {
        OpenedChar(Open(rule.color), c);
      } else {
        ClosedChar(Open(rule.color), c);
      }
    } else {
      UncolouredChar(c);
    }
  }

  lemma UncolouredChar(c: char)
    ensures Plain([Txt(c)]) == [c] && Fits(0, [Txt(c)], 1) && Depth([Txt(c)]) == 0
  {
    SingleFacts(Txt(c));
    FitsOne(0, Txt(c), 1);
  }

  /** A character after an opening tag. */
  lemma OpenedChar(o: Token, c: char)
    requires o.Open?
    ensures Plain([o, Txt(c)]) == [c] && Fits(0, [o, Txt(c)], 1) && Depth([o, Txt(c)]) == 1
  {
    SingleFacts(o);
    SingleFacts(Txt(c));
    FitsOne(0, o, 1);
    FitsOne(1, Txt(c), 1);
    Join(0, [o], [Txt(c)], 1);
    assert [o] + [Txt(c)] == [o, Txt(c)];
  }

  /** A character between an opening and a closing tag. */
  lemma ClosedChar(o: Token, c: char)
    requires o.Open?
    ensures Plain([o, Txt(c), Close]) == [c] && Fits(0, [o, Txt(c), Close], 1) && Depth([o, Txt(c), Close]) == 0
  {
    OpenedChar(o, c);
    SingleFacts(Close);
    FitsOne(1, Close, 1);
    Join(0, [o, Txt(c)], [Close], 1);
    assert [o, Txt(c)] + [Close] == [o, Txt(c), Close];
  }

  // ---------------------------------------------------------------------------
  // The scanner's invariants

  /** The scanner holds an invariant it keeps: no word is pending inside a character region. */
  predicate Coherent(s: Scanner) {
    s.mode.InCharRegion? ==> s.word == ""
  }

  /** What one step keeps: no word pending in a character region, the characters emitted followed
      by the pending word are the old pending word and the new character, no span is closed that is
      not open, at most two spans are open at any point, and as many stay open as the new mode holds. */
  predicate StepKeeps(s: Scanner, c: char, s': Scanner, o: seq<Token>) {
    Coherent(s') && Plain(o) + s'.word == s.word + [c] &&
    Fits(ModeDepth(s.mode), o, 2) && ModeDepth(s.mode) + Depth(o) == ModeDepth(s'.mode)
  }

  /** The plain-text bookkeeping of one more step. */
  lemma AppendPlain(p: string, q: string, w': string, w: string, c: char)
    requires q + w' == w + [c]
    ensures (p + q) + w' == (p + w) + [c]
  {
    calc {
      (p + q) + w';
      p + (q + w');
      p + (w + [c]);
      (p + w) + [c];
    }
  }

  /** Pieces that fit, read one after the other. */
  lemma Join(d: int, a: seq<Token>, b: seq<Token>, bound: int)
    requires Fits(d, a, bound) && Fits(d + Depth(a), b, bound)
    ensures Fits(d, a + b, bound) && Depth(a + b) == Depth(a) + Depth(b)
    ensures Plain(a + b) == Plain(a) + Plain(b)
  {
    FitsConcat(d, a, b, bound);
    DepthConcat(a, b);
    PlainConcat(a, b);
  }

  /** A flushed word followed by what a non-region trigger emits keeps the invariant. */
  lemma PlainTriggerKeeps(s: Scanner, c: char, pw: WordResult, o: seq<Token>)
    requires s.mode.Normal?
    requires Plain(pw.output) == s.word && Fits(0, pw.output, 1) && Depth(pw.output) == ModeDepth(pw.mode)
    requires Plain(o) == [c] && Fits(0, o, 1) && Depth(o) == 0
    ensures StepKeeps(s, c, Scanner(pw.mode, ""), pw.output + o)
  {
    FitsWiden(0, pw.output, 1, 2);
    if pw.mode.Normal? {
      FitsWiden(0, o, 1, 2);
    } else {
      FitsShift(0, o, 1);
    }
    Join(0, pw.output, o, 2);
  }

  /** A trigger that does not open a region fired: the pending word is flushed, then the coloured
      character follows, possibly inside the region the word opened. */
  lemma StepPlainTrigger(rules: RuleSet, s: Scanner, c: char)
    requires s.mode.Normal?
    requires ProcessChar(rules, s.word, c).fired && ProcessChar(rules, s.word, c).mode.Normal?
    ensures StepKeeps(s, c, Step(rules, s, c).0, Step(rules, s, c).1)
  {
    var pc := ProcessChar(rules, s.word, c);
    var pw := ProcessWord(rules, Normal, s.word);
    assert Step(rules, s, c) == (Scanner(pw.mode, ""), pw.output + pc.output);
    ProcessCharSpec(rules, s.word, c);
    ProcessWordSpec(rules, Normal, s.word);
    PlainTriggerKeeps(s, c, pw, pc.output);
  }

  /** The pending word verbatim followed by what a region trigger emits keeps the invariant. */
  lemma RegionTriggerKeeps(s: Scanner, c: char, o: seq<Token>, m: Mode)
    requires s.mode.Normal? && m.InCharRegion?
    requires Plain(o) == [c] && Fits(0, o, 1) && Depth(o) == ModeDepth(m)
    ensures StepKeeps(s, c, Scanner(m, ""), Txts(s.word) + o)
  {
    TxtsFacts(s.word);
    FitsWiden(0, o, 1, 2);
    Join(0, Txts(s.word), o, 2);
  }

  /** A region trigger fired: the pending word is emitted verbatim and the character region opens. */
  lemma StepRegionTrigger(rules: RuleSet, s: Scanner, c: char)
    requires s.mode.Normal?
    requires ProcessChar(rules, s.word, c).fired && !ProcessChar(rules, s.word, c).mode.Normal?
    ensures StepKeeps(s, c, Step(rules, s, c).0, Step(rules, s, c).1)
  {
    var pc := ProcessChar(rules, s.word, c);
    assert Step(rules, s, c) == (Scanner(pc.mode, ""), Txts(s.word) + pc.output);
    ProcessCharSpec(rules, s.word, c);
    RegionTriggerKeeps(s, c, pc.output, pc.mode);
  }

  /** A break character that is not a firing trigger: the pending word is flushed and the break
      follows uncoloured (the second SyntaxProcessChar call sees what the first saw, so it does
      not fire either). */
  lemma StepBreak(rules: RuleSet, s: Scanner, c: char)
    requires s.mode.Normal? && !ProcessChar(rules, s.word, c).fired && c in rules.wordEndSymbols
    ensures var pw := ProcessWord(rules, Normal, s.word);
      Step(rules, s, c) == (Scanner(pw.mode, ""), pw.output + [Txt(c)])
    ensures StepKeeps(s, c, Step(rules, s, c).0, Step(rules, s, c).1)
  {
    var pw := ProcessWord(rules, Normal, s.word);
    assert Step(rules, s, c) == (Scanner(pw.mode, ""), pw.output + [Txt(c)]);
    FlushThenBreak(rules, s, c);
  }

  lemma FlushThenBreak(rules: RuleSet, s: Scanner, c: char)
    requires s.mode.Normal?
    ensures var pw := ProcessWord(rules, Normal, s.word);
      StepKeeps(s, c, Scanner(pw.mode, ""), pw.output + [Txt(c)])
  {
    var pw := ProcessWord(rules, Normal, s.word);
    ProcessWordSpec(rules, Normal, s.word);
    SingleFacts(Txt(c));
    FitsWiden(0, pw.output, 1, 2);
    FitsOne(ModeDepth(pw.mode), Txt(c), 2);
    Join(0, pw.output, [Txt(c)], 2);
  }

  lemma StepNormal(rules: RuleSet, s: Scanner, c: char)
    requires s.mode.Normal?
    ensures StepKeeps(s, c, Step(rules, s, c).0, Step(rules, s, c).1)
  {
    var pc := ProcessChar(rules, s.word, c);
    if pc.fired && pc.mode.Normal? {
      StepPlainTrigger(rules, s, c);
    } else if pc.fired {
      StepRegionTrigger(rules, s, c);
    } else if c in rules.wordEndSymbols {
      StepBreak(rules, s, c);
    } else {
      assert Step(rules, s, c) == (Scanner(Normal, s.word + [c]), []);
      FitsEmpty(0, 2);
    }
  }

  /** What closing a word region on its end word emits keeps the invariant. */
  lemma RegionEndKeeps(s: Scanner, c: char)
    requires s.mode.InWordRegion?
    ensures StepKeeps(s, c, Scanner(Normal, ""), Txts(s.word) + [Close, Txt(c)])
  {
    TxtsFacts(s.word);
    SingleFacts(Txt(c));
    SingleFacts(Close);
    FitsOne(1, Close, 2);
    FitsOne(0, Txt(c), 2);
    Join(1, [Close], [Txt(c)], 2);
    assert [Close] + [Txt(c)] == [Close, Txt(c)];
    Join(1, Txts(s.word), [Close, Txt(c)], 2);
  }

  /** The end word followed by a break character closes the word region. */
  lemma StepRegionEnd(rules: RuleSet, s: Scanner, c: char)
    requires s.mode.InWordRegion? && c in rules.wordEndSymbols && s.word == s.mode.endWord
    ensures StepKeeps(s, c, Step(rules, s, c).0, Step(rules, s, c).1)
  {
    assert Step(rules, s, c) == (Scanner(Normal, ""), Txts(s.word) + [Close, Txt(c)]);
    RegionEndKeeps(s, c);
  }

  /** Any other word followed by a break character stays inside the region, verbatim. */
  lemma StepRegionBreak(rules: RuleSet, s: Scanner, c: char)
    requires s.mode.InWordRegion? && c in rules.wordEndSymbols && s.word != s.mode.endWord
    ensures StepKeeps(s, c, Step(rules, s, c).0, Step(rules, s, c).1)
  {
    assert Step(rules, s, c) == (Scanner(s.mode, ""), Txts(s.word) + [Txt(c)]);
    TxtsFacts(s.word);
    SingleFacts(Txt(c));
    FitsOne(1, Txt(c), 2);
    Join(1, Txts(s.word), [Txt(c)], 2);
  }

  lemma StepWordRegion(rules: RuleSet, s: Scanner, c: char)
    requires s.mode.InWordRegion?
    ensures StepKeeps(s, c, Step(rules, s, c).0, Step(rules, s, c).1)
  {
    if c !in rules.wordEndSymbols {
      assert Step(rules, s, c) == (Scanner(s.mode, s.word + [c]), []);
      FitsEmpty(1, 2);
    } else if s.word == s.mode.endWord {
      StepRegionEnd(rules, s, c);
    } else {
      StepRegionBreak(rules, s, c);
    }
  }

  lemma StepCharRegion(rules: RuleSet, s: Scanner, c: char)
    requires s.mode.InCharRegion? && Coherent(s)
    ensures StepKeeps(s, c, Step(rules, s, c).0, Step(rules, s, c).1)
  {
    if c == s.mode.endChar {
      assert Step(rules, s, c) == (Scanner(Normal, ""), [Txt(c), Close]);
      CharRegionCloseKeeps(s, c);
    } else {
      assert Step(rules, s, c) == (s, [Txt(c)]);
      SingleFacts(Txt(c));
      FitsOne(1, Txt(c), 2);
    }
  }

  /** The end character of a character region, emitted and closed, keeps the invariant. */
  lemma CharRegionCloseKeeps(s: Scanner, c: char)
    requires s.mode.InCharRegion? && s.word == ""
    ensures StepKeeps(s, c, Scanner(Normal, ""), [Txt(c), Close])
  {
    SingleFacts(Txt(c));
    SingleFacts(Close);
    FitsOne(1, Txt(c), 2);
    FitsOne(1, Close, 2);
    Join(1, [Txt(c)], [Close], 2);
    assert [Txt(c)] + [Close] == [Txt(c), Close];
  }

  /** Every step keeps the scanner's invariant. */
  lemma StepInvariant(rules: RuleSet, s: Scanner, c: char)
    requires Coherent(s)
    ensures StepKeeps(s, c, Step(rules, s, c).0, Step(rules, s, c).1)
  {
    match s.mode
    case Normal => StepNormal(rules, s, c);
    case InWordRegion(_) => StepWordRegion(rules, s, c);
    case InCharRegion(_) => StepCharRegion(rules, s, c);
  }

  /** What holds after a prefix of a line: no word pending in a character region, the plain text
      emitted followed by the pending word is the prefix, and the output is balanced up to the spans
      the mode holds open. */
  predicate RunKeeps(line: string, s: Scanner, out: seq<Token>) {
    Coherent(s) && Plain(out) + s.word == line && Fits(0, out, 2) && Depth(out) == ModeDepth(s.mode)
  }

  /** A kept prefix state stays kept after one more step. */
  lemma RunKeepsStep(line: string, c: char, s: Scanner, out: seq<Token>, s': Scanner, o: seq<Token>)
    requires RunKeeps(line, s, out) && StepKeeps(s, c, s', o)
    ensures RunKeeps(line + [c], s', out + o)
  {
    Join(0, out, o, 2);
    AppendPlain(Plain(out), Plain(o), s'.word, s.word, c);
  }

  /** Every prefix of a line keeps the invariant. */
  lemma {:induction false} RunInvariant(rules: RuleSet, line: string)
    ensures RunKeeps(line, Run(rules, line).0, Run(rules, line).1)
    decreases |line|
  {
    if line == [] {
      FitsEmpty(0, 2);
    } else {
      var line', c := line[..|line| - 1], line[|line| - 1];
      assert line' + [c] == line;
      RunInvariant(rules, line');
      var prev := Run(rules, line');
      var next := Step(rules, prev.0, c);
      assert Run(rules, line) == (next.0, prev.1 + next.1);
      StepInvariant(rules, prev.0, c);
      RunKeepsStep(line', c, prev.0, prev.1, next.0, next.1);
    }
  }

  /** What the end of the line achieves: it emits the pending word, fits within two spans and closes
      every span the mode holds open. */
  predicate FinishKeeps(s: Scanner, f: seq<Token>) {
    Plain(f) == s.word && Fits(ModeDepth(s.mode), f, 2) && ModeDepth(s.mode) + Depth(f) == 0
  }

  /** A flushed pending word, followed by the closing tag of the word region it leaves open. */
  lemma FlushedKeeps(s: Scanner, pw: WordResult)
    requires !s.mode.InCharRegion? && !pw.mode.InCharRegion?
    requires Plain(pw.output) == s.word && Fits(ModeDepth(s.mode), pw.output, 1)
    requires ModeDepth(s.mode) + Depth(pw.output) == ModeDepth(pw.mode)
    ensures FinishKeeps(s, pw.output + (if pw.mode.InWordRegion? then [Close] else []))
  {
    var closeWord := if pw.mode.InWordRegion? then [Close] else [];
    FitsWiden(ModeDepth(s.mode), pw.output, 1, 2);
    SingleFacts(Close);
    if pw.mode.InWordRegion? {
      FitsOne(1, Close, 2);
    } else {
      FitsEmpty(0, 2);
    }
    Join(ModeDepth(s.mode), pw.output, closeWord, 2);
  }

  /** Flushing the pending word at the end of the line, then closing a word region that is open. */
  lemma FlushAndClose(rules: RuleSet, s: Scanner)
    requires !s.mode.InCharRegion?
    ensures var flushed := if s.word != "" then ProcessWord(rules, s.mode, s.word) else WordResult([], s.mode);
      FinishKeeps(s, flushed.output + (if flushed.mode.InWordRegion? then [Close] else []))
  {
    if s.word == "" {
      FitsEmpty(ModeDepth(s.mode), 1);
      FlushedKeeps(s, WordResult([], s.mode));
    } else {
      ProcessWordSpec(rules, s.mode, s.word);
      FlushedKeeps(s, ProcessWord(rules, s.mode, s.word));
    }
  }

  lemma FinishInvariant(rules: RuleSet, s: Scanner)
    requires Coherent(s)
    ensures FinishKeeps(s, Finish(rules, s))
  {
    if s.mode.InCharRegion? {
      assert Finish(rules, s) == [Close];
      SingleFacts(Close);
      FitsOne(1, Close, 2);
    } else {
      var flushed := if s.word != "" then ProcessWord(rules, s.mode, s.word) else WordResult([], s.mode);
      var closeWord := if flushed.mode.InWordRegion? then [Close] else [];
      assert Finish(rules, s) == [] + flushed.output + closeWord;
      assert [] + flushed.output + closeWord == flushed.output + closeWord;
      FlushAndClose(rules, s);
    }
  }

  // ---------------------------------------------------------------------------
  // Properties of a highlighted line

  /** Erasing the tags gives the line back: every character is emitted once, in order. */
  lemma Erasure(rules: RuleSet, line: string)
    ensures Plain(Highlight(rules, line)) == line
  {
    RunInvariant(rules, line);
    var (s, out) := Run(rules, line);
    FinishInvariant(rules, s);
    PlainConcat(out, Finish(rules, s));
  }

  /** The tags are balanced: no prefix closes a span that is not open, at most two spans are open at
      any point, and every span is closed at the end, unterminated regions included. */
  lemma Balanced(rules: RuleSet, line: string)
    ensures var ts := Highlight(rules, line);
      Depth(ts) == 0 && forall j :: 0 <= j <= |ts| ==> 0 <= Depth(ts[..j]) <= 2
  {
    RunInvariant(rules, line);
    var (s, out) := Run(rules, line);
    FinishInvariant(rules, s);
    DepthConcat(out, Finish(rules, s));
    FitsConcat(0, out, Finish(rules, s), 2);
    FitsPrefixes(0, Highlight(rules, line), 2);
  }

  /** Run reads the line one character at a time. */
  lemma RunSnoc(rules: RuleSet, line: string, c: char)
    ensures var prev := Run(rules, line); var next := Step(rules, prev.0, c);
      Run(rules, line + [c]) == (next.0, prev.1 + next.1)
  {
    assert (line + [c])[..|line + [c]| - 1] == line;
  }

  /** A character that is neither a trigger nor a break starts the pending word. */
  lemma RunFirstWordChar(rules: RuleSet, h: char)
    requires h !in rules.charRegionColors && h !in rules.wordEndSymbols
    ensures Run(rules, [h]) == (Scanner(Normal, [h]), [])
  {
    var empty: string := [];
    RunSnoc(rules, empty, h);
    assert empty + [h] == [h];
    assert Run(rules, empty) == (Initial, []);
    assert ProcessChar(rules, empty, h).fired == false;
    var st := Step(rules, Initial, h);
    assert st == (Scanner(Normal, empty + [h]), []);
    var r0 := Run(rules, empty);
    assert Run(rules, [h]) == (Step(rules, r0.0, h).0, r0.1 + Step(rules, r0.0, h).1);
    assert r0.0 == Initial;
    assert Run(rules, [h]).0 == Scanner(Normal, [h]);
    assert Run(rules, [h]).1 == r0.1 + st.1;
    var e: seq<Token> := [];
    assert r0.1 == e && st.1 == e;
    assert r0.1 + st.1 == e;
  }

  /** The preconditions of NestedSpans: a one-character region-start word h, and a trigger t that
      does not open a region and may fire inside a word. */
  predicate NestingPair(rules: RuleSet, h: char, t: char) {
    [h] in rules.regionColors && h !in rules.charRegionColors && h !in rules.wordEndSymbols &&
    t in rules.charRegionColors &&
    !rules.charRegionColors[t].regionEnabled && !rules.charRegionColors[t].hasToBeWordStart
  }

  /** The trigger after the word: the word opens its region, then the trigger's span follows. */
  lemma RunNestingPair(rules: RuleSet, h: char, t: char)
    requires NestingPair(rules, h, t)
    ensures Run(rules, [h, t]) ==
      (Scanner(InWordRegion(rules.regionColors[[h]].regionEnd), ""),
       [Open(rules.regionColors[[h]].color), Txt(h)] + [Open(rules.charRegionColors[t].color), Txt(t), Close])
  {
    RunFirstWordChar(rules, h);
    var open := [Open(rules.regionColors[[h]].color), Txt(h)];
    var op := [Open(rules.charRegionColors[t].color), Txt(t), Close];
    var endWord := rules.regionColors[[h]].regionEnd;
    assert Txts([h]) == [Txt(h)];
    assert ProcessWord(rules, Normal, [h]) == WordResult(open, InWordRegion(endWord));
    assert ProcessChar(rules, [h], t) == CharResult(true, op, Normal);
    var st := Step(rules, Scanner(Normal, [h]), t);
    assert st == (Scanner(InWordRegion(endWord), ""), open + op);
    RunSnoc(rules, [h], t);
    assert [h] + [t] == [h, t];
    var e: seq<Token> := [];
    assert Run(rules, [h, t]) == (st.0, e + st.1);
    assert e + st.1 == open + op;
  }

  /** The tokens of a region word followed by a closed trigger span and the region's close: two
      spans are open after the third token. */
  lemma TwoOpen(a: Color, h: char, b: Color, t: char)
    ensures var ts := [Open(a), Txt(h)] + [Open(b), Txt(t), Close] + [Close];
      ts == [Open(a), Txt(h), Open(b), Txt(t), Close, Close] && Depth(ts[..3]) == 2
  {
    var ts := [Open(a), Txt(h)] + [Open(b), Txt(t), Close] + [Close];
    assert ts == [Open(a), Txt(h), Open(b), Txt(t), Close, Close];
    var p := ts[..3];
    assert p == [Open(a), Txt(h), Open(b)];
    assert p[1..] == [Txt(h), Open(b)] && p[1..][1..] == [Open(b)] && p[1..][1..][1..] == [];
    assert Depth(p[1..][1..]) == 1;
  }

  /** Two spans can be open at once: a one-character region-start word directly followed by a trigger
      that does not open a region nests the trigger's span inside the region's. */
  lemma NestedSpans(rules: RuleSet, h: char, t: char)
    requires NestingPair(rules, h, t)
    ensures var ts := Highlight(rules, [h, t]);
      ts == [Open(rules.regionColors[[h]].color), Txt(h), Open(rules.charRegionColors[t].color), Txt(t),
             Close, Close] &&
      Depth(ts[..3]) == 2
  {
    RunNestingPair(rules, h, t);
    var endWord := rules.regionColors[[h]].regionEnd;
    var a, b := rules.regionColors[[h]].color, rules.charRegionColors[t].color;
    var e: seq<Token> := [];
    assert Finish(rules, Scanner(InWordRegion(endWord), "")) == e + e + [Close];
    assert Highlight(rules, [h, t]) == [Open(a), Txt(h)] + [Open(b), Txt(t), Close] + (e + e + [Close]);
    assert e + e + [Close] == [Close];
    TwoOpen(a, h, b, t);
  }

  /** "#" starts a comment region under the default rules. */
  lemma DefaultHash()
    ensures var rules := AddDefaultSyntaxColoring(EmptyRules);
      "#" in rules.regionColors && rules.regionColors["#"].color == CommentColor
  {
    assert "#" in DefaultRegions && DefaultRegions["#"].color == CommentColor;
  }

  /** '#' neither triggers nor breaks a word under the default rules. */
  lemma DefaultHashPlain()
    ensures var rules := AddDefaultSyntaxColoring(EmptyRules);
      '#' !in rules.charRegionColors && '#' !in rules.wordEndSymbols
  {
    assert '#' !in DefaultCharRules;
    assert '#' !in DefaultWordEnds;
  }

  /** '(' is an operator trigger under the default rules. */
  lemma DefaultParen()
    ensures var rules := AddDefaultSyntaxColoring(EmptyRules);
      '(' in rules.charRegionColors && rules.charRegionColors['('] == Operator
  {
    assert '(' in DefaultCharRules && DefaultCharRules['('] == Operator;
  }

  /** Under the default rules the comment start "#" followed by "(" is such a line. */
  lemma DefaultRulesNest()
    ensures var ts := Highlight(AddDefaultSyntaxColoring(EmptyRules), "#(");
      ts == [Open(CommentColor), Txt('#'), Open(OperatorColor), Txt('('), Close, Close] &&
      Depth(ts[..3]) == 2
  {
    var rules := AddDefaultSyntaxColoring(EmptyRules);
    assert "#" == ['#'] && "#(" == ['#', '('];
    DefaultHash();
    DefaultHashPlain();
    DefaultParen();
    assert NestingPair(rules, '#', '(');
    NestedSpans(rules, '#', '(');
  }

  /** A character region closes right after its end character, and the scanner is back outside any
      region with nothing pending. */
  lemma CharRegionExit(rules: RuleSet, s: Scanner, c: char)
    requires s.mode.InCharRegion? && Coherent(s)
    ensures var (s', o) := Step(rules, s, c);
      (c == s.mode.endChar ==> s' == Initial && o == [Txt(c), Close]) &&
      (c != s.mode.endChar ==> s' == s && o == [Txt(c)])
  {
  }

  /** A word region closes only when a word equal to its end word is followed by a break character. */
  lemma WordRegionExit(rules: RuleSet, s: Scanner, c: char)
    requires s.mode.InWordRegion?
    ensures var (s', o) := Step(rules, s, c);
      s'.mode.Normal? <==> (c in rules.wordEndSymbols && s.word == s.mode.endWord)
    ensures var (s', o) := Step(rules, s, c);
      s'.mode.Normal? ==> o == Txts(s.word) + [Close, Txt(c)]
  {
  }

  // ---------------------------------------------------------------------------
  // A worked line

  /** Keyword "if" in colour a, '=' a trigger in colour b that opens no region, and the breaks ' '
      and '='. */
  function SampleRules(a: Color, b: Color): RuleSet {
    RuleSet(map["if" := a], map[], map['=' := CharRegionRule('\n', false, false, b)], {' ', '='})
  }

  /** Outside any region, a character that neither triggers nor breaks joins the pending word. */
  lemma StepWordChar(rules: RuleSet, w: string, c: char)
    requires c !in rules.charRegionColors && c !in rules.wordEndSymbols
    ensures Step(rules, Scanner(Normal, w), c) == (Scanner(Normal, w + [c]), [])
  {
    assert !ProcessChar(rules, w, c).fired;
  }

  lemma SampleBreak(a: Color, b: Color)
    ensures Step(SampleRules(a, b), Scanner(Normal, "if"), ' ') ==
            (Scanner(Normal, ""), [Open(a), Txt('i'), Txt('f'), Close, Txt(' ')])
  {
    var r := SampleRules(a, b);
    assert Txts("if") == [Txt('i'), Txt('f')];
    assert !ProcessChar(r, "if", ' ').fired;
    assert ProcessWord(r, Normal, "if") == WordResult([Open(a), Txt('i'), Txt('f'), Close], Normal);
    assert [Open(a), Txt('i'), Txt('f'), Close] + [Txt(' ')] == [Open(a), Txt('i'), Txt('f'), Close, Txt(' ')];
  }

  lemma SampleTrigger(a: Color, b: Color)
    ensures Step(SampleRules(a, b), Scanner(Normal, "x"), '=') ==
            (Scanner(Normal, ""), [Txt('x'), Open(b), Txt('='), Close])
  {
    var r := SampleRules(a, b);
    assert Txts("x") == [Txt('x')];
    assert "x" !in r.regionColors && "x" !in r.keywordColors;
    assert ProcessWord(r, Normal, "x") == WordResult([Txt('x')], Normal);
    assert ProcessChar(r, "x", '=') == CharResult(true, [Open(b), Txt('='), Close], Normal);
    assert [Txt('x')] + [Open(b), Txt('='), Close] == [Txt('x'), Open(b), Txt('='), Close];
  }

  lemma SampleSteps(a: Color, b: Color)
    ensures Run(SampleRules(a, b), "if ") == (Scanner(Normal, ""), [Open(a), Txt('i'), Txt('f'), Close, Txt(' ')])
  {
    var r := SampleRules(a, b);
    var e: seq<Token> := [];
    RunFirstWordChar(r, 'i');
    assert "i" == ['i'];
    RunSnoc(r, "i", 'f');
    assert "i" + ['f'] == "if";
    StepWordChar(r, "i", 'f');
    assert Run(r, "if") == (Scanner(Normal, "if"), e + e);
    RunSnoc(r, "if", ' ');
    assert "if" + [' '] == "if ";
    SampleBreak(a, b);
    var out := [Open(a), Txt('i'), Txt('f'), Close, Txt(' ')];
    assert (e + e) + out == out;
  }

  lemma SampleStepsMid(a: Color, b: Color)
    ensures Run(SampleRules(a, b), "if x=") ==
            (Scanner(Normal, ""), [Open(a), Txt('i'), Txt('f'), Close, Txt(' '), Txt('x'), Open(b), Txt('='), Close])
  {
    var r := SampleRules(a, b);
    var e: seq<Token> := [];
    var head := [Open(a), Txt('i'), Txt('f'), Close, Txt(' ')];
    SampleSteps(a, b);
    RunSnoc(r, "if ", 'x');
    assert "if " + ['x'] == "if x";
    StepWordChar(r, "", 'x');
    assert "" + ['x'] == "x";
    assert Run(r, "if x") == (Scanner(Normal, "x"), head + e);
    assert head + e == head;
    RunSnoc(r, "if x", '=');
    assert "if x" + ['='] == "if x=";
    SampleTrigger(a, b);
    assert head + [Txt('x'), Open(b), Txt('='), Close] ==
           [Open(a), Txt('i'), Txt('f'), Close, Txt(' '), Txt('x'), Open(b), Txt('='), Close];
  }

  lemma SampleStepsRest(a: Color, b: Color)
    ensures Run(SampleRules(a, b), "if x=1") ==
            (Scanner(Normal, "1"), [Open(a), Txt('i'), Txt('f'), Close, Txt(' '), Txt('x'), Open(b), Txt('='), Close])
  {
    var r := SampleRules(a, b);
    var e: seq<Token> := [];
    var mid := [Open(a), Txt('i'), Txt('f'), Close, Txt(' '), Txt('x'), Open(b), Txt('='), Close];
    SampleStepsMid(a, b);
    RunSnoc(r, "if x=", '1');
    assert "if x=" + ['1'] == "if x=1";
    StepWordChar(r, "", '1');
    assert "" + ['1'] == "1";
    assert mid + e == mid;
  }

  /** Uncoloured text renders as itself. */
  lemma {:induction false} RenderTxts(s: string)
    ensures Render(Txts(s)) == s
    decreases |s|
  {
    if s != [] {
      RenderTxts(s[1..]);
      assert Txts(s)[1..] == Txts(s[1..]);
      assert [s[0]] + s[1..] == s;
    }
  }

  /** The tokens of "if x=1" under SampleRules. */
  lemma SampleTokens(a: Color, b: Color)
    ensures Highlight(SampleRules(a, b), "if x=1") ==
            [Open(a), Txt('i'), Txt('f'), Close, Txt(' '), Txt('x'), Open(b), Txt('='), Close, Txt('1')]
  {
    var r := SampleRules(a, b);
    SampleStepsRest(a, b);
    assert Txts("1") == [Txt('1')];
    assert Finish(r, Scanner(Normal, "1")) == [] + [Txt('1')] + [];
  }

  /** A coloured word renders as the word between an opening and a closing colour tag. */
  lemma RenderSpan(c: Color, w: string)
    ensures Render([Open(c)] + Txts(w) + [Close]) == "[color=#" + c.html + "]" + w + "[/color]"
  {
    var e: seq<Token> := [];
    var open := "[color=#" + c.html + "]";
    RenderSnoc(e, Open(c));
    assert e + [Open(c)] == [Open(c)];
    assert Render([Open(c)]) == open;
    RenderConcat([Open(c)], Txts(w));
    RenderTxts(w);
    assert Render([Open(c)] + Txts(w)) == open + w;
    RenderSnoc([Open(c)] + Txts(w), Close);
  }
}
