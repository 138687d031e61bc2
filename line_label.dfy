/** One line of the editor (Custom_TextEdit_RichTextLabel): the line's text and the markup its
    rich-text label shows, highlighted or verbatim. */
module LineLabel {
  import opened SyntaxRules
  import opened Colorizer

  /** The markup shown for a text: the highlighter's output, or the text itself when highlighting
      is off. It depends on the text and the rules only. */
  function Markup(applySyntaxHighlight: bool, rules: RuleSet, text: string): string {
    if applySyntaxHighlight then Render(Highlight(rules, text)) else text
  }

  class Label {
    var lineText: string
    var applySyntaxHighlight: bool
    var bbcodeText: string

    /** The label shows the markup of its text. */
    predicate Shows(rules: RuleSet)
      reads this
    {
      bbcodeText == Markup(applySyntaxHighlight, rules, lineText)
    }

    /** A new label: empty text, highlighting on, and the markup its _Ready computes. */
    constructor (rules: RuleSet)
      ensures lineText == "" && applySyntaxHighlight && Shows(rules)
    {
      lineText := "";
      applySyntaxHighlight := true;
      new;
      bbcodeText := HighlightLine(rules, lineText);
    }

    /** UpdateLineText: recompute the markup; the scanner starts afresh, so the result depends on
        the text and the rules and on nothing an earlier line left behind. */
    method UpdateLineText(rules: RuleSet)
      modifies this
      ensures lineText == old(lineText) && applySyntaxHighlight == old(applySyntaxHighlight)
      ensures Shows(rules)
    {
      if applySyntaxHighlight {
        bbcodeText := HighlightLine(rules, lineText);
      } else {
        bbcodeText := lineText;
      }
    }

    /** SetLineText: store the text and recompute the markup. */
    method SetLineText(newText: string, rules: RuleSet)
      modifies this
      ensures lineText == newText && applySyntaxHighlight == old(applySyntaxHighlight)
      ensures Shows(rules)
    {
      lineText := newText;
      UpdateLineText(rules);
    }
  }
}
