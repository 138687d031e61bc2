/** The colorizer's rule tables (KeywordColors, KeywordRegionColors, KeywordCharRegionColors,
    KeywordWordEndSymbols) and the builders that fill them. */
module SyntaxRules {

  /** A colour, kept opaque: the markup only shows it as the `ToHtml()` string held here. */
  datatype Color = Color(html: string)

  /** SyntaxInfoRegion: the word that ends a word region, and its colour. */
  datatype RegionRule = RegionRule(regionEnd: string, color: Color)

  /** SyntaxInfoCharRegion: a one-character trigger, which either colours itself only or, when
      regionEnabled, opens a region ending at regionEnd; hasToBeWordStart keeps it from firing
      inside a word. */
  datatype CharRegionRule = CharRegionRule(regionEnd: char, regionEnabled: bool, hasToBeWordStart: bool, color: Color)

  datatype RuleSet = RuleSet(
    keywordColors: map<string, Color>,
    regionColors: map<string, RegionRule>,
    charRegionColors: map<char, CharRegionRule>,
    wordEndSymbols: set<char>)

  /** The tables of a freshly created editor. */
  const EmptyRules: RuleSet := RuleSet(map[], map[], map[], {})

  /** AddKeywordColor: the keyword gets the colour, replacing an earlier entry; nothing else changes. */
  function AddKeywordColor(rules: RuleSet, keyword: string, color: Color): (r: RuleSet)
    ensures keyword in r.keywordColors && r.keywordColors[keyword] == color
    ensures forall k :: k in rules.keywordColors && k != keyword ==>
              k in r.keywordColors && r.keywordColors[k] == rules.keywordColors[k]
    ensures forall k :: k in r.keywordColors ==> k == keyword || k in rules.keywordColors
    ensures r.regionColors == rules.regionColors && r.charRegionColors == rules.charRegionColors
    ensures r.wordEndSymbols == rules.wordEndSymbols
  {
    rules.(keywordColors := rules.keywordColors[keyword := color])
  }

  /** AddKeywordRegionColor: the word opens a region closed by endKeyword (a newline unless
      given, which no word of a line can equal); an earlier entry is replaced. */
  function AddKeywordRegionColor(rules: RuleSet, keyword: string, color: Color, endKeyword: string := "\n"): (r: RuleSet)
    ensures keyword in r.regionColors && r.regionColors[keyword] == RegionRule(endKeyword, color)
    ensures forall k :: k in rules.regionColors && k != keyword ==>
              k in r.regionColors && r.regionColors[k] == rules.regionColors[k]
    ensures forall k :: k in r.regionColors ==> k == keyword || k in rules.regionColors
    ensures r.keywordColors == rules.keywordColors && r.charRegionColors == rules.charRegionColors
    ensures r.wordEndSymbols == rules.wordEndSymbols
  {
    rules.(regionColors := rules.regionColors[keyword := RegionRule(endKeyword, color)])
  }

  /** AddKeywordCharRegionColor: the character becomes a trigger; by default it colours only
      itself and may fire inside a word. An earlier entry is replaced. */
  function AddKeywordCharRegionColor(rules: RuleSet, keyword: char, color: Color, endChar: char := '\n',
                                     useEndChar: bool := false, hasToBeWordStart: bool := false): (r: RuleSet)
    ensures keyword in r.charRegionColors
    ensures r.charRegionColors[keyword] == CharRegionRule(endChar, useEndChar, hasToBeWordStart, color)
    ensures forall k :: k in rules.charRegionColors && k != keyword ==>
              k in r.charRegionColors && r.charRegionColors[k] == rules.charRegionColors[k]
    ensures forall k :: k in r.charRegionColors ==> k == keyword || k in rules.charRegionColors
    ensures r.keywordColors == rules.keywordColors && r.regionColors == rules.regionColors
    ensures r.wordEndSymbols == rules.wordEndSymbols
  {
    rules.(charRegionColors := rules.charRegionColors[keyword := CharRegionRule(endChar, useEndChar, hasToBeWordStart, color)])
  }

  /** AddKeywordEndSymbol: the character ends words from now on. */
  function AddKeywordEndSymbol(rules: RuleSet, symbol: char): (r: RuleSet)
    ensures r.wordEndSymbols == rules.wordEndSymbols + {symbol}
    ensures r.keywordColors == rules.keywordColors && r.regionColors == rules.regionColors
    ensures r.charRegionColors == rules.charRegionColors
  {
    rules.(wordEndSymbols := rules.wordEndSymbols + {symbol})
  }

  const KeywordColor: Color := Color("ffeea6")
  const SupportColor: Color := Color("e1a6f2")
  const OperatorColor: Color := Color("ac8d58")
  const CommentColor: Color := Color("777c85")
  const StringColor: Color := Color("92d192")

  /** Keywords and support words. */
  const DefaultKeywords: map<string, Color> := map[
    "var" := KeywordColor, "func" := KeywordColor, "if" := KeywordColor, "elif" := KeywordColor,
    "else" := KeywordColor, "const" := KeywordColor, "class_name" := KeywordColor,
    "extends" := KeywordColor, "onready" := KeywordColor, "for" := KeywordColor,
    "null" := SupportColor, "true" := SupportColor, "false" := SupportColor]

  /** Comments: "//" and "#" run to the end of the line (their end word is a newline), "/*" to
      the word "*/". */
  const DefaultRegions: map<string, RegionRule> := map[
    "//" := RegionRule("\n", CommentColor),
    "/*" := RegionRule("*/", CommentColor),
    "#" := RegionRule("\n", CommentColor)]

  /** A digit colours itself at the start of a word only. */
  const Digit: CharRegionRule := CharRegionRule('\n', false, true, SupportColor)
  /** An operator or bracket colours itself wherever it stands. */
  const Operator: CharRegionRule := CharRegionRule('\n', false, false, OperatorColor)

  /** Numbers, operators, and the string regions opened by '"' (closed by '"') and by '$' for
      get_node paths (closed by ' '). */
  const DefaultCharRules: map<char, CharRegionRule> := map[
    '1' := Digit, '2' := Digit, '3' := Digit, '4' := Digit, '5' := Digit,
    '6' := Digit, '7' := Digit, '8' := Digit, '9' := Digit, '0' := Digit,
    '+' := Operator, '-' := Operator, '*' := Operator, '=' := Operator, '<' := Operator,
    '>' := Operator, '.' := Operator, '!' := Operator, '|' := Operator, ';' := Operator,
    ':' := Operator, '(' := Operator, ')' := Operator, '[' := Operator, ']' := Operator,
    '{' := Operator, '}' := Operator,
    '"' := CharRegionRule('"', true, false, StringColor),
    '$' := CharRegionRule(' ', true, false, StringColor)]

  /** The characters that end a word. */
  const DefaultWordEnds: set<char> :=
    {' ', '.', '\t', '+', '-', '=', '<', '>', '!', '|', ';', ':', '(', ')', '[', ']', '{', '}', '\n'}

  /** AddDefaultSyntaxColoring without the Godot class names: the net effect of its builder
      calls, each of which adds or replaces one entry (no key is added twice, so the order of
      the calls does not matter). */
  function AddDefaultSyntaxColoring(rules: RuleSet): RuleSet {
    RuleSet(rules.keywordColors + DefaultKeywords,
            rules.regionColors + DefaultRegions,
            rules.charRegionColors + DefaultCharRules,
            rules.wordEndSymbols + DefaultWordEnds)
  }
}
