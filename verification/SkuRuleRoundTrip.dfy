/** A canonical printer for compiled SKU rules, and the proof that compiling its text gives the rule
    back. The printer may spell each string by any JSON literal without a raw `>`: the `when` line is
    split at the first `=>`, so a raw `>` after an `=` inside a string would end the conditions. */
module SkuRuleRoundTrip {
  import opened Wrappers
  import opened CodeUnits
  import opened WhiteSpace
  import opened JsonStrings
  import opened JsonGrammar
  import opened SkuTemplates
  import opened ConjunctionSplitter
  import opened SkuRules
  import opened SkuConditionGrammar
  import opened TemplateReadings
  import opened SkuRuleGrammar
  import opened SkuSourceGrammar

  // ----- valid rules -----

  ghost predicate AllDistinct(values: seq<Text>) {
    forall i, j :: 0 <= i < j < |values| ==> values[i] != values[j]
  }

  ghost predicate ValidCondition(c: Condition, allowed: set<Text>) {
    && IsFieldName(c.field) && c.field in allowed
    && match c
       case Eq(_, value) => value != []
       case Ne(_, value) => value != []
       case In(_, values) => 1 <= |values| <= MAX_LIST_VALUES && AllDistinct(values)
       case Missing(_) => true
       case Present(_) => true
  }

  ghost predicate ValidOutput(output: Output, allowed: set<Text>) {
    output.Sku? ==>
      output.template != [] && Fields(Tokens(output.template)) <= allowed && IsCleanTemplate(output.template)
  }

  ghost predicate ValidRuleLine(rule: Rule, allowed: set<Text>) {
    && 1 <= |rule.conditions| <= MAX_CONDITIONS_PER_RULE
    && (forall k :: 0 <= k < |rule.conditions| ==> ValidCondition(rule.conditions[k], allowed))
    && ValidOutput(rule.output, allowed)
  }

  ghost predicate ValidRules(ast: CompiledRule, allowed: set<Text>) {
    && ast.version == COMPILER_VERSION
    && (forall k :: 0 <= k < |ast.rules| ==> ValidRuleLine(ast.rules[k], allowed))
    && ValidOutput(ast.fallback, allowed)
  }

  ghost predicate ValidCompiledRule(ast: CompiledRule, allowed: set<Text>) {
    |ast.rules| <= MAX_RULES && ValidRules(ast, allowed)
  }

  lemma ValidVersion(ast: CompiledRule, allowed: set<Text>)
    requires ValidRules(ast, allowed)
    ensures ast.version == COMPILER_VERSION
  {
  }

  // ----- the compiler returns valid rules -----

  lemma {:induction false} DistinctIsDistinct(values: seq<Text>)
    ensures AllDistinct(Distinct(values))
    ensures AllDistinct(values) ==> Distinct(values) == values
    ensures values != [] ==> Distinct(values) != []
  {
    if values != [] {
      var n := |values| - 1;
      DistinctIsDistinct(values[..n]);
      assert values == values[..n] + [values[n]];
      if AllDistinct(values) {
        assert values[n] !in values[..n];
      }
    }
  }

  lemma ParsedConditionValid(raw: Text, allowed: set<Text>)
    requires ParseCondition(raw, allowed).Ok?
    ensures ValidCondition(ParseCondition(raw, allowed).value, allowed)
  {
    hide PresenceTail, ListTail, ComparisonTail, ParseStringArray, ParseJsonString, IsFieldName, AllDistinct, Distinct,
         NameLength;
    var c := ParseCondition(raw, allowed).value;
    if c.In? {
      DistinctIsDistinct(ParseStringArray(ListTail(raw[NameLength(raw)..]).value).value);
    }
  }

  lemma {:induction false} ParsedConditionsValid(parts: seq<Text>, allowed: set<Text>)
    requires ParseConditions(parts, allowed).Ok?
    ensures forall k :: 0 <= k < |parts| ==> ValidCondition(ParseConditions(parts, allowed).value[k], allowed)
  {
    if parts != [] {
      ParsedConditionsValid(parts[..|parts| - 1], allowed);
      ParsedConditionValid(parts[|parts| - 1], allowed);
    }
  }

  lemma ParsedOutputValid(raw: Text, allowed: set<Text>)
    requires ParseOutput(raw, allowed).Ok?
    ensures ValidOutput(ParseOutput(raw, allowed).value, allowed)
  {
    hide ParseJsonString, Fields, IsCleanTemplate;
  }

  lemma ParsedRuleValid(line: Text, allowed: set<Text>)
    requires ParseRule(line, allowed).Ok?
    ensures ValidRuleLine(ParseRule(line, allowed).value, allowed)
  {
    hide WhenParts, SplitConjunctions, ParseConditions, ParseOutput, ValidCondition, ValidOutput;
    var conditionText := WhenParts(line).value.0;
    var parts := SplitConjunctions(conditionText).value;
    SplitRejoins(conditionText, parts);
    ParsedConditionsValid(parts, allowed);
    ParsedOutputValid(WhenParts(line).value.1, allowed);
  }

  lemma {:induction false} CompiledLinesValid(lines: seq<Text>, allowed: set<Text>)
    requires CompileLines(lines, allowed).Ok?
    ensures ValidRules(CompileLines(lines, allowed).value, allowed)
  {
    hide ParseRule, ParseOutput, ElseBody, ValidRuleLine, ValidOutput;
    if ElseBody(lines[0]).Some? {
      ParsedOutputValid(ElseBody(lines[0]).value, allowed);
    } else {
      ParsedRuleValid(lines[0], allowed);
      CompiledLinesValid(lines[1..], allowed);
    }
  }

  /** Whatever the compiler returns is a valid rule over the allowed fields. */
  lemma CompiledRuleValid(source: Text, allowed: set<Text>)
    requires CompileSkuRule(source, allowed).Ok?
    ensures ValidCompiledRule(CompileSkuRule(source, allowed).value, allowed)
  {
    hide CompileLines, CodeLines, Trim, NormalizeNewlines, ValidRules;
    CompiledLinesValid(CodeLines(SplitOn(Trim(NormalizeNewlines(source)), LF)), allowed);
  }

  // ----- the printer -----

  /** Spells every string as a JSON literal without a raw `>`. */
  ghost predicate IsQuoter(quote: Text -> Text) {
    forall v :: SpellsString(quote(v), v) && GREATER !in quote(v)
  }

  /** Spells every list of strings as a JSON array on one line, without a raw `>`. */
  ghost predicate IsLister(list: seq<Text> -> Text) {
    forall values :: values != [] ==> SpellsArray(list(values), values) && IsInline(list(values))
  }

  /** How a rule is written: its strings and its lists. */
  datatype Style = Style(quote: Text -> Text, list: seq<Text> -> Text)

  ghost predicate IsStyle(style: Style) {
    IsQuoter(style.quote) && IsLister(style.list)
  }

  function Spaced(word: Text): Text {
    [SPACE] + word + [SPACE]
  }

  function PrintCondition(c: Condition, style: Style): Text {
    match c
    case Eq(field, value) => field + Spaced(EQUAL_TO) + style.quote(value)
    case Ne(field, value) => field + Spaced(NOT_EQUAL_TO) + style.quote(value)
    case In(field, values) => field + Spaced(IN) + style.list(values)
    case Missing(field) => field + Spaced(IS) + MISSING
    case Present(field) => field + Spaced(IS) + PRESENT
  }

  function PrintConditions(conditions: seq<Condition>, style: Style): Text
    requires conditions != []
  {
    if |conditions| == 1 then PrintCondition(conditions[0], style)
    else PrintCondition(conditions[0], style) + Spaced(AND) + PrintConditions(conditions[1..], style)
  }

  function PrintOutput(output: Output, style: Style): Text {
    match output
    case Sku(template) => style.quote(template)
    case Reject => REJECT
  }

  function PrintRule(rule: Rule, style: Style): Text
    requires rule.conditions != []
  {
    WHEN + [SPACE] + PrintConditions(rule.conditions, style) + Spaced(ARROW) + PrintOutput(rule.output, style)
  }

  function PrintElse(fallback: Output, style: Style): Text {
    ELSE + Spaced(ARROW) + PrintOutput(fallback, style)
  }

  function PrintLines(rules: seq<Rule>, fallback: Output, style: Style): (lines: seq<Text>)
    requires forall k :: 0 <= k < |rules| ==> rules[k].conditions != []
    ensures lines != []
  {
    if rules == [] then [PrintElse(fallback, style)]
    else [PrintRule(rules[0], style)] + PrintLines(rules[1..], fallback, style)
  }

  function Print(ast: CompiledRule, style: Style): Text
    requires forall k :: 0 <= k < |ast.rules| ==> ast.rules[k].conditions != []
  {
    Join(PrintLines(ast.rules, ast.fallback, style), [LF])
  }

  // ----- printed conditions are spelled conditions -----

  /** One line of text without `>`. */
  predicate IsInline(s: Text) {
    LF !in s && CR !in s && GREATER !in s
  }

  lemma InlineConcat(a: Text, b: Text)
    requires IsInline(a) && IsInline(b)
    ensures IsInline(a + b)
  {
  }

  lemma InlineWords(word: Text)
    requires word in {IS, IN, EQUAL_TO, NOT_EQUAL_TO, AND, MISSING, PRESENT}
    ensures IsInline(Spaced(word)) && IsInline(word)
  {
  }

  lemma FieldIsInline(field: Text)
    requires IsFieldName(field)
    ensures IsInline(field)
  {
  }

  lemma LiteralOnOneLine(lit: Text, v: Text)
    requires IsLiteral(lit, v)
    ensures LF !in lit && CR !in lit
  {
    hide ScanString;
    ScanPrintable(lit[1..]);
    assert forall i :: 1 <= i < |lit| ==> lit[i] == lit[1..][i - 1];
  }

  lemma QuotedText(v: Text, style: Style)
    requires IsStyle(style)
    ensures SpellsString(style.quote(v), v) && IsInline(style.quote(v))
  {
    hide IsLiteral, SpellsString, IsLister;
    LiteralExactly(style.quote(v), v);
    LiteralOnOneLine(style.quote(v), v);
  }

  lemma ListedText(values: seq<Text>, style: Style)
    requires IsStyle(style) && values != []
    ensures SpellsArray(style.list(values), values) && IsInline(style.list(values))
  {
    hide SpellsArray, IsQuoter, IsInline;
  }

  lemma SpaceIsGap()
    ensures IsGap([SPACE]) && Blanks([SPACE]) && Blanks([])
  {
  }

  lemma PrintedPresence(word: Text)
    requires word == MISSING || word == PRESENT
    ensures SpellsPresence(Spaced(IS) + word, word) && IsInline(Spaced(IS) + word)
  {
    hide IsGap, Blanks, IsInline;
    Words();
    SpaceIsGap();
    InlineWords(IS);
    InlineWords(word);
    InlineConcat(Spaced(IS), word);
    assert Spaced(IS) + word == [SPACE] + Ascii("is") + [SPACE] + word;
  }

  lemma PrintedListing(values: seq<Text>, style: Style)
    requires 1 <= |values| <= MAX_LIST_VALUES && AllDistinct(values) && IsStyle(style)
    ensures SpellsListing(Spaced(IN) + style.list(values), values) && IsInline(Spaced(IN) + style.list(values))
  {
    hide IsGap, Blanks, IsInline, SpellsArray, KeepsFirst, IsStyle, AllDistinct;
    Words();
    SpaceIsGap();
    InlineWords(IN);
    var list := style.list(values);
    ListedText(values, style);
    InlineConcat(Spaced(IN), list);
    DistinctIsDistinct(values);
    DistinctExactly(values, values);
    assert Spaced(IN) + list == [SPACE] + Ascii("in") + [SPACE] + list;
  }

  lemma PrintedComparison(sign: Text, value: Text, style: Style)
    requires (sign == EQUAL_TO || sign == NOT_EQUAL_TO) && value != [] && IsStyle(style)
    ensures SpellsComparison(Spaced(sign) + style.quote(value), sign, value)
    ensures IsInline(Spaced(sign) + style.quote(value))
  {
    hide Blanks, IsInline, SpellsString, IsStyle;
    SpaceIsGap();
    InlineWords(sign);
    var lit := style.quote(value);
    QuotedText(value, style);
    InlineConcat(Spaced(sign), lit);
    assert Spaced(sign) + lit == [SPACE] + sign + [SPACE] + lit;
  }

  lemma PrintedTail(c: Condition, allowed: set<Text>, style: Style) returns (rest: Text)
    requires ValidCondition(c, allowed) && IsStyle(style)
    ensures PrintCondition(c, style) == c.field + rest && SpellsTail(rest, c) && IsInline(rest)
  {
    hide IsInline, SpellsPresence, SpellsListing, SpellsComparison, IsStyle, AllDistinct, Spaced, IsFieldName;
    Words();
    match c
    case Missing(_) =>
      PrintedPresence(MISSING);
      rest := Spaced(IS) + MISSING;
    case Present(_) =>
      PrintedPresence(PRESENT);
      rest := Spaced(IS) + PRESENT;
    case In(_, values) =>
      PrintedListing(values, style);
      rest := Spaced(IN) + style.list(values);
    case Eq(_, value) =>
      PrintedComparison(EQUAL_TO, value, style);
      rest := Spaced(EQUAL_TO) + style.quote(value);
    case Ne(_, value) =>
      PrintedComparison(NOT_EQUAL_TO, value, style);
      rest := Spaced(NOT_EQUAL_TO) + style.quote(value);
  }

  lemma PrintedCondition(c: Condition, allowed: set<Text>, style: Style)
    requires ValidCondition(c, allowed) && IsStyle(style)
    ensures var t := PrintCondition(c, style); SpellsCondition(t, c) && IsInline(t)
  {
    hide IsInline, SpellsTail, IsStyle, IsFieldName, IsName, PrintCondition;
    var rest := PrintedTail(c, allowed, style);
    FieldIsInline(c.field);
    InlineConcat(c.field, rest);
  }

  lemma {:induction false} PrintedConditions(conditions: seq<Condition>, allowed: set<Text>, style: Style)
    requires conditions != [] && IsStyle(style)
    requires forall k :: 0 <= k < |conditions| ==> ValidCondition(conditions[k], allowed)
    ensures var t := PrintConditions(conditions, style); SpellsConditions(t, conditions) && IsInline(t)
  {
    hide IsInline, IsStyle, PrintCondition, ValidCondition, SpellsCondition, SpellsConditions, Blanks;
    var first := PrintCondition(conditions[0], style);
    PrintedCondition(conditions[0], allowed, style);
    if |conditions| == 1 {
      OnlyCondition(first, conditions);
    } else {
      var rest := PrintConditions(conditions[1..], style);
      PrintedConditions(conditions[1..], allowed, style);
      InlineWords(AND);
      InlineConcat(first, Spaced(AND));
      InlineConcat(first + Spaced(AND), rest);
      SpaceIsGap();
      Words();
      SpellsFirst(first, [SPACE], [SPACE], rest, conditions[0], conditions[1..]);
      assert first + Spaced(AND) + rest == first + [SPACE] + AND + [SPACE] + rest;
      assert conditions == [conditions[0]] + conditions[1..];
    }
  }

  // ----- printed lines are spelled lines -----

  lemma PrintedOutput(output: Output, allowed: set<Text>, style: Style)
    requires ValidOutput(output, allowed) && IsStyle(style)
    ensures var t := PrintOutput(output, style);
      SpellsOutput(t, output, allowed) && LF !in t && CR !in t && t != [] && Trimmed(t)
  {
    hide IsStyle, IsTemplate, SpellsString, Tokens, Fields, IsCleanTemplate, IsSpace;
    Words();
    if output.Sku? {
      QuotedText(output.template, style);
      TemplateAccepted(output.template, allowed);
    }
    OutputEnds(PrintOutput(output, style), output, allowed);
  }

  /** A line that the line reader keeps as it is. */
  ghost predicate IsCodeLine(line: Text) {
    IsCore(line, line) && LF !in line && CR !in line && line[0] != HASH
  }

  lemma CodeLineOf(start: CodeUnit, before: Text, out: Text)
    requires start !in BLANKS && start != HASH && start != LF && start != CR
    requires LF !in before && CR !in before && LF !in out && CR !in out && out != [] && Trimmed(out)
    ensures IsCodeLine([start] + before + out)
  {
    hide Blanks, IsSpace;
    var line := [start] + before + out;
    SolidUnits(out);
    SpaceIsGap();
    assert line[|line| - 1] == out[|out| - 1];
    var nothing: Text := [];
    assert line == nothing + line + nothing;
  }

  lemma PrintedRuleSpells(rule: Rule, allowed: set<Text>, style: Style)
    requires ValidRuleLine(rule, allowed) && IsStyle(style)
    ensures SpellsRule(PrintRule(rule, style), rule, allowed)
  {
    hide IsStyle, ValidOutput, PrintConditions, PrintOutput, SpellsConditions, SpellsOutput, Blanks;
    var cs, out := PrintConditions(rule.conditions, style), PrintOutput(rule.output, style);
    PrintedConditions(rule.conditions, allowed, style);
    PrintedOutput(rule.output, allowed, style);
    SpaceIsGap();
    LineWords();
    var nothing: Text := [];
    assert PrintRule(rule, style) == Ascii("when") + [SPACE] + cs + [SPACE] + Ascii("=>") + [SPACE] + out + nothing;
    forall k | 0 <= k < |rule.conditions|
      ensures rule.conditions[k].field in allowed
    {
      assert ValidCondition(rule.conditions[k], allowed);
    }
    assert HoldsNoArrow(cs);
  }

  lemma PrintedRule(rule: Rule, allowed: set<Text>, style: Style)
    requires ValidRuleLine(rule, allowed) && IsStyle(style)
    ensures SpellsRule(PrintRule(rule, style), rule, allowed) && IsCodeLine(PrintRule(rule, style))
  {
    hide IsStyle, ValidOutput, ValidCondition, PrintConditions, PrintOutput, SpellsConditions, SpellsOutput, SpellsRule,
         IsCodeLine, IsSpace;
    var cs, out := PrintConditions(rule.conditions, style), PrintOutput(rule.output, style);
    PrintedRuleSpells(rule, allowed, style);
    PrintedConditions(rule.conditions, allowed, style);
    PrintedOutput(rule.output, allowed, style);
    var before := WHEN[1..] + [SPACE] + cs + Spaced(ARROW);
    assert PrintRule(rule, style) == [WHEN[0]] + before + out;
    CodeLineOf(WHEN[0], before, out);
  }

  lemma PrintedElse(fallback: Output, allowed: set<Text>, style: Style)
    requires ValidOutput(fallback, allowed) && IsStyle(style)
    ensures SpellsElse(PrintElse(fallback, style), fallback, allowed) && IsCodeLine(PrintElse(fallback, style))
  {
    hide IsStyle, ValidOutput, PrintOutput, SpellsOutput, IsCodeLine, Blanks, IsSpace;
    var out := PrintOutput(fallback, style);
    PrintedOutput(fallback, allowed, style);
    SpaceIsGap();
    LineWords();
    var line, nothing: Text := PrintElse(fallback, style), [];
    assert line == Ascii("else") + [SPACE] + Ascii("=>") + [SPACE] + out + nothing;
    var before := ELSE[1..] + Spaced(ARROW);
    assert line == [ELSE[0]] + before + out;
    CodeLineOf(ELSE[0], before, out);
  }

  ghost predicate HaveConditions(rules: seq<Rule>) {
    forall k :: 0 <= k < |rules| ==> rules[k].conditions != []
  }

  lemma {:induction false} PrintedLines(rules: seq<Rule>, fallback: Output, allowed: set<Text>, style: Style)
    requires IsStyle(style) && ValidOutput(fallback, allowed)
    requires forall k :: 0 <= k < |rules| ==> ValidRuleLine(rules[k], allowed)
    ensures HaveConditions(rules)
    ensures var lines := PrintLines(rules, fallback, style);
      && SpellsLines(lines, rules, fallback, allowed)
      && forall k :: 0 <= k < |lines| ==> IsCodeLine(lines[k])
  {
    hide PrintRule, PrintElse, ValidRuleLine, ValidOutput, IsStyle, SpellsRule, SpellsElse, IsCodeLine, SpellsLines;
    HaveAllConditions(rules, allowed);
    if rules == [] {
      PrintedElse(fallback, allowed, style);
      OnlyElse([PrintElse(fallback, style)], fallback, allowed);
    } else {
      PrintedRule(rules[0], allowed, style);
      PrintedLines(rules[1..], fallback, allowed, style);
      var lines := PrintLines(rules, fallback, style);
      assert lines[1..] == PrintLines(rules[1..], fallback, style);
      SpellsLinesTail(lines, rules, fallback, allowed);
    }
  }

  lemma HaveAllConditions(rules: seq<Rule>, allowed: set<Text>)
    requires forall k :: 0 <= k < |rules| ==> ValidRuleLine(rules[k], allowed)
    ensures HaveConditions(rules)
  {
    hide ValidCondition, ValidOutput;
  }

  // ----- the printed text is a spelled source -----

  lemma {:induction false} KeptLines(lines: seq<Text>)
    requires forall k :: 0 <= k < |lines| ==> IsCodeLine(lines[k])
    ensures CodesOf(lines, lines)
  {
    hide IsCore, IsSkipped, Trim;
    if lines != [] {
      KeptLines(lines[1..]);
      CoreExactly(lines[0], lines[0]);
      SkippedExactly(lines[0]);
    }
  }

  lemma {:induction false} JoinedLines(lines: seq<Text>)
    requires lines != [] && forall k :: 0 <= k < |lines| ==> IsCodeLine(lines[k])
    ensures var s := Join(lines, [LF]);
      && BreaksInto(s, lines)
      && s != [] && s[0] !in BLANKS && s[|s| - 1] !in BLANKS
  {
    hide IsBreak, Blanks;
    if |lines| > 1 {
      JoinedLines(lines[1..]);
      var rest := Join(lines[1..], [LF]);
      assert IsBreak([LF], rest) by {
        LfBreaks(rest);
      }
      assert Join(lines, [LF])[|Join(lines, [LF])| - 1] == rest[|rest| - 1];
    }
  }

  lemma LfBreaks(rest: Text)
    ensures IsBreak([LF], rest)
  {
  }

  lemma JoinedIsCore(lines: seq<Text>)
    requires lines != [] && forall k :: 0 <= k < |lines| ==> IsCodeLine(lines[k])
    ensures IsCore(Join(lines, [LF]), Join(lines, [LF]))
  {
    hide Join, Blanks, BreaksInto, IsCodeLine, IsCore;
    JoinedLines(lines);
    BareIsCore(Join(lines, [LF]));
  }

  lemma BareIsCore(s: Text)
    requires s != [] && s[0] !in BLANKS && s[|s| - 1] !in BLANKS
    ensures IsCore(s, s)
  {
    hide Blanks;
    var nothing: Text := [];
    assert s == nothing + s + nothing;
    SpaceIsGap();
  }

  /** Compiling the printed text of a valid rule gives the rule back, unless the text is too long. */
  lemma CompilePrinted(ast: CompiledRule, allowed: set<Text>, style: Style)
    requires ValidCompiledRule(ast, allowed) && IsStyle(style)
    ensures HaveConditions(ast.rules)
    ensures CompileSkuRule(Print(ast, style), allowed)
         == if |Print(ast, style)| <= MAX_SOURCE_LENGTH then Ok(ast) else Err
  {
    hide PrintLines, IsStyle, IsCodeLine, Join, ValidRuleLine, ValidOutput, SpellsLines, CodesOf, BreaksInto, IsCore,
         CompileSkuRule;
    PrintedLines(ast.rules, ast.fallback, allowed, style);
    var lines := PrintLines(ast.rules, ast.fallback, style);
    var text := Print(ast, style);
    KeptLines(lines);
    JoinedLines(lines);
    JoinedIsCore(lines);
    LengthOfJoin(lines);
    if |text| <= MAX_SOURCE_LENGTH {
      CompileExactly(text, ast, allowed);
    } else {
      TooLong(text, lines, allowed);
    }
  }

  lemma TooLong(source: Text, lines: seq<Text>, allowed: set<Text>)
    requires IsCore(source, source) && BreaksInto(source, lines) && Length(lines) > MAX_SOURCE_LENGTH
    ensures CompileSkuRule(source, allowed) == Err
  {
    hide BreaksInto, NormalizeNewlines, CompileLines, CodeLines, SplitOn, IsCore, Trim, Join;
    CoreExactly(source, source);
    NormalTrim(source);
    BreaksExactly(source, lines);
    JoinSplit(NormalizeNewlines(source), LF);
    LengthOfJoin(lines);
  }

  /** Printing what was compiled and compiling it again changes nothing. */
  lemma RecompilePrinted(source: Text, allowed: set<Text>, style: Style)
    requires CompileSkuRule(source, allowed).Ok? && IsStyle(style)
    ensures var ast := CompileSkuRule(source, allowed).value;
      HaveConditions(ast.rules)
      && (|Print(ast, style)| <= MAX_SOURCE_LENGTH ==> CompileSkuRule(Print(ast, style), allowed) == Ok(ast))
  {
    hide CompileSkuRule, Print, IsStyle, ValidCompiledRule;
    CompiledRuleValid(source, allowed);
    CompilePrinted(CompileSkuRule(source, allowed).value, allowed, style);
  }

  // ----- ways of writing -----

  /** A quoter: escape quotes, backslashes, control characters and `>`. */
  lemma QuoteStringIsQuoter()
    ensures IsQuoter(QuoteString)
  {
    hide QuoteString, IsLiteral, SpellsString;
    forall v: Text
      ensures SpellsString(QuoteString(v), v) && GREATER !in QuoteString(v)
    {
      QuoteStringIsLiteral(v);
      LiteralExactly(QuoteString(v), v);
    }
  }

  /** The white space of a list on one line: after `[`, around each comma (by the number of values that
      follow it), and before `]`. */
  datatype Gaps = Gaps(open: Text, before: nat -> Text, after: nat -> Text, close: Text)

  ghost predicate IsInlineWhite(w: Text) {
    forall i :: 0 <= i < |w| ==> w[i] == SPACE || w[i] == TAB
  }

  ghost predicate AreGaps(gaps: Gaps) {
    && IsInlineWhite(gaps.open) && IsInlineWhite(gaps.close)
    && forall n: nat :: IsInlineWhite(gaps.before(n)) && IsInlineWhite(gaps.after(n))
  }

  function PrintElements(values: seq<Text>, quote: Text -> Text, gaps: Gaps): Text {
    if values == [] then []
    else if |values| == 1 then quote(values[0]) + gaps.close
    else
      var n := |values| - 1;
      quote(values[0]) + (gaps.before(n) + [COMMA] + gaps.after(n)) + PrintElements(values[1..], quote, gaps)
  }

  function PrintList(values: seq<Text>, quote: Text -> Text, gaps: Gaps): Text {
    [OPEN_BRACKET] + gaps.open + PrintElements(values, quote, gaps) + [CLOSE_BRACKET]
  }

  lemma InlineWhite(w: Text)
    requires IsInlineWhite(w)
    ensures IsWhite(w) && IsInline(w)
  {
  }

  lemma QuotedValue(v: Text, quote: Text -> Text)
    requires IsQuoter(quote)
    ensures SpellsString(quote(v), v) && IsInline(quote(v))
  {
    hide IsLiteral, SpellsString;
    LiteralExactly(quote(v), v);
    LiteralOnOneLine(quote(v), v);
  }

  lemma SeparatorText(gaps: Gaps, n: nat)
    requires AreGaps(gaps)
    ensures IsWhite(gaps.before(n)) && IsWhite(gaps.after(n))
    ensures IsInline(gaps.before(n) + [COMMA] + gaps.after(n))
  {
    hide IsInlineWhite;
    InlineWhite(gaps.before(n));
    InlineWhite(gaps.after(n));
  }

  lemma {:induction false} PaddedElements(values: seq<Text>, quote: Text -> Text, gaps: Gaps)
    requires values != [] && IsQuoter(quote) && AreGaps(gaps)
    ensures var t := PrintElements(values, quote, gaps); SpellsElements(t, values) && IsInline(t)
  {
    hide IsQuoter, AreGaps, SpellsElements, SpellsString, IsInline, IsWhite;
    var lit := quote(values[0]);
    QuotedValue(values[0], quote);
    if |values| == 1 {
      assert IsInlineWhite(gaps.close) by {
        CloseIsWhite(gaps);
      }
      InlineWhite(gaps.close);
      SpellsLast(lit, values[0], gaps.close);
      InlineConcat(lit, gaps.close);
      assert values == [values[0]];
    } else {
      var n := |values| - 1;
      var rest := PrintElements(values[1..], quote, gaps);
      SeparatorText(gaps, n);
      PaddedElements(values[1..], quote, gaps);
      SpellsMore(lit, values[0], gaps.before(n), gaps.after(n), rest, values[1..]);
      InlineConcat(lit, gaps.before(n) + [COMMA] + gaps.after(n));
      InlineConcat(lit + (gaps.before(n) + [COMMA] + gaps.after(n)), rest);
      assert values == [values[0]] + values[1..];
    }
  }

  lemma CloseIsWhite(gaps: Gaps)
    requires AreGaps(gaps)
    ensures IsInlineWhite(gaps.close) && IsInlineWhite(gaps.open)
  {
  }

  lemma PaddedList(values: seq<Text>, quote: Text -> Text, gaps: Gaps)
    requires values != [] && IsQuoter(quote) && AreGaps(gaps)
    ensures var t := PrintList(values, quote, gaps); SpellsArray(t, values) && IsInline(t)
  {
    hide IsQuoter, AreGaps, SpellsElements, IsWhite, PrintElements;
    var body := PrintElements(values, quote, gaps);
    PaddedElements(values, quote, gaps);
    CloseIsWhite(gaps);
    InlineWhite(gaps.open);
    assert PrintList(values, quote, gaps) == [0x5B] + gaps.open + body + [0x5D];
  }

  /** Lists may be written with any spaces and tabs around their brackets and commas. */
  lemma PaddedListsAreListed(quote: Text -> Text, gaps: Gaps)
    requires IsQuoter(quote) && AreGaps(gaps)
    ensures IsStyle(Style(quote, values => PrintList(values, quote, gaps)))
  {
    hide IsQuoter, AreGaps, PrintList, SpellsArray, IsInline;
    forall values: seq<Text> | values != []
      ensures SpellsArray(PrintList(values, quote, gaps), values) && IsInline(PrintList(values, quote, gaps))
    {
      PaddedList(values, quote, gaps);
    }
  }
}
