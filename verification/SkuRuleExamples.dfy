/** The image rule of the repository's own tests, compiled. */
module SkuRuleExamples {
  import opened Wrappers
  import opened CodeUnits
  import opened WhiteSpace
  import opened JsonStrings
  import opened JsonGrammar
  import opened SkuTemplates
  import opened TemplateReadings
  import opened ConjunctionSplitter
  import opened SkuRules
  import opened SkuConditionGrammar
  import opened SkuRuleGrammar
  import opened SkuSourceGrammar
  import opened SkuRuleRoundTrip

  const QUALITY := Ascii("quality")
  const SIZE := Ascii("size")

  const QUALITY_IN := "when quality in [\"low\", \"medium\", \"high\"]"
  const SIZE_IN := " && size in " + "[\"1024x1024\", \"1024x1536\", \"1536x1024\"]"
  const TO_KEY := " => " + ("\"quality=${quality}" + ";size=${size}\"")

  /** The rule text, with a line break before and after it. */
  const IMAGE_RULE: Text :=
    Ascii("\n" + (QUALITY_IN + SIZE_IN + TO_KEY)
          + "\n" + "when quality is missing => \"default\""
          + "\n" + "when quality == \"auto\" => \"default\""
          + "\n" + "when size is missing => \"default\""
          + "\n" + "when size == \"auto\" => \"default\""
          + "\n" + "else => reject"
          + "\n")

  const QUALITIES := [Ascii("low"), Ascii("medium"), Ascii("high")]
  const SIZES := [Ascii("1024x1024"), Ascii("1024x1536"), Ascii("1536x1024")]
  const KEY := "quality=${quality}" + ";size=${size}"
  const KEY_TEMPLATE := Ascii(KEY)
  const TO_DEFAULT := Sku(Ascii("default"))

  const IMAGE_AST := CompiledRule(1, [
    Rule([In(QUALITY, QUALITIES), In(SIZE, SIZES)], Sku(KEY_TEMPLATE)),
    Rule([Missing(QUALITY)], TO_DEFAULT),
    Rule([Eq(QUALITY, Ascii("auto"))], TO_DEFAULT),
    Rule([Missing(SIZE)], TO_DEFAULT),
    Rule([Eq(SIZE, Ascii("auto"))], TO_DEFAULT)
  ], Reject)

  /** Lists as the rule text writes them: one space behind each comma. */
  const LOOSE := Gaps([], _ => [], _ => [SPACE], [])

  function LooseList(values: seq<Text>): Text {
    PrintList(values, QuoteString, LOOSE)
  }

  const IMAGE_STYLE := Style(QuoteString, LooseList)

  lemma ImageStyle()
    ensures IsStyle(IMAGE_STYLE)
  {
    hide QuoteString, PrintList, SpellsArray, IsInline, IsQuoter;
    QuoteStringIsQuoter();
    assert AreGaps(LOOSE);
    forall values: seq<Text> | values != []
      ensures SpellsArray(LooseList(values), values) && IsInline(LooseList(values))
    {
      PaddedList(values, QuoteString, LOOSE);
    }
  }

  // ----- the rule is valid -----

  lemma DistinctNames()
    ensures AllDistinct(QUALITIES) && AllDistinct(SIZES) && IsFieldName(QUALITY) && IsFieldName(SIZE)
    ensures QUALITY != SIZE
  {
    assert QUALITIES[0] != QUALITIES[1] && QUALITIES[1] != QUALITIES[2] && QUALITIES[0] != QUALITIES[2] by {
      assert |QUALITIES[0]| == 3 && |QUALITIES[1]| == 6 && |QUALITIES[2]| == 4;
    }
    assert SIZES[0] != SIZES[1] && SIZES[1] != SIZES[2] && SIZES[0] != SIZES[2] by {
      assert SIZES[0][5] == 0x31 && SIZES[0][6] == 0x30;
      assert SIZES[1][6] == 0x35 && SIZES[1][1] == 0x30;
      assert SIZES[2][1] == 0x35;
    }
    assert |QUALITY| == 7 && |SIZE| == 4;
  }

  lemma NoDollar(t: Text)
    requires 0x24 !in t
    ensures !HoldsPlaceholder(t)
  {
    hide HoldsPlaceholder;
    if HoldsPlaceholder(t) {
      HeldHasDollar(t);
    }
  }

  const KEY_LITERALS := [Ascii("quality="), Ascii(";size="), []]

  lemma KeyReading()
    ensures IsReading(KEY_TEMPLATE, KEY_LITERALS, [QUALITY, SIZE])
  {
    hide HoldsPlaceholder, IsName, IsReading;
    DistinctNames();
    var first, second, last := KEY_LITERALS[0], KEY_LITERALS[1], KEY_LITERALS[2];
    NoDollar(first);
    NoDollar(second);
    NoDollar(last);
    OnlyLiteral(last);
    LiteralThenHole(second, SIZE, last, [last], []);
    var rest := second + ([0x24, 0x7B] + SIZE + [0x7D]) + last;
    assert [second] + [last] == [second, last] && [SIZE] + [] == [SIZE];
    LiteralThenHole(first, QUALITY, rest, [second, last], [SIZE]);
    assert [first] + [second, last] == KEY_LITERALS && [QUALITY] + [SIZE] == [QUALITY, SIZE];
    KeySplits();
  }

  lemma QualityHole()
    ensures Ascii("quality=${quality}") == Ascii("quality=") + ([0x24, 0x7B] + QUALITY + [0x7D])
  {
  }

  lemma SizeHole()
    ensures Ascii(";size=${size}") == Ascii(";size=") + ([0x24, 0x7B] + SIZE + [0x7D])
  {
  }

  lemma KeySplits()
    ensures KEY_TEMPLATE == Ascii("quality=") + ([0x24, 0x7B] + QUALITY + [0x7D])
                            + (Ascii(";size=") + ([0x24, 0x7B] + SIZE + [0x7D]) + [])
  {
    hide Ascii;
    QualityHole();
    SizeHole();
    AsciiConcat("quality=${quality}", ";size=${size}");
    var second := Ascii(";size=") + ([0x24, 0x7B] + SIZE + [0x7D]);
    assert second + [] == second;
  }

  lemma KeyIsTemplate()
    ensures IsTemplate(KEY_TEMPLATE, {QUALITY, SIZE})
  {
    hide IsReading, HoldsOpener;
    KeyReading();
    var names := [QUALITY, SIZE];
    assert forall k :: 0 <= k < |names| ==> names[k] in {QUALITY, SIZE};
    KeyIsBare();
  }

  lemma KeyIsBare()
    ensures !HoldsOpener(Bare(KEY_LITERALS))
  {
    var lits, values := KEY_LITERALS, Nothings(2);
    var bare := Ascii("quality=") + Ascii(";size=");
    assert Fill(lits[1..][1..], values[1..][1..]) == lits[1..][1..][0] == [];
    assert Fill(lits[1..], values[1..]) == lits[1] + values[1] + [] == lits[1];
    assert Bare(lits) == lits[0] + values[0] + lits[1] == bare;
    assert 0x24 !in bare;
  }

  lemma ImageRuleValid()
    ensures ValidCompiledRule(IMAGE_AST, {QUALITY, SIZE})
  {
    hide IsTemplate, Tokens, Fields, IsCleanTemplate, AllDistinct, IsFieldName;
    DistinctNames();
    KeyIsTemplate();
    var allowed := {QUALITY, SIZE};
    TemplateAccepted(KEY_TEMPLATE, allowed);
    DefaultIsTemplate(allowed);
    TemplateAccepted(Ascii("default"), allowed);
    assert |Ascii("default")| == 7 && |Ascii("auto")| == 4 && |KEY_TEMPLATE| == 31;
    forall k | 0 <= k < |IMAGE_AST.rules|
      ensures ValidRuleLine(IMAGE_AST.rules[k], allowed)
    {
      assert IMAGE_AST.rules[k].conditions != [];
    }
  }

  lemma DefaultIsTemplate(allowed: set<Text>)
    ensures IsTemplate(Ascii("default"), allowed)
  {
    hide HoldsPlaceholder, HoldsOpener;
    var lit := Ascii("default");
    NoDollar(lit);
    OnlyLiteral(lit);
    assert Bare([lit]) == lit;
    assert !HoldsOpener(lit) by {
      NoOpener(lit);
    }
    var names: seq<Text> := [];
    assert IsReading(lit, [lit], names);
  }

  lemma NoOpener(t: Text)
    requires 0x24 !in t
    ensures !HoldsOpener(t)
  {
  }

  // ----- the rule is printed as the text -----

  /** A word in quotes. */
  lemma QuotedWord(word: string)
    requires IsPlainText(Ascii(word))
    ensures QuoteString(Ascii(word)) == Ascii("\"" + word + "\"")
  {
    hide QuoteString, IsPlainText;
    PlainQuoted(Ascii(word));
    AsciiConcat("\"", word);
    AsciiConcat("\"" + word, "\"");
  }

  lemma PlainWords()
    ensures IsPlainText(Ascii("low")) && IsPlainText(Ascii("medium")) && IsPlainText(Ascii("high"))
    ensures IsPlainText(Ascii("default")) && IsPlainText(Ascii("auto"))
  {
  }

  lemma PlainSizes()
    ensures IsPlainText(Ascii("1024x1024")) && IsPlainText(Ascii("1024x1536")) && IsPlainText(Ascii("1536x1024"))
  {
  }

  lemma PlainKey()
    ensures IsPlainText(KEY_TEMPLATE)
  {
  }

  function InQuotes(word: string): string {
    "\"" + word + "\""
  }

  /** Three words in a list, as they stand in the text. */
  function ThreeInList(a: string, b: string, c: string): string {
    "[" + InQuotes(a) + ", " + InQuotes(b) + ", " + InQuotes(c) + "]"
  }

  /** A list of three words is printed so. */
  lemma ListOfThree(a: string, b: string, c: string)
    requires IsPlainText(Ascii(a)) && IsPlainText(Ascii(b)) && IsPlainText(Ascii(c))
    ensures LooseList([Ascii(a), Ascii(b), Ascii(c)])
         == Ascii(ThreeInList(a, b, c))
  {
    hide QuoteString, IsPlainText;
    var x, y, z := Ascii(InQuotes(a)), Ascii(InQuotes(b)), Ascii(InQuotes(c));
    QuotedWord(a);
    QuotedWord(b);
    QuotedWord(c);
    var values := [Ascii(a), Ascii(b), Ascii(c)];
    assert values[1..] == [Ascii(b), Ascii(c)] && values[1..][1..] == [Ascii(c)];
    var sep: Text := [] + [COMMA] + [SPACE];
    assert PrintElements([Ascii(c)], QuoteString, LOOSE) == z + [];
    assert PrintElements([Ascii(b), Ascii(c)], QuoteString, LOOSE) == y + sep + (z + []);
    assert LooseList(values) == [OPEN_BRACKET] + [] + (x + sep + (y + sep + (z + []))) + [CLOSE_BRACKET];
    ThreeWords(a, b, c);
  }

  lemma Separators()
    ensures Ascii("[") == [OPEN_BRACKET] && Ascii("]") == [CLOSE_BRACKET] && Ascii(", ") == [COMMA, SPACE]
  {
  }

  lemma ThreeWords(a: string, b: string, c: string)
    ensures Ascii(ThreeInList(a, b, c))
         == [OPEN_BRACKET] + Ascii(InQuotes(a)) + [COMMA, SPACE] + Ascii(InQuotes(b)) + [COMMA, SPACE]
            + Ascii(InQuotes(c)) + [CLOSE_BRACKET]
  {
    hide Ascii, InQuotes;
    Separators();
    AsciiConcat("[", InQuotes(a));
    AsciiConcat("[" + InQuotes(a), ", ");
    AsciiConcat("[" + InQuotes(a) + ", ", InQuotes(b));
    AsciiConcat("[" + InQuotes(a) + ", " + InQuotes(b), ", ");
    AsciiConcat("[" + InQuotes(a) + ", " + InQuotes(b) + ", ", InQuotes(c));
    AsciiConcat("[" + InQuotes(a) + ", " + InQuotes(b) + ", " + InQuotes(c), "]");
  }

  lemma TwoParts(whole: string, a: string, b: string, x: Text, y: Text)
    requires whole == a + b && Ascii(a) == x && Ascii(b) == y
    ensures Ascii(whole) == x + y
  {
    AsciiConcat(a, b);
  }

  lemma QualityInSplits()
    ensures QUALITY_IN == "when quality in " + ThreeInList("low", "medium", "high")
  {
  }

  lemma QualityInWords()
    ensures Ascii("when quality in ") == WHEN + [SPACE] + QUALITY + Spaced(IN)
  {
  }

  lemma QualityInPrinted()
    ensures Ascii(QUALITY_IN) == WHEN + [SPACE] + QUALITY + Spaced(IN) + LooseList(QUALITIES)
  {
    hide LooseList, IsPlainText, Spaced, Ascii;
    PlainWords();
    ListOfThree("low", "medium", "high");
    QualityInSplits();
    QualityInWords();
    TwoParts(QUALITY_IN, "when quality in ", ThreeInList("low", "medium", "high"),
      WHEN + [SPACE] + QUALITY + Spaced(IN), LooseList(QUALITIES));
  }

  lemma SizeInSplits()
    ensures SIZE_IN == " && size in " + ThreeInList("1024x1024", "1024x1536", "1536x1024")
  {
  }

  lemma SizeInWords()
    ensures Ascii(" && size in ") == Spaced(AND) + SIZE + Spaced(IN)
  {
  }

  lemma SizeInPrinted()
    ensures Ascii(SIZE_IN) == Spaced(AND) + SIZE + Spaced(IN) + LooseList(SIZES)
  {
    hide LooseList, IsPlainText, Spaced, Ascii;
    PlainSizes();
    ListOfThree("1024x1024", "1024x1536", "1536x1024");
    SizeInSplits();
    SizeInWords();
    TwoParts(SIZE_IN, " && size in ", ThreeInList("1024x1024", "1024x1536", "1536x1024"),
      Spaced(AND) + SIZE + Spaced(IN), LooseList(SIZES));
  }

  lemma QuotedKeySplits()
    ensures "\"quality=${quality}" == "\"" + "quality=${quality}"
    ensures ";size=${size}\"" == ";size=${size}" + "\""
  {
  }

  lemma ToKeySplits()
    ensures TO_KEY == " => " + ("\"" + KEY + "\"")
  {
    QuotedKeySplits();
    Regroup("\"", "quality=${quality}", ";size=${size}", "\"");
  }

  lemma Regroup(a: string, b: string, c: string, d: string)
    ensures (a + b) + (c + d) == a + (b + c) + d
  {
  }

  lemma ArrowWord()
    ensures Ascii(" => ") == Spaced(ARROW)
  {
  }

  lemma ToKeyPrinted()
    ensures Ascii(TO_KEY) == Spaced(ARROW) + QuoteString(KEY_TEMPLATE)
  {
    hide QuoteString, IsPlainText, Spaced, Ascii;
    PlainKey();
    ToKeySplits();
    QuotedWord(KEY);
    ArrowWord();
    TwoParts(TO_KEY, " => ", "\"" + KEY + "\"", Spaced(ARROW), QuoteString(KEY_TEMPLATE));
  }

  lemma TwoConditions(a: Condition, b: Condition, style: Style)
    ensures PrintConditions([a, b], style) == PrintCondition(a, style) + Spaced(AND) + PrintCondition(b, style)
  {
    hide PrintCondition, Spaced;
    assert [a, b][1..] == [b];
  }

  lemma KeyRuleRegroups(list: Text, other: Text, out: Text)
    ensures WHEN + [SPACE] + (QUALITY + Spaced(IN) + list + Spaced(AND) + (SIZE + Spaced(IN) + other)) + Spaced(ARROW)
      + out
         == (WHEN + [SPACE] + QUALITY + Spaced(IN) + list) + (Spaced(AND) + SIZE + Spaced(IN) + other)
            + (Spaced(ARROW) + out)
  {
    hide Spaced, Ascii;
  }

  lemma KeyRulePrinted()
    ensures PrintRule(IMAGE_AST.rules[0], IMAGE_STYLE) == Ascii(QUALITY_IN + SIZE_IN + TO_KEY)
  {
    hide LooseList, QuoteString, Spaced, Ascii, PrintConditions;
    QualityInPrinted();
    SizeInPrinted();
    ToKeyPrinted();
    AsciiConcat(QUALITY_IN, SIZE_IN);
    AsciiConcat(QUALITY_IN + SIZE_IN, TO_KEY);
    TwoConditions(In(QUALITY, QUALITIES), In(SIZE, SIZES), IMAGE_STYLE);
    KeyRuleRegroups(LooseList(QUALITIES), LooseList(SIZES), QuoteString(KEY_TEMPLATE));
  }

  lemma ToDefaultSplits()
    ensures " => \"default\"" == " => " + ("\"" + "default" + "\"")
  {
  }

  lemma ToDefaultPrinted()
    ensures Ascii(" => \"default\"") == Spaced(ARROW) + QuoteString(Ascii("default"))
  {
    hide QuoteString, IsPlainText, Spaced, Ascii;
    PlainWords();
    QuotedWord("default");
    ToDefaultSplits();
    ArrowWord();
    TwoParts(" => \"default\"", " => ", "\"" + "default" + "\"", Spaced(ARROW), QuoteString(Ascii("default")));
  }

  lemma MissingWords()
    ensures Ascii("when ") == WHEN + [SPACE] && Ascii(" is missing") == Spaced(IS) + MISSING
  {
  }

  lemma ToDefaultRegroups(condition: Text, out: Text)
    ensures WHEN + [SPACE] + condition + Spaced(ARROW) + out == WHEN + [SPACE] + condition + (Spaced(ARROW) + out)
  {
    hide Spaced;
  }

  lemma MissingRulePrinted(field: string)
    ensures PrintRule(Rule([Missing(Ascii(field))], TO_DEFAULT), IMAGE_STYLE)
         == Ascii("when " + field + " is missing" + " => \"default\"")
  {
    hide QuoteString, Spaced, Ascii;
    ToDefaultPrinted();
    MissingWords();
    AsciiConcat("when ", field);
    AsciiConcat("when " + field, " is missing");
    AsciiConcat("when " + field + " is missing", " => \"default\"");
    var condition := Ascii(field) + Spaced(IS) + MISSING;
    ToDefaultRegroups(condition, QuoteString(Ascii("default")));
    assert WHEN + [SPACE] + Ascii(field) + (Spaced(IS) + MISSING) == WHEN + [SPACE] + condition;
  }

  lemma AutoSplits()
    ensures " == \"auto\"" == " == " + ("\"" + "auto" + "\"") && Ascii(" == ") == Spaced(EQUAL_TO)
  {
  }

  lemma AutoPrinted()
    ensures Ascii(" == \"auto\"") == Spaced(EQUAL_TO) + QuoteString(Ascii("auto"))
  {
    hide QuoteString, IsPlainText, Spaced, Ascii;
    PlainWords();
    QuotedWord("auto");
    AutoSplits();
    TwoParts(" == \"auto\"", " == ", "\"" + "auto" + "\"", Spaced(EQUAL_TO), QuoteString(Ascii("auto")));
  }

  lemma AutoRulePrinted(field: string)
    ensures PrintRule(Rule([Eq(Ascii(field), Ascii("auto"))], TO_DEFAULT), IMAGE_STYLE)
         == Ascii("when " + field + " == \"auto\"" + " => \"default\"")
  {
    hide QuoteString, Spaced, Ascii;
    ToDefaultPrinted();
    MissingWords();
    AutoPrinted();
    AsciiConcat("when ", field);
    AsciiConcat("when " + field, " == \"auto\"");
    AsciiConcat("when " + field + " == \"auto\"", " => \"default\"");
    var lit := QuoteString(Ascii("auto"));
    var condition := Ascii(field) + Spaced(EQUAL_TO) + lit;
    ToDefaultRegroups(condition, QuoteString(Ascii("default")));
    assert WHEN + [SPACE] + Ascii(field) + (Spaced(EQUAL_TO) + lit) == WHEN + [SPACE] + condition;
  }

  lemma RejectPrinted()
    ensures PrintElse(Reject, IMAGE_STYLE) == Ascii("else => reject")
  {
  }

  const MISSING_QUALITY := "when quality is missing => \"default\""
  const AUTO_QUALITY := "when quality == \"auto\" => \"default\""
  const MISSING_SIZE := "when size is missing => \"default\""
  const AUTO_SIZE := "when size == \"auto\" => \"default\""

  lemma MissingQualitySplits()
    ensures MISSING_QUALITY == "when " + "quality" + " is missing" + " => \"default\""
  {
  }

  lemma AutoQualitySplits()
    ensures AUTO_QUALITY == "when " + "quality" + " == \"auto\"" + " => \"default\""
  {
  }

  lemma MissingSizeSplits()
    ensures MISSING_SIZE == "when " + "size" + " is missing" + " => \"default\""
  {
  }

  lemma AutoSizeSplits()
    ensures AUTO_SIZE == "when " + "size" + " == \"auto\"" + " => \"default\""
  {
  }

  lemma NewLine()
    ensures Ascii("\n") == [LF]
  {
  }

  /** A text of six lines. */
  function SixLines(a: string, b: string, c: string, d: string, e: string, f: string): string {
    "\n" + a + "\n" + b + "\n" + c + "\n" + d + "\n" + e + "\n" + f + "\n"
  }

  lemma SixLinesJoined(a: string, b: string, c: string, d: string, e: string, f: string)
    ensures Ascii(SixLines(a, b, c, d, e, f))
         == [LF] + Join([Ascii(a), Ascii(b), Ascii(c), Ascii(d), Ascii(e), Ascii(f)], [LF]) + [LF]
  {
    hide Ascii, Join;
    NewLine();
    var s := "\n" + a;
    AsciiConcat("\n", a);
    LineAdded("\n" + a, b);
    LineAdded("\n" + a + "\n" + b, c);
    LineAdded("\n" + a + "\n" + b + "\n" + c, d);
    LineAdded("\n" + a + "\n" + b + "\n" + c + "\n" + d, e);
    LineAdded("\n" + a + "\n" + b + "\n" + c + "\n" + d + "\n" + e, f);
    AsciiConcat("\n" + a + "\n" + b + "\n" + c + "\n" + d + "\n" + e + "\n" + f, "\n");
    SixJoined(Ascii(a), Ascii(b), Ascii(c), Ascii(d), Ascii(e), Ascii(f));
  }

  lemma LineAdded(s: string, line: string)
    ensures Ascii(s + "\n" + line) == Ascii(s) + [LF] + Ascii(line)
  {
    NewLine();
    AsciiConcat(s, "\n");
    AsciiConcat(s + "\n", line);
  }

  lemma SixJoined(a: Text, b: Text, c: Text, d: Text, e: Text, f: Text)
    ensures [LF] + Join([a, b, c, d, e, f], [LF]) + [LF]
         == [LF] + a + [LF] + b + [LF] + c + [LF] + d + [LF] + e + [LF] + f + [LF]
  {
    JoinFirst(a, [b, c, d, e, f]);
    JoinFirst(b, [c, d, e, f]);
    JoinFirst(c, [d, e, f]);
    JoinFirst(d, [e, f]);
    JoinFirst(e, [f]);
  }

  lemma JoinFirst(a: Text, rest: seq<Text>)
    requires rest != []
    ensures Join([a] + rest, [LF]) == a + [LF] + Join(rest, [LF])
    ensures |rest| == 1 ==> Join(rest, [LF]) == rest[0]
  {
    assert ([a] + rest)[1..] == rest;
  }

  const FIRST_LINE := QUALITY_IN + SIZE_IN + TO_KEY

  lemma ImageLinesPrinted()
    ensures HaveConditions(IMAGE_AST.rules)
    ensures PrintLines(IMAGE_AST.rules, IMAGE_AST.fallback, IMAGE_STYLE)
         == [Ascii(FIRST_LINE), Ascii(MISSING_QUALITY), Ascii(AUTO_QUALITY), Ascii(MISSING_SIZE), Ascii(AUTO_SIZE),
             Ascii("else => reject")]
  {
    hide PrintRule, PrintElse, Ascii;
    KeyRulePrinted();
    MissingQualitySplits();
    MissingRulePrinted("quality");
    AutoQualitySplits();
    AutoRulePrinted("quality");
    MissingSizeSplits();
    MissingRulePrinted("size");
    AutoSizeSplits();
    AutoRulePrinted("size");
    RejectPrinted();
    LinesOf(IMAGE_AST.rules, Reject, IMAGE_STYLE);
  }

  lemma LinesCons(rules: seq<Rule>, fallback: Output, style: Style)
    requires HaveConditions(rules)
    ensures rules == [] ==> PrintLines(rules, fallback, style) == [PrintElse(fallback, style)]
    ensures rules != [] ==> HaveConditions(rules[1..])
    ensures rules != [] ==>
      PrintLines(rules, fallback, style) == [PrintRule(rules[0], style)] + PrintLines(rules[1..], fallback, style)
  {
    hide PrintRule, PrintElse;
  }

  lemma LinesOf(rules: seq<Rule>, fallback: Output, style: Style)
    requires |rules| == 5 && HaveConditions(rules)
    ensures PrintLines(rules, fallback, style)
         == [PrintRule(rules[0], style), PrintRule(rules[1], style), PrintRule(rules[2], style),
           PrintRule(rules[3], style),
             PrintRule(rules[4], style), PrintElse(fallback, style)]
  {
    hide PrintRule, PrintElse, PrintLines;
    LinesCons(rules, fallback, style);
    LinesCons(rules[1..], fallback, style);
    LinesCons(rules[2..], fallback, style);
    LinesCons(rules[3..], fallback, style);
    LinesCons(rules[4..], fallback, style);
    LinesCons(rules[5..], fallback, style);
    assert rules[1..][1..] == rules[2..] && rules[2..][1..] == rules[3..] && rules[3..][1..] == rules[4..];
    assert rules[4..][1..] == rules[5..] == [];
  }

  lemma ImageRulePrinted()
    ensures HaveConditions(IMAGE_AST.rules)
    ensures IMAGE_RULE == [LF] + Print(IMAGE_AST, IMAGE_STYLE) + [LF]
  {
    hide Ascii, PrintLines, Join;
    ImageLinesPrinted();
    SixLinesJoined(FIRST_LINE, MISSING_QUALITY, AUTO_QUALITY, MISSING_SIZE, AUTO_SIZE, "else => reject");
  }

  lemma FirstLineLength()
    ensures |FIRST_LINE| <= 300
  {
    assert |QUALITY_IN| <= 100;
    assert |SIZE_IN| <= 100;
    assert |TO_KEY| <= 100;
  }

  lemma OtherLineLengths()
    ensures |MISSING_QUALITY| <= 100 && |AUTO_QUALITY| <= 100 && |MISSING_SIZE| <= 100 && |AUTO_SIZE| <= 100
    ensures |"else => reject"| <= 100
  {
  }

  lemma SixLinesLength(a: string, b: string, c: string, d: string, e: string, f: string)
    ensures |SixLines(a, b, c, d, e, f)| == 7 + |a| + |b| + |c| + |d| + |e| + |f|
  {
  }

  lemma ImageRuleLines()
    ensures IMAGE_RULE == Ascii(SixLines(FIRST_LINE, MISSING_QUALITY, AUTO_QUALITY, MISSING_SIZE, AUTO_SIZE,
      "else => reject"))
  {
  }

  lemma ImageRuleLength()
    ensures |IMAGE_RULE| <= 1_000
  {
    hide SixLines;
    FirstLineLength();
    OtherLineLengths();
    SixLinesLength(FIRST_LINE, MISSING_QUALITY, AUTO_QUALITY, MISSING_SIZE, AUTO_SIZE, "else => reject");
    ImageRuleLines();
  }

  /** The image rule compiles to the rule it says. */
  lemma ImageRuleCompiles()
    ensures CompileSkuRule(IMAGE_RULE, {QUALITY, SIZE}) == Ok(IMAGE_AST)
  {
    hide CompileSkuRule, Print, IsStyle, ValidCompiledRule, Blanks, Ascii;
    var allowed := {QUALITY, SIZE};
    ImageRulePrinted();
    ImageRuleLength();
    ImageRuleValid();
    ImageStyle();
    CompilePrinted(IMAGE_AST, allowed, IMAGE_STYLE);
    LineBreakIsBlank();
    CompileAround([LF], Print(IMAGE_AST, IMAGE_STYLE), [LF], allowed);
  }

  lemma LineBreakIsBlank()
    ensures Blanks([LF])
  {
  }
}
