/** The SKU rule compiler: a line-based language of `when <conditions> => <output>` rules closed by
    `else => <output>`, compiled to an AST. */
module SkuRules {
  import opened Wrappers
  import opened CodeUnits
  import opened JsonStrings
  import opened SkuTemplates
  import opened ConjunctionSplitter

  const COMPILER_VERSION := 1
  const MAX_SOURCE_LENGTH := 8192
  const MAX_RULES := 64
  const MAX_LIST_VALUES := 32

  datatype Condition =
    | Eq(field: Text, value: Text)
    | Ne(field: Text, value: Text)
    | In(field: Text, values: seq<Text>)
    | Missing(field: Text)
    | Present(field: Text)

  datatype Output = Sku(template: Text) | Reject

  datatype Rule = Rule(conditions: seq<Condition>, output: Output)

  datatype CompiledRule = CompiledRule(version: int, rules: seq<Rule>, fallback: Output)

  const WHEN: Text := [0x77, 0x68, 0x65, 0x6E]
  const ELSE: Text := [0x65, 0x6C, 0x73, 0x65]
  const IS: Text := [0x69, 0x73]
  const IN: Text := [0x69, 0x6E]
  const MISSING: Text := [0x6D, 0x69, 0x73, 0x73, 0x69, 0x6E, 0x67]
  const PRESENT: Text := [0x70, 0x72, 0x65, 0x73, 0x65, 0x6E, 0x74]
  const REJECT: Text := [0x72, 0x65, 0x6A, 0x65, 0x63, 0x74]
  const ARROW: Text := [EQUALS, GREATER]
  const EQUAL_TO: Text := [EQUALS, EQUALS]
  const NOT_EQUAL_TO: Text := [0x21, EQUALS]

  // ----- conditions -----

  /** `\s+word`: what follows the word. */
  function AfterWord(s: Text, word: Text): Option<Text> {
    var t := TrimLeft(s);
    if |t| < |s| && StartsWith(t, word) then Some(t[|word|..]) else None
  }

  /** `\s+is\s+(missing|present)$` */
  function PresenceTail(rest: Text): Option<bool> {
    match AfterWord(rest, IS)
    case None => None
    case Some(r) =>
      if AfterWord(r, MISSING) == Some([]) then Some(false)
      else if AfterWord(r, PRESENT) == Some([]) then Some(true)
      else None
  }

  predicate IsWrappedIn(s: Text, open: CodeUnit, close: CodeUnit) {
    |s| >= 2 && s[0] == open && s[|s| - 1] == close
  }

  /** `\s+in\s+(\[...\])$` */
  function ListTail(rest: Text): Option<Text> {
    match AfterWord(rest, IN)
    case None => None
    case Some(r) =>
      var list := TrimLeft(r);
      if |list| < |r| && IsWrappedIn(list, OPEN_BRACKET, CLOSE_BRACKET) then Some(list) else None
  }

  /** `\s*(==|!=)\s*("...")$`: whether it asks for equality, and the literal. */
  function ComparisonTail(rest: Text): Option<(bool, Text)> {
    var t := TrimLeft(rest);
    if StartsWith(t, EQUAL_TO) || StartsWith(t, NOT_EQUAL_TO) then
      var lit := TrimLeft(t[2..]);
      if IsWrappedIn(lit, QUOTE, QUOTE) then Some((StartsWith(t, EQUAL_TO), lit)) else None
    else None
  }

  /** `[...new Set(values)]`: the first occurrence of each value, in order. */
  function Distinct(values: seq<Text>): (r: seq<Text>)
    ensures forall v :: v in r <==> v in values
    ensures |r| <= |values|
  {
    if values == [] then []
    else
      var last := values[|values| - 1];
      var before := Distinct(values[..|values| - 1]);
      assert values == values[..|values| - 1] + [last];
      if last in before then before else before + [last]
  }

  function ParseCondition(raw: Text, allowed: set<Text>): Result<Condition> {
    var n := NameLength(raw);
    var field, rest := raw[..n], raw[n..];
    if n == 0 || field !in allowed then Err
    else if PresenceTail(rest).Some? then
      Ok(if PresenceTail(rest).value then Present(field) else Missing(field))
    else if ListTail(rest).Some? then
      match ParseStringArray(ListTail(rest).value)
      case None => Err
      case Some(values) =>
        if 1 <= |values| <= MAX_LIST_VALUES then Ok(In(field, Distinct(values))) else Err
    else if ComparisonTail(rest).Some? then
      var (equal, lit) := ComparisonTail(rest).value;
      var value :- ParseJsonString(lit);
      Ok(if equal then Eq(field, value) else Ne(field, value))
    else Err
  }

  function ParseOutput(raw: Text, allowed: set<Text>): Result<Output> {
    if raw == REJECT then Ok(Reject)
    else
      var template :- ParseJsonString(raw);
      if Fields(Tokens(template)) <= allowed && IsCleanTemplate(template) then Ok(Sku(template)) else Err
  }

  // ----- lines -----

  /** `else\s*=>\s*(...)$`: the output text. */
  function ElseBody(line: Text): Option<Text> {
    if !StartsWith(line, ELSE) then None
    else
      var t := TrimLeft(line[|ELSE|..]);
      if StartsWith(t, ARROW) && |t| > |ARROW| then Some(Trim(t[|ARROW|..])) else None
  }

  /** The first `=>` at or after a position. */
  function FirstArrow(s: Text, from: nat): (r: Option<nat>)
    ensures r.Some? ==> from <= r.value <= |s| - 2
    decreases |s| - from
  {
    if from + 2 > |s| then None
    else if s[from] == EQUALS && s[from + 1] == GREATER then Some(from)
    else FirstArrow(s, from + 1)
  }

  /** `when\s+(...?)\s*=>\s*(...)$` with its lazy group: the condition text and the output text. The
      group holds at least one unit, so the arrow is the first one past the start of the conditions.
      The expression can also match by handing white space back to the group, but then the group is
      white space only and the conditions are rejected as empty. */
  function WhenParts(line: Text): Option<(Text, Text)> {
    if !StartsWith(line, WHEN) then None
    else
      var t := TrimLeft(line[|WHEN|..]);
      if |t| == |line| - |WHEN| then None
      else
        match FirstArrow(t, 1)
        case None => None
        case Some(q) =>
          if q + |ARROW| == |t| then None else Some((TrimRight(t[..q]), Trim(t[q + |ARROW|..])))
  }

  function ParseConditions(parts: seq<Text>, allowed: set<Text>): (r: Result<seq<Condition>>)
    ensures r.Ok? ==> |r.value| == |parts|
  {
    if parts == [] then Ok([])
    else
      var n := |parts| - 1;
      var before :- ParseConditions(parts[..n], allowed);
      var last :- ParseCondition(parts[n], allowed);
      Ok(before + [last])
  }

  function ParseRule(line: Text, allowed: set<Text>): Result<Rule> {
    match WhenParts(line)
    case None => Err
    case Some((conditionText, outputText)) =>
      var parts :- SplitConjunctions(conditionText);
      var conditions :- ParseConditions(parts, allowed);
      var output :- ParseOutput(outputText, allowed);
      Ok(Rule(conditions, output))
  }

  /** Rule lines followed by one `else` line, and nothing after it. */
  function CompileLines(lines: seq<Text>, allowed: set<Text>): Result<CompiledRule> {
    if lines == [] then Err
    else if ElseBody(lines[0]).Some? then
      if |lines| == 1 then
        var fallback :- ParseOutput(ElseBody(lines[0]).value, allowed);
        Ok(CompiledRule(COMPILER_VERSION, [], fallback))
      else Err
    else
      var rule :- ParseRule(lines[0], allowed);
      var rest :- CompileLines(lines[1..], allowed);
      Ok(rest.(rules := [rule] + rest.rules))
  }

  // ----- the source text -----

  /** `replace(/\r\n?/g, '\n')` */
  function NormalizeNewlines(s: Text): Text {
    if s == [] then []
    else if s[0] == CR then
      [LF] + NormalizeNewlines(if |s| >= 2 && s[1] == LF then s[2..] else s[1..])
    else [s[0]] + NormalizeNewlines(s[1..])
  }

  /** Trimmed lines without blank lines and comments. */
  function CodeLines(parts: seq<Text>): (lines: seq<Text>)
    ensures forall k :: 0 <= k < |lines| ==> lines[k] != [] && Trimmed(lines[k])
  {
    hide Trim, TrimLeft, TrimRight, IsSpace;
    if parts == [] then []
    else
      var n := |parts| - 1;
      var line := Trim(parts[n]);
      CodeLines(parts[..n]) + (if line == [] || line[0] == HASH then [] else [line])
  }

  function CompileSkuRule(source: Text, allowed: set<Text>): Result<CompiledRule> {
    var normalized := Trim(NormalizeNewlines(source));
    if normalized == [] || |normalized| > MAX_SOURCE_LENGTH then Err
    else
      var compiled :- CompileLines(CodeLines(SplitOn(normalized, LF)), allowed);
      if |compiled.rules| > MAX_RULES then Err else Ok(compiled)
  }

  // ----- the compiler as the source runs it -----

  method ParseConditionList(raw: Text, allowed: set<Text>) returns (r: Result<seq<Condition>>)
    ensures r == match SplitConjunctions(raw) case Err => Err case Ok(parts) => ParseConditions(parts, allowed)
  {
    hide SplitConjunctions, ParseCondition;
    var split := ScanConjunctions(raw);
    if split == Err {
      return Err;
    }
    var parts := split.value;
    var conditions: seq<Condition> := [];
    for k := 0 to |parts|
      invariant ParseConditions(parts[..k], allowed) == Ok(conditions)
    {
      assert parts[..k + 1][..k] == parts[..k];
      var condition := ParseCondition(parts[k], allowed);
      if condition == Err {
        FailedPrefixFails(parts, k + 1, allowed);
        return Err;
      }
      conditions := conditions + [condition.value];
    }
    assert parts[..|parts|] == parts;
    return Ok(conditions);
  }

  lemma {:induction false} FailedPrefixFails(parts: seq<Text>, k: nat, allowed: set<Text>)
    requires k <= |parts| && ParseConditions(parts[..k], allowed) == Err
    ensures ParseConditions(parts, allowed) == Err
    decreases |parts|
  {
    if k == |parts| {
      assert parts[..k] == parts;
    } else {
      assert parts[..|parts| - 1][..k] == parts[..k];
      FailedPrefixFails(parts[..|parts| - 1], k, allowed);
    }
  }

  /** What the rules already collected become once the remaining lines are compiled. */
  ghost function Collected(rules: seq<Rule>, fallback: Option<Output>, rest: seq<Text>,
    allowed: set<Text>): Result<CompiledRule> {
    match fallback
    case Some(output) => if rest == [] then Ok(CompiledRule(COMPILER_VERSION, rules, output)) else Err
    case None =>
      match CompileLines(rest, allowed)
      case Err => Err
      case Ok(compiled) => Ok(compiled.(rules := rules + compiled.rules))
  }

  lemma CollectedElse(rules: seq<Rule>, rest: seq<Text>, allowed: set<Text>)
    requires rest != [] && ElseBody(rest[0]).Some?
    ensures Collected(rules, None, rest, allowed)
         == match ParseOutput(ElseBody(rest[0]).value, allowed)
            case Err => Err
            case Ok(output) => Collected(rules, Some(output), rest[1..], allowed)
  {
    hide ParseOutput, ElseBody, ParseRule;
    assert |rest| == 1 <==> rest[1..] == [];
    assert rules + [] == rules;
  }

  lemma CollectedRule(rules: seq<Rule>, rest: seq<Text>, allowed: set<Text>)
    requires rest != [] && ElseBody(rest[0]) == None
    ensures Collected(rules, None, rest, allowed)
         == match ParseRule(rest[0], allowed)
            case Err => Err
            case Ok(rule) => Collected(rules + [rule], None, rest[1..], allowed)
  {
    hide ParseOutput, ElseBody, ParseRule;
    var parsed, more := ParseRule(rest[0], allowed), CompileLines(rest[1..], allowed);
    if parsed.Ok? && more.Ok? {
      assert rules + ([parsed.value] + more.value.rules) == rules + [parsed.value] + more.value.rules;
    }
  }

  method Compile(source: Text, allowed: set<Text>) returns (r: Result<CompiledRule>)
    ensures r == CompileSkuRule(source, allowed)
  {
    hide Trim, NormalizeNewlines, SplitOn, CodeLines, ElseBody, WhenParts, ParseOutput, ParseConditions,
         SplitConjunctions, CompileLines;
    var normalized := Trim(NormalizeNewlines(source));
    if normalized == [] || |normalized| > MAX_SOURCE_LENGTH {
      return Err;
    }
    var lines := CodeLines(SplitOn(normalized, LF));
    var rules: seq<Rule> := [];
    var fallback: Option<Output> := None;
    ghost var goal := CompileLines(lines, allowed);
    CollectedNothing(lines, allowed);
    for k := 0 to |lines|
      invariant |rules| <= MAX_RULES
      invariant Collected(rules, fallback, lines[k..], allowed) == goal
    {
      var line := lines[k];
      assert lines[k..][0] == line && lines[k..][1..] == lines[k + 1..];
      var otherwise := ElseBody(line);
      if otherwise.Some? {
        if fallback.Some? {
          return Err;
        }
        CollectedElse(rules, lines[k..], allowed);
        var output := ParseOutput(otherwise.value, allowed);
        if output == Err {
          return Err;
        }
        fallback := Some(output.value);
        continue;
      }
      if fallback.Some? {
        return Err;
      }
      CollectedRule(rules, lines[k..], allowed);
      var parts := WhenParts(line);
      if parts == None {
        return Err;
      }
      var conditions := ParseConditionList(parts.value.0, allowed);
      if conditions == Err {
        return Err;
      }
      var output := ParseOutput(parts.value.1, allowed);
      if output == Err {
        return Err;
      }
      rules := rules + [Rule(conditions.value, output.value)];
      if |rules| > MAX_RULES {
        return Err;
      }
    }
    assert lines[|lines|..] == [];
    if fallback.None? {
      NothingCollected(rules, allowed);
      return Err;
    }
    return Ok(CompiledRule(COMPILER_VERSION, rules, fallback.value));
  }

  lemma NothingCollected(rules: seq<Rule>, allowed: set<Text>)
    ensures Collected(rules, None, [], allowed) == Err
  {
  }

  lemma CollectedNothing(lines: seq<Text>, allowed: set<Text>)
    ensures Collected([], None, lines, allowed) == CompileLines(lines, allowed)
    ensures lines[0..] == lines
  {
    if CompileLines(lines, allowed).Ok? {
      var compiled := CompileLines(lines, allowed).value;
      assert [] + compiled.rules == compiled.rules;
    }
  }
}
