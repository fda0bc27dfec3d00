/** First-match evaluation of compiled SKU rules over request facts. */
module SkuRuleEvaluation {
  import opened Wrappers
  import opened CodeUnits
  import opened SkuTemplates
  import opened SkuRules
  import opened SkuRuleRoundTrip

  /** A fact is absent (`undefined`), `null` (None) or a string. */
  type Facts = map<Text, Option<Text>>

  datatype Evaluation = Key(skuKey: Text) | Rejected | MissingTemplateFact

  function Fact(facts: Facts, field: Text): Option<Text> {
    if field in facts then facts[field] else None
  }

  predicate IsBlank(value: Option<Text>) {
    value == None || value == Some([])
  }

  predicate ConditionMatches(c: Condition, facts: Facts) {
    var value := Fact(facts, c.field);
    match c
    case Missing(_) => IsBlank(value)
    case Present(_) => !IsBlank(value)
    case Eq(_, expected) => value == Some(expected)
    case Ne(_, expected) => value != Some(expected)
    case In(_, values) => value.Some? && value.value in values
  }

  predicate AllMatch(conditions: seq<Condition>, facts: Facts) {
    forall k :: 0 <= k < |conditions| ==> ConditionMatches(conditions[k], facts)
  }

  /** The rendered text, with blanks for missing facts, and whether a fact was missing. */
  function RenderTokens(tokens: seq<Token>, facts: Facts): (Text, bool) {
    if tokens == [] then ([], false)
    else
      var (text, missing) := RenderTokens(tokens[1..], facts);
      match tokens[0]
      case Unit(c) => ([c] + text, missing)
      case Hole(field) =>
        if IsBlank(Fact(facts, field)) then (text, true) else (Fact(facts, field).value + text, missing)
  }

  function RenderOutput(output: Output, facts: Facts): Evaluation {
    match output
    case Reject => Rejected
    case Sku(template) =>
      var (text, missing) := RenderTokens(Tokens(template), facts);
      if missing then MissingTemplateFact else Key(text)
  }

  function EvaluateRules(rules: seq<Rule>, fallback: Output, facts: Facts): Evaluation {
    if rules == [] then RenderOutput(fallback, facts)
    else if AllMatch(rules[0].conditions, facts) then RenderOutput(rules[0].output, facts)
    else EvaluateRules(rules[1..], fallback, facts)
  }

  function EvaluateSkuRule(rule: CompiledRule, facts: Facts): Evaluation {
    EvaluateRules(rule.rules, rule.fallback, facts)
  }

  // ----- rendering as the source runs it -----

  /** The whole rendering, from what is already rendered and the rest of the template. */
  ghost function RenderedAfter(skuKey: Text, missing: bool, rest: Text, facts: Facts): (Text, bool) {
    var (text, more) := RenderTokens(Tokens(rest), facts);
    (skuKey + text, missing || more)
  }

  lemma RenderedHole(skuKey: Text, missing: bool, rest: Text, facts: Facts)
    requires rest != [] && Placeholder(rest).Some?
    ensures var n := Placeholder(rest).value;
      var value := Fact(facts, rest[2..n - 1]);
      RenderedAfter(skuKey, missing, rest, facts)
      == if IsBlank(value) then RenderedAfter(skuKey, true, rest[n..], facts)
         else RenderedAfter(skuKey + value.value, missing, rest[n..], facts)
  {
    hide Placeholder;
    var n := Placeholder(rest).value;
    var value := Fact(facts, rest[2..n - 1]);
    var text := RenderTokens(Tokens(rest[n..]), facts).0;
    assert Tokens(rest)[1..] == Tokens(rest[n..]);
    assert value.Some? ==> skuKey + (value.value + text) == skuKey + value.value + text;
  }

  lemma RenderedUnit(skuKey: Text, missing: bool, rest: Text, facts: Facts)
    requires rest != [] && Placeholder(rest) == None
    ensures RenderedAfter(skuKey, missing, rest, facts) == RenderedAfter(skuKey + [rest[0]], missing, rest[1..], facts)
  {
    hide Placeholder;
    var text := RenderTokens(Tokens(rest[1..]), facts).0;
    assert Tokens(rest)[1..] == Tokens(rest[1..]);
    assert skuKey + ([rest[0]] + text) == skuKey + [rest[0]] + text;
  }

  lemma RenderedAtEnds(skuKey: Text, missing: bool, template: Text, facts: Facts)
    ensures RenderedAfter([], false, template, facts) == RenderTokens(Tokens(template), facts)
    ensures RenderedAfter(skuKey, missing, [], facts) == (skuKey, missing)
  {
    var text := RenderTokens(Tokens(template), facts).0;
    assert [] + text == text && skuKey + [] == skuKey;
  }

  /** One left-to-right pass over the template; substituted values are never read again. */
  method Render(output: Output, facts: Facts) returns (r: Evaluation)
    ensures r == RenderOutput(output, facts)
  {
    hide RenderedAfter, RenderTokens, Tokens, Placeholder, Fact;
    if output.Reject? {
      return Rejected;
    }
    var template := output.template;
    var skuKey: Text, missing, index := [], false, 0;
    RenderedAtEnds([], false, template, facts);
    assert template[0..] == template;
    while index < |template|
      invariant index <= |template|
      invariant RenderedAfter(skuKey, missing, template[index..], facts) == RenderTokens(Tokens(template), facts)
    {
      var rest := template[index..];
      match Placeholder(rest) {
        case Some(n) =>
          RenderedHole(skuKey, missing, rest, facts);
          assert rest[n..] == template[index + n..];
          var value := Fact(facts, rest[2..n - 1]);
          if IsBlank(value) {
            missing := true;
          } else {
            skuKey := skuKey + value.value;
          }
          index := index + n;
        case None =>
          RenderedUnit(skuKey, missing, rest, facts);
          assert rest[1..] == template[index + 1..];
          skuKey := skuKey + [rest[0]];
          index := index + 1;
      }
    }
    assert template[index..] == [];
    RenderedAtEnds(skuKey, missing, template, facts);
    return if missing then MissingTemplateFact else Key(skuKey);
  }

  // ----- what evaluation means -----

  /** The first rule whose conditions all match decides. */
  lemma {:induction false} FirstMatchDecides(rules: seq<Rule>, fallback: Output, facts: Facts, i: nat)
    requires i <= |rules| && (forall k :: 0 <= k < i ==> !AllMatch(rules[k].conditions, facts))
    requires i < |rules| ==> AllMatch(rules[i].conditions, facts)
    ensures EvaluateRules(rules, fallback, facts)
         == RenderOutput(if i < |rules| then rules[i].output else fallback, facts)
  {
    hide AllMatch, RenderOutput;
    if i > 0 {
      FirstMatchDecides(rules[1..], fallback, facts, i - 1);
    }
  }

  lemma MatchFirst(c: Condition, rest: seq<Condition>, facts: Facts)
    ensures AllMatch([c] + rest, facts) <==> ConditionMatches(c, facts) && AllMatch(rest, facts)
  {
    hide ConditionMatches;
    var all := [c] + rest;
    assert all[0] == c && forall k :: 0 <= k < |rest| ==> all[k + 1] == rest[k];
    assert forall k :: 1 <= k < |all| ==> all[k] == rest[k - 1];
  }

  /** One rule for each value of a list, in order. */
  function Alternatives(field: Text, values: seq<Text>, rest: seq<Condition>, output: Output): seq<Rule> {
    if values == [] then []
    else [Rule([Eq(field, values[0])] + rest, output)] + Alternatives(field, values[1..], rest, output)
  }

  /** A list condition means the same as one `==` rule for each of its values. */
  lemma {:induction false} ListIsAlternatives(
    field: Text, values: seq<Text>, rest: seq<Condition>, output: Output, rules: seq<Rule>, fallback: Output,
      facts: Facts)
    ensures EvaluateRules([Rule([In(field, values)] + rest, output)] + rules, fallback, facts)
         == EvaluateRules(Alternatives(field, values, rest, output) + rules, fallback, facts)
  {
    hide AllMatch, RenderOutput;
    var listed := Rule([In(field, values)] + rest, output);
    MatchFirst(In(field, values), rest, facts);
    assert ([listed] + rules)[1..] == rules;
    if values == [] {
      assert Alternatives(field, values, rest, output) + rules == rules;
    } else {
      var first, others := Rule([Eq(field, values[0])] + rest, output), Alternatives(field, values[1..], rest, output)
        + rules;
      assert Alternatives(field, values, rest, output) + rules == [first] + others;
      assert ([first] + others)[1..] == others;
      MatchFirst(Eq(field, values[0]), rest, facts);
      MatchFirst(In(field, values[1..]), rest, facts);
      ListIsAlternatives(field, values[1..], rest, output, rules, fallback, facts);
      assert ([Rule([In(field, values[1..])] + rest, output)] + rules)[1..] == rules;
      assert forall v :: v in values <==> v == values[0] || v in values[1..];
    }
  }

  predicate AreComplements(c: Condition, n: Condition) {
    match c
    case Missing(field) => n == Present(field)
    case Eq(field, value) => n == Ne(field, value)
    case _ => false
  }

  /** Two rules that differ in complementary conditions mean the same as one rule without them. */
  lemma ComplementsCover(
    c: Condition, n: Condition, rest: seq<Condition>, output: Output, rules: seq<Rule>, fallback: Output, facts: Facts)
    requires AreComplements(c, n)
    ensures EvaluateRules([Rule([c] + rest, output), Rule([n] + rest, output)] + rules, fallback, facts)
         == EvaluateRules([Rule(rest, output)] + rules, fallback, facts)
  {
    hide AllMatch, RenderOutput;
    MatchFirst(c, rest, facts);
    MatchFirst(n, rest, facts);
    var a, b := Rule([c] + rest, output), Rule([n] + rest, output);
    assert ([a, b] + rules)[1..] == [b] + rules && ([b] + rules)[1..] == rules;
    assert ([Rule(rest, output)] + rules)[1..] == rules;
  }

  /** A key is rendered exactly when every placeholder has a non-blank fact. */
  lemma {:induction false} MissingIffSomeHoleBlank(tokens: seq<Token>, facts: Facts)
    ensures RenderTokens(tokens, facts).1 <==> exists f :: f in Fields(tokens) && IsBlank(Fact(facts, f))
  {
    if tokens != [] {
      MissingIffSomeHoleBlank(tokens[1..], facts);
      FieldsCons(tokens);
    }
  }

  lemma FieldsCons(tokens: seq<Token>)
    requires tokens != []
    ensures Fields(tokens) == (if tokens[0].Hole? then {tokens[0].field} else {}) + Fields(tokens[1..])
  {
    assert tokens == [tokens[0]] + tokens[1..];
    forall i | 0 <= i < |tokens[1..]| && tokens[1..][i].Hole?
      ensures tokens[1..][i].field in Fields(tokens)
    {
      assert tokens[i + 1] == tokens[1..][i];
    }
    forall i | 1 <= i < |tokens| && tokens[i].Hole?
      ensures tokens[i].field in Fields(tokens[1..])
    {
      assert tokens[i] == tokens[1..][i - 1];
    }
  }

  // ----- evaluation reads only the allowed fields -----

  ghost predicate AgreeOn(fields: set<Text>, a: Facts, b: Facts) {
    forall f :: f in fields ==> Fact(a, f) == Fact(b, f)
  }

  lemma {:induction false} RenderAgrees(tokens: seq<Token>, fields: set<Text>, a: Facts, b: Facts)
    requires Fields(tokens) <= fields && AgreeOn(fields, a, b)
    ensures RenderTokens(tokens, a) == RenderTokens(tokens, b)
  {
    if tokens != [] {
      FieldsCons(tokens);
      RenderAgrees(tokens[1..], fields, a, b);
    }
  }

  lemma RenderOutputAgrees(output: Output, allowed: set<Text>, a: Facts, b: Facts)
    requires ValidOutput(output, allowed) && AgreeOn(allowed, a, b)
    ensures RenderOutput(output, a) == RenderOutput(output, b)
  {
    hide Tokens, IsCleanTemplate, AgreeOn;
    if output.Sku? {
      RenderAgrees(Tokens(output.template), allowed, a, b);
    }
  }

  lemma {:induction false} EvaluateRulesAgrees(rules: seq<Rule>, fallback: Output, allowed: set<Text>, a: Facts,
    b: Facts)
    requires ValidRules(CompiledRule(COMPILER_VERSION, rules, fallback), allowed) && AgreeOn(allowed, a, b)
    ensures EvaluateRules(rules, fallback, a) == EvaluateRules(rules, fallback, b)
  {
    hide RenderOutput, ValidOutput;
    if rules == [] {
      RenderOutputAgrees(fallback, allowed, a, b);
    } else {
      forall k | 0 <= k < |rules[0].conditions|
        ensures ConditionMatches(rules[0].conditions[k], a) == ConditionMatches(rules[0].conditions[k], b)
      {
        assert ValidCondition(rules[0].conditions[k], allowed);
      }
      RenderOutputAgrees(rules[0].output, allowed, a, b);
      EvaluateRulesAgrees(rules[1..], fallback, allowed, a, b);
    }
  }

  /** Non-interference: a compiled rule depends on nothing but the allowed fields. */
  lemma CompiledRuleReadsOnlyAllowed(source: Text, allowed: set<Text>, a: Facts, b: Facts)
    requires CompileSkuRule(source, allowed).Ok? && AgreeOn(allowed, a, b)
    ensures var rule := CompileSkuRule(source, allowed).value; EvaluateSkuRule(rule, a) == EvaluateSkuRule(rule, b)
  {
    hide CompileSkuRule, EvaluateRules, ValidRules, AgreeOn;
    var rule := CompileSkuRule(source, allowed).value;
    CompiledRuleValid(source, allowed);
    ValidVersion(rule, allowed);
    EvaluateRulesAgrees(rule.rules, rule.fallback, allowed, a, b);
  }
}
