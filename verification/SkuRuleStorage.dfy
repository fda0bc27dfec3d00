/** `validateCompiledSkuRule`: stored rules are checked again before they are evaluated. */
module SkuRuleStorage {
  import opened Wrappers
  import opened CodeUnits
  import opened JsonStrings
  import opened JsonValues
  import opened SkuTemplates
  import opened ConjunctionSplitter
  import opened SkuRules
  import opened SkuRuleRoundTrip
  import opened SkuRuleEvaluation

  const MAX_FIELD_NAME := 128

  const ONE: Text := [0x31]
  const VERSION_KEY: Text := [0x76, 0x65, 0x72, 0x73, 0x69, 0x6F, 0x6E]
  const RULES_KEY: Text := [0x72, 0x75, 0x6C, 0x65, 0x73]
  const FALLBACK_KEY: Text := [0x66, 0x61, 0x6C, 0x6C, 0x62, 0x61, 0x63, 0x6B]
  const CONDITIONS_KEY: Text := [0x63, 0x6F, 0x6E, 0x64, 0x69, 0x74, 0x69, 0x6F, 0x6E, 0x73]
  const OUTPUT_KEY: Text := [0x6F, 0x75, 0x74, 0x70, 0x75, 0x74]
  const FIELD_KEY: Text := [0x66, 0x69, 0x65, 0x6C, 0x64]
  const OPERATOR_KEY: Text := [0x6F, 0x70, 0x65, 0x72, 0x61, 0x74, 0x6F, 0x72]
  const VALUE_KEY: Text := [0x76, 0x61, 0x6C, 0x75, 0x65]
  const VALUES_KEY: Text := [0x76, 0x61, 0x6C, 0x75, 0x65, 0x73]
  const TYPE_KEY: Text := [0x74, 0x79, 0x70, 0x65]
  const TEMPLATE_KEY: Text := [0x74, 0x65, 0x6D, 0x70, 0x6C, 0x61, 0x74, 0x65]
  const EQ: Text := [0x65, 0x71]
  const NE: Text := [0x6E, 0x65]
  const SKU: Text := [0x73, 0x6B, 0x75]

  // ----- the validator -----

  predicate IsText(value: Option<Json>, min: nat) {
    value.Some? && value.value.Str? && min <= |value.value.text| <= MAX_SOURCE_LENGTH
  }

  predicate IsList(value: Option<Json>, min: nat, max: nat) {
    value.Some? && value.value.Arr? && min <= |value.value.items| <= max
  }

  predicate IsStoredFieldName(name: Text) {
    IsFieldName(name) && |name| <= MAX_FIELD_NAME
  }

  function Texts(items: seq<Json>): seq<Text>
    requires forall i :: 0 <= i < |items| ==> items[i].Str?
  {
    seq(|items|, i requires 0 <= i < |items| => items[i].text)
  }

  function ValidateCondition(raw: Json): Result<Condition> {
    var field, operator := Get(raw, FIELD_KEY), Get(raw, OPERATOR_KEY);
    var value, values := Get(raw, VALUE_KEY), Get(raw, VALUES_KEY);
    if !(field.Some? && field.value.Str? && IsStoredFieldName(field.value.text)) then Err
    else
      var name := field.value.text;
      if operator == Some(Str(MISSING)) then Ok(Missing(name))
      else if operator == Some(Str(PRESENT)) then Ok(Present(name))
      else if operator == Some(Str(EQ)) && IsText(value, 1) then Ok(Eq(name, value.value.text))
      else if operator == Some(Str(NE)) && IsText(value, 1) then Ok(Ne(name, value.value.text))
      else if operator == Some(Str(IN)) && IsList(values, 1, MAX_LIST_VALUES)
           && forall i :: 0 <= i < |values.value.items| ==> IsText(Some(values.value.items[i]), 0) then
        Ok(In(name, Distinct(Texts(values.value.items))))
      else Err
  }

  function ValidateOutput(raw: Option<Json>): Result<Output> {
    if !(raw.Some? && raw.value.Obj?) then Err
    else
      var kind, template := Get(raw.value, TYPE_KEY), Get(raw.value, TEMPLATE_KEY);
      if kind == Some(Str(REJECT)) then Ok(Reject)
      else if kind == Some(Str(SKU)) && IsText(template, 1) && IsCleanTemplate(template.value.text) then
        Ok(Sku(template.value.text))
      else Err
  }

  function ValidateConditions(items: seq<Json>): (r: Result<seq<Condition>>)
    ensures r.Ok? ==> |r.value| == |items|
  {
    if items == [] then Ok([])
    else
      var first :- ValidateCondition(items[0]);
      var rest :- ValidateConditions(items[1..]);
      Ok([first] + rest)
  }

  function ValidateRule(raw: Json): Result<Rule> {
    var list := Get(raw, CONDITIONS_KEY);
    if !IsList(list, 1, MAX_CONDITIONS_PER_RULE) then Err
    else
      var conditions :- ValidateConditions(list.value.items);
      var output :- ValidateOutput(Get(raw, OUTPUT_KEY));
      Ok(Rule(conditions, output))
  }

  function ValidateRules(items: seq<Json>): (r: Result<seq<Rule>>)
    ensures r.Ok? ==> |r.value| == |items|
  {
    if items == [] then Ok([])
    else
      var first :- ValidateRule(items[0]);
      var rest :- ValidateRules(items[1..]);
      Ok([first] + rest)
  }

  function ValidateCompiledRule(value: Json): Result<CompiledRule> {
    var list := Get(value, RULES_KEY);
    if Get(value, VERSION_KEY) != Some(Num(ONE)) || !IsList(list, 0, MAX_RULES) then Err
    else
      var rules :- ValidateRules(list.value.items);
      var fallback :- ValidateOutput(Get(value, FALLBACK_KEY));
      Ok(CompiledRule(COMPILER_VERSION, rules, fallback))
  }

  // ----- the stored form of a rule -----

  function StrItems(values: seq<Text>): (items: seq<Json>)
    ensures |items| == |values| && forall i :: 0 <= i < |items| ==> items[i] == Str(values[i])
  {
    seq(|values|, i requires 0 <= i < |values| => Str(values[i]))
  }

  function StoreCondition(c: Condition): Json {
    match c
    case Eq(field, value) => Obj(map[FIELD_KEY := Str(field), OPERATOR_KEY := Str(EQ), VALUE_KEY := Str(value)])
    case Ne(field, value) => Obj(map[FIELD_KEY := Str(field), OPERATOR_KEY := Str(NE), VALUE_KEY := Str(value)])
    case In(field, values) =>
      Obj(map[FIELD_KEY := Str(field), OPERATOR_KEY := Str(IN), VALUES_KEY := Arr(StrItems(values))])
    case Missing(field) => Obj(map[FIELD_KEY := Str(field), OPERATOR_KEY := Str(MISSING)])
    case Present(field) => Obj(map[FIELD_KEY := Str(field), OPERATOR_KEY := Str(PRESENT)])
  }

  function StoreOutput(output: Output): Json {
    match output
    case Sku(template) => Obj(map[TYPE_KEY := Str(SKU), TEMPLATE_KEY := Str(template)])
    case Reject => Obj(map[TYPE_KEY := Str(REJECT)])
  }

  function StoreConditions(conditions: seq<Condition>): (items: seq<Json>)
    ensures |items| == |conditions|
  {
    if conditions == [] then [] else [StoreCondition(conditions[0])] + StoreConditions(conditions[1..])
  }

  function StoreRule(rule: Rule): Json {
    Obj(map[CONDITIONS_KEY := Arr(StoreConditions(rule.conditions)), OUTPUT_KEY := StoreOutput(rule.output)])
  }

  function StoreRules(rules: seq<Rule>): (items: seq<Json>)
    ensures |items| == |rules|
  {
    if rules == [] then [] else [StoreRule(rules[0])] + StoreRules(rules[1..])
  }

  /** The object `JSON.stringify` writes for a rule; the version prints as `1` when it is 1. */
  function Store(rule: CompiledRule): Json {
    Obj(map[VERSION_KEY := Num(if rule.version == COMPILER_VERSION then ONE else []),
            RULES_KEY := Arr(StoreRules(rule.rules)), FALLBACK_KEY := StoreOutput(rule.fallback)])
  }

  // ----- exactly which rules the validator accepts -----

  predicate StorableCondition(c: Condition) {
    && IsStoredFieldName(c.field)
    && match c
       case Eq(_, value) => 1 <= |value| <= MAX_SOURCE_LENGTH
       case Ne(_, value) => 1 <= |value| <= MAX_SOURCE_LENGTH
       case In(_, values) =>
         1 <= |values| <= MAX_LIST_VALUES && forall i :: 0 <= i < |values| ==> |values[i]| <= MAX_SOURCE_LENGTH
       case Missing(_) => true
       case Present(_) => true
  }

  predicate StorableOutput(output: Output) {
    output.Sku? ==> 1 <= |output.template| <= MAX_SOURCE_LENGTH && IsCleanTemplate(output.template)
  }

  predicate StorableConditions(conditions: seq<Condition>) {
    forall k :: 0 <= k < |conditions| ==> StorableCondition(conditions[k])
  }

  predicate StorableRule(rule: Rule) {
    1 <= |rule.conditions| <= MAX_CONDITIONS_PER_RULE && StorableConditions(rule.conditions)
      && StorableOutput(rule.output)
  }

  predicate StorableRules(rules: seq<Rule>) {
    forall k :: 0 <= k < |rules| ==> StorableRule(rules[k])
  }

  predicate Storable(rule: CompiledRule) {
    && rule.version == COMPILER_VERSION && |rule.rules| <= MAX_RULES
    && StorableRules(rule.rules) && StorableOutput(rule.fallback)
  }

  /** The only change the validator makes: repeated list values are dropped. */
  function CleanCondition(c: Condition): Condition {
    if c.In? then In(c.field, Distinct(c.values)) else c
  }

  function CleanConditions(conditions: seq<Condition>): (r: seq<Condition>)
    ensures |r| == |conditions|
  {
    if conditions == [] then [] else [CleanCondition(conditions[0])] + CleanConditions(conditions[1..])
  }

  function CleanRules(rules: seq<Rule>): (r: seq<Rule>)
    ensures |r| == |rules|
  {
    if rules == [] then []
    else [Rule(CleanConditions(rules[0].conditions), rules[0].output)] + CleanRules(rules[1..])
  }

  function CleanRule(rule: CompiledRule): CompiledRule {
    rule.(rules := CleanRules(rule.rules))
  }

  lemma OperatorsDiffer()
    ensures MISSING != PRESENT && EQ != NE && EQ != IN && NE != IN && SKU != REJECT
    ensures MISSING != EQ && MISSING != NE && MISSING != IN && PRESENT != EQ && PRESENT != NE && PRESENT != IN
    ensures FIELD_KEY != VALUE_KEY
  {
    assert MISSING[0] != PRESENT[0] && EQ[0] != NE[0] && EQ[0] != IN[0] && NE[0] != IN[0];
    assert FIELD_KEY[0] != VALUE_KEY[0];
  }

  lemma ValidateStoredCondition(c: Condition)
    ensures ValidateCondition(StoreCondition(c)) == if StorableCondition(c) then Ok(CleanCondition(c)) else Err
  {
    hide IsFieldName, Distinct;
    OperatorsDiffer();
    if c.In? {
      var items := StrItems(c.values);
      assert Get(StoreCondition(c), VALUES_KEY) == Some(Arr(items));
      assert Texts(items) == c.values;
      assert forall i :: 0 <= i < |items| ==> (IsText(Some(items[i]), 0) <==> |c.values[i]| <= MAX_SOURCE_LENGTH);
    }
  }

  lemma ValidateStoredOutput(output: Output)
    ensures ValidateOutput(Some(StoreOutput(output))) == if StorableOutput(output) then Ok(output) else Err
  {
    hide IsCleanTemplate;
    OperatorsDiffer();
  }

  lemma {:induction false} ValidateStoredConditions(conditions: seq<Condition>)
    ensures ValidateConditions(StoreConditions(conditions))
         == if StorableConditions(conditions) then Ok(CleanConditions(conditions)) else Err
  {
    hide ValidateCondition, StoreCondition, StorableCondition, CleanCondition;
    if conditions != [] {
      ValidateStoredCondition(conditions[0]);
      ValidateStoredConditions(conditions[1..]);
      assert conditions == [conditions[0]] + conditions[1..];
      assert StorableConditions(conditions) <==>
        StorableCondition(conditions[0]) && StorableConditions(conditions[1..]);
    }
  }

  lemma ValidateStoredRule(rule: Rule)
    ensures ValidateRule(StoreRule(rule))
         == if StorableRule(rule) then Ok(Rule(CleanConditions(rule.conditions), rule.output)) else Err
  {
    hide ValidateConditions, StoreConditions, ValidateOutput, StoreOutput, StorableConditions, StorableOutput,
         CleanConditions;
    ValidateStoredConditions(rule.conditions);
    ValidateStoredOutput(rule.output);
    assert Get(StoreRule(rule), CONDITIONS_KEY) == Some(Arr(StoreConditions(rule.conditions)));
    assert Get(StoreRule(rule), OUTPUT_KEY) == Some(StoreOutput(rule.output));
  }

  lemma {:induction false} ValidateStoredRules(rules: seq<Rule>)
    ensures ValidateRules(StoreRules(rules)) == if StorableRules(rules) then Ok(CleanRules(rules)) else Err
  {
    hide ValidateRule, StoreRule, StorableRule, CleanConditions;
    if rules != [] {
      ValidateStoredRule(rules[0]);
      ValidateStoredRules(rules[1..]);
      assert rules == [rules[0]] + rules[1..];
      assert StorableRules(rules) <==> StorableRule(rules[0]) && StorableRules(rules[1..]);
    }
  }

  /** A stored rule is accepted exactly when it is storable, and changed only by dropping repeated values. */
  lemma ValidateStored(rule: CompiledRule)
    ensures ValidateCompiledRule(Store(rule)) == if Storable(rule) then Ok(CleanRule(rule)) else Err
  {
    hide ValidateRules, StoreRules, ValidateOutput, StoreOutput, StorableRules, StorableOutput, CleanRules;
    ValidateStoredRules(rule.rules);
    ValidateStoredOutput(rule.fallback);
    assert Get(Store(rule), RULES_KEY) == Some(Arr(StoreRules(rule.rules)));
    assert Get(Store(rule), FALLBACK_KEY) == Some(StoreOutput(rule.fallback));
    assert Get(Store(rule), VERSION_KEY) == Some(Num(if rule.version == COMPILER_VERSION then ONE else []));
    assert ONE != [];
  }

  // ----- validating again changes nothing -----

  lemma DistinctStorable(values: seq<Text>)
    requires 1 <= |values| <= MAX_LIST_VALUES && forall i :: 0 <= i < |values| ==> |values[i]| <= MAX_SOURCE_LENGTH
    ensures var r := Distinct(values);
      && Distinct(r) == r && 1 <= |r| <= MAX_LIST_VALUES
      && forall i :: 0 <= i < |r| ==> |r[i]| <= MAX_SOURCE_LENGTH
  {
    hide Distinct;
    var r := Distinct(values);
    DistinctIsDistinct(values);
    DistinctIsDistinct(r);
    forall i | 0 <= i < |r|
      ensures |r[i]| <= MAX_SOURCE_LENGTH
    {
      assert r[i] in values;
    }
  }

  lemma AcceptedCondition(raw: Json)
    requires ValidateCondition(raw).Ok?
    ensures var c := ValidateCondition(raw).value; StorableCondition(c) && CleanCondition(c) == c
  {
    hide IsFieldName, Distinct;
    var c := ValidateCondition(raw).value;
    if c.In? {
      DistinctStorable(Texts(Get(raw, VALUES_KEY).value.items));
    }
  }

  lemma {:induction false} AcceptedConditions(items: seq<Json>)
    requires ValidateConditions(items).Ok?
    ensures var cs := ValidateConditions(items).value; StorableConditions(cs) && CleanConditions(cs) == cs
  {
    hide ValidateCondition, StorableCondition, CleanCondition;
    if items != [] {
      AcceptedCondition(items[0]);
      AcceptedConditions(items[1..]);
      var cs := ValidateConditions(items).value;
      assert cs[1..] == ValidateConditions(items[1..]).value;
      assert cs == [cs[0]] + cs[1..];
    }
  }

  lemma AcceptedOutput(raw: Option<Json>)
    requires ValidateOutput(raw).Ok?
    ensures StorableOutput(ValidateOutput(raw).value)
  {
    hide IsCleanTemplate;
  }

  lemma {:induction false} AcceptedRules(items: seq<Json>)
    requires ValidateRules(items).Ok?
    ensures var rules := ValidateRules(items).value; StorableRules(rules) && CleanRules(rules) == rules
  {
    hide ValidateConditions, ValidateOutput, StorableConditions, StorableOutput, CleanConditions;
    if items != [] {
      AcceptedConditions(Get(items[0], CONDITIONS_KEY).value.items);
      AcceptedOutput(Get(items[0], OUTPUT_KEY));
      AcceptedRules(items[1..]);
      var rules := ValidateRules(items).value;
      assert rules[1..] == ValidateRules(items[1..]).value;
      assert rules == [rules[0]] + rules[1..];
    }
  }

  /** Validation is idempotent: what it accepts from any JSON value, it accepts again unchanged. */
  lemma ValidationIdempotent(value: Json)
    requires ValidateCompiledRule(value).Ok?
    ensures var rule := ValidateCompiledRule(value).value; ValidateCompiledRule(Store(rule)) == Ok(rule)
  {
    hide ValidateRules, ValidateOutput, StorableRules, StorableOutput, CleanRules, Store;
    var rule := ValidateCompiledRule(value).value;
    AcceptedRules(Get(value, RULES_KEY).value.items);
    AcceptedOutput(Get(value, FALLBACK_KEY));
    ValidateStored(rule);
  }

  // ----- validation preserves evaluation -----

  lemma {:induction false} CleanConditionsAt(conditions: seq<Condition>, k: nat)
    requires k < |conditions|
    ensures CleanConditions(conditions)[k] == CleanCondition(conditions[k])
  {
    if k > 0 {
      CleanConditionsAt(conditions[1..], k - 1);
    }
  }

  lemma CleanConditionsMatch(conditions: seq<Condition>, facts: Facts)
    ensures AllMatch(CleanConditions(conditions), facts) == AllMatch(conditions, facts)
  {
    forall k | 0 <= k < |conditions|
      ensures ConditionMatches(CleanConditions(conditions)[k], facts) == ConditionMatches(conditions[k], facts)
    {
      CleanConditionsAt(conditions, k);
    }
  }

  lemma {:induction false} CleanRulesEvaluate(rules: seq<Rule>, fallback: Output, facts: Facts)
    ensures EvaluateRules(CleanRules(rules), fallback, facts) == EvaluateRules(rules, fallback, facts)
  {
    hide RenderOutput, AllMatch, CleanConditions;
    if rules != [] {
      CleanConditionsMatch(rules[0].conditions, facts);
      CleanRulesEvaluate(rules[1..], fallback, facts);
      assert CleanRules(rules)[1..] == CleanRules(rules[1..]);
    }
  }

  /** A stored rule that is accepted evaluates as it did before it was stored, on all facts. */
  lemma StoredRuleEvaluates(rule: CompiledRule, facts: Facts)
    requires ValidateCompiledRule(Store(rule)).Ok?
    ensures EvaluateSkuRule(ValidateCompiledRule(Store(rule)).value, facts) == EvaluateSkuRule(rule, facts)
  {
    hide ValidateCompiledRule, Store, Storable, EvaluateRules, CleanRules;
    ValidateStored(rule);
    CleanRulesEvaluate(rule.rules, rule.fallback, facts);
  }

  // ----- evaluating a JSON value as it stands -----

  /** A condition object matches, by its own properties; one that names no operator never does. */
  predicate RawMatches(raw: Json, facts: Facts) {
    var field, operator := Get(raw, FIELD_KEY), Get(raw, OPERATOR_KEY);
    var fact := if field.Some? && field.value.Str? then Fact(facts, field.value.text) else None;
    var same := fact.Some? && Get(raw, VALUE_KEY) == Some(Str(fact.value));
    var values := Get(raw, VALUES_KEY);
    if operator == Some(Str(MISSING)) then IsBlank(fact)
    else if operator == Some(Str(PRESENT)) then !IsBlank(fact)
    else if operator == Some(Str(EQ)) then same
    else if operator == Some(Str(NE)) then !same
    else if operator == Some(Str(IN)) then fact.Some? && values.Some? && values.value.Arr?
      && Str(fact.value) in values.value.items
    else false
  }

  function RawOutput(raw: Option<Json>, facts: Facts): Evaluation {
    if raw == None || Get(raw.value, TYPE_KEY) == Some(Str(REJECT)) then Rejected
    else
      match Get(raw.value, TEMPLATE_KEY)
      case Some(Str(template)) => RenderOutput(Sku(template), facts)
      case _ => Rejected
  }

  function Items(raw: Option<Json>): seq<Json> {
    if raw.Some? && raw.value.Arr? then raw.value.items else []
  }

  predicate AllRawMatch(conditions: seq<Json>, facts: Facts) {
    forall k :: 0 <= k < |conditions| ==> RawMatches(conditions[k], facts)
  }

  function RawEvaluateRules(rules: seq<Json>, fallback: Option<Json>, facts: Facts): Evaluation {
    if rules == [] then RawOutput(fallback, facts)
    else if AllRawMatch(Items(Get(rules[0], CONDITIONS_KEY)), facts) then RawOutput(Get(rules[0], OUTPUT_KEY), facts)
    else RawEvaluateRules(rules[1..], fallback, facts)
  }

  /** The evaluator on a JSON value that nobody validated. */
  function RawEvaluate(value: Json, facts: Facts): Evaluation {
    RawEvaluateRules(Items(Get(value, RULES_KEY)), Get(value, FALLBACK_KEY), facts)
  }

  lemma RawConditionAgrees(raw: Json, facts: Facts)
    requires ValidateCondition(raw).Ok?
    ensures RawMatches(raw, facts) == ConditionMatches(ValidateCondition(raw).value, facts)
  {
    hide IsFieldName, Distinct;
    OperatorsDiffer();
    var values := Get(raw, VALUES_KEY);
    if ValidateCondition(raw).value.In? {
      var items := values.value.items;
      forall v ensures v in Texts(items) <==> Str(v) in items {
        if v in Texts(items) {
          var k :| 0 <= k < |items| && Texts(items)[k] == v;
          assert items[k] == Str(v);
        }
        if Str(v) in items {
          var k :| 0 <= k < |items| && items[k] == Str(v);
          assert Texts(items)[k] == v;
        }
      }
    }
  }

  lemma RawOutputAgrees(raw: Option<Json>, facts: Facts)
    requires ValidateOutput(raw).Ok?
    ensures RawOutput(raw, facts) == RenderOutput(ValidateOutput(raw).value, facts)
  {
    hide IsCleanTemplate, RenderTokens, Tokens;
  }

  lemma {:induction false} ValidatedEach(items: seq<Json>, k: nat)
    requires ValidateConditions(items).Ok? && k < |items|
    ensures ValidateCondition(items[k]) == Ok(ValidateConditions(items).value[k])
  {
    hide ValidateCondition;
    if k > 0 {
      ValidatedEach(items[1..], k - 1);
    }
  }

  lemma AllRawAgree(items: seq<Json>, facts: Facts)
    requires ValidateConditions(items).Ok?
    ensures AllRawMatch(items, facts) == AllMatch(ValidateConditions(items).value, facts)
  {
    hide RawMatches, ConditionMatches, ValidateCondition;
    forall k | 0 <= k < |items|
      ensures RawMatches(items[k], facts) == ConditionMatches(ValidateConditions(items).value[k], facts)
    {
      ValidatedEach(items, k);
      RawConditionAgrees(items[k], facts);
    }
  }

  lemma RawRuleAgrees(raw: Json, facts: Facts)
    requires ValidateRule(raw).Ok?
    ensures var rule := ValidateRule(raw).value;
      && AllRawMatch(Items(Get(raw, CONDITIONS_KEY)), facts) == AllMatch(rule.conditions, facts)
      && RawOutput(Get(raw, OUTPUT_KEY), facts) == RenderOutput(rule.output, facts)
  {
    hide ValidateConditions, ValidateOutput, AllRawMatch, AllMatch, RawOutput, RenderOutput;
    AllRawAgree(Get(raw, CONDITIONS_KEY).value.items, facts);
    RawOutputAgrees(Get(raw, OUTPUT_KEY), facts);
  }

  lemma {:induction false} RawRulesAgree(items: seq<Json>, fallback: Option<Json>, facts: Facts)
    requires ValidateRules(items).Ok? && ValidateOutput(fallback).Ok?
    ensures RawEvaluateRules(items, fallback, facts)
         == EvaluateRules(ValidateRules(items).value, ValidateOutput(fallback).value, facts)
  {
    hide ValidateRule, ValidateOutput, AllRawMatch, AllMatch, RawOutput, RenderOutput;
    if items == [] {
      RawOutputAgrees(fallback, facts);
    } else {
      RawRuleAgrees(items[0], facts);
      RawRulesAgree(items[1..], fallback, facts);
      var rules := ValidateRules(items).value;
      assert rules[0] == ValidateRule(items[0]).value && rules[1..] == ValidateRules(items[1..]).value;
    }
  }

  /** Every JSON value that the validator accepts evaluates after validation as it did as it stood, on all facts. */
  lemma ValidationPreservesEvaluation(value: Json, facts: Facts)
    requires ValidateCompiledRule(value).Ok?
    ensures EvaluateSkuRule(ValidateCompiledRule(value).value, facts) == RawEvaluate(value, facts)
  {
    hide ValidateRules, ValidateOutput, RawEvaluateRules, EvaluateRules;
    RawRulesAgree(Get(value, RULES_KEY).value.items, Get(value, FALLBACK_KEY), facts);
  }

  // ----- compiled rules are storable -----

  predicate BoundedCondition(c: Condition) {
    match c
    case Eq(_, value) => |value| <= MAX_SOURCE_LENGTH
    case Ne(_, value) => |value| <= MAX_SOURCE_LENGTH
    case In(_, values) => forall i :: 0 <= i < |values| ==> |values[i]| <= MAX_SOURCE_LENGTH
    case Missing(_) => true
    case Present(_) => true
  }

  predicate BoundedOutput(output: Output) {
    output.Sku? ==> |output.template| <= MAX_SOURCE_LENGTH
  }

  predicate BoundedRule(rule: Rule) {
    BoundedOutput(rule.output) && forall k :: 0 <= k < |rule.conditions| ==> BoundedCondition(rule.conditions[k])
  }

  lemma TailsBounded(rest: Text)
    ensures ListTail(rest).Some? ==> |ListTail(rest).value| <= |rest|
    ensures ComparisonTail(rest).Some? ==> |ComparisonTail(rest).value.1| <= |rest|
  {
    hide TrimLeft;
  }

  lemma ParsedConditionBounded(raw: Text, allowed: set<Text>)
    requires ParseCondition(raw, allowed).Ok? && |raw| <= MAX_SOURCE_LENGTH
    ensures BoundedCondition(ParseCondition(raw, allowed).value)
  {
    hide NameLength, PresenceTail, ListTail, ComparisonTail, ParseStringArray, ParseJsonString, Distinct;
    var rest := raw[NameLength(raw)..];
    TailsBounded(rest);
    var c := ParseCondition(raw, allowed).value;
    if c.In? {
      var list := ListTail(rest).value;
      ParseStringArrayBounded(list);
      forall i | 0 <= i < |c.values|
        ensures |c.values[i]| <= MAX_SOURCE_LENGTH
      {
        assert c.values[i] in ParseStringArray(list).value;
      }
    }
  }

  lemma {:induction false} ParsedConditionsBounded(parts: seq<Text>, allowed: set<Text>)
    requires ParseConditions(parts, allowed).Ok? && forall k :: 0 <= k < |parts| ==> |parts[k]| <= MAX_SOURCE_LENGTH
    ensures forall k :: 0 <= k < |parts| ==> BoundedCondition(ParseConditions(parts, allowed).value[k])
  {
    hide ParseCondition, BoundedCondition;
    if parts != [] {
      ParsedConditionsBounded(parts[..|parts| - 1], allowed);
      ParsedConditionBounded(parts[|parts| - 1], allowed);
    }
  }

  lemma {:induction false} JoinedPiecesBounded(pieces: seq<Text>, k: nat)
    requires k < |pieces|
    ensures |pieces[k]| <= |Join(pieces, AND)|
  {
    if k > 0 {
      JoinedPiecesBounded(pieces[1..], k - 1);
    }
  }

  lemma SplitBounded(raw: Text)
    requires SplitConjunctions(raw).Ok?
    ensures forall k :: 0 <= k < |SplitConjunctions(raw).value| ==> |SplitConjunctions(raw).value[k]| <= |raw|
  {
    hide Cut, Trim, IsPiece;
    var pieces := Cut(OUTSIDE, raw).value;
    CutIsTheSplit(raw, pieces);
    forall k | 0 <= k < |pieces|
      ensures |pieces[k]| <= |raw|
    {
      JoinedPiecesBounded(pieces, k);
    }
  }

  lemma ParsedRuleBounded(line: Text, allowed: set<Text>)
    requires ParseRule(line, allowed).Ok? && |line| <= MAX_SOURCE_LENGTH
    ensures BoundedRule(ParseRule(line, allowed).value)
  {
    hide SplitConjunctions, ParseConditions, BoundedCondition, TrimLeft, TrimRight, Trim, FirstArrow, ParseJsonString;
    var conditionText := WhenParts(line).value.0;
    SplitBounded(conditionText);
    ParsedConditionsBounded(SplitConjunctions(conditionText).value, allowed);
  }

  lemma {:induction false} CompiledLinesBounded(lines: seq<Text>, allowed: set<Text>)
    requires CompileLines(lines, allowed).Ok? && forall k :: 0 <= k < |lines| ==> |lines[k]| <= MAX_SOURCE_LENGTH
    ensures var rule := CompileLines(lines, allowed).value;
      BoundedOutput(rule.fallback) && forall k :: 0 <= k < |rule.rules| ==> BoundedRule(rule.rules[k])
  {
    hide ParseRule, BoundedRule, ParseJsonString, TrimLeft, Trim;
    if ElseBody(lines[0]) == None {
      ParsedRuleBounded(lines[0], allowed);
      CompiledLinesBounded(lines[1..], allowed);
    }
  }

  lemma {:induction false} CodeLinesBounded(parts: seq<Text>, n: nat)
    requires forall k :: 0 <= k < |parts| ==> |parts[k]| <= n
    ensures forall k :: 0 <= k < |CodeLines(parts)| ==> |CodeLines(parts)[k]| <= n
  {
    hide Trim;
    if parts != [] {
      CodeLinesBounded(parts[..|parts| - 1], n);
    }
  }

  predicate ShortFieldNames(rule: CompiledRule) {
    forall i, k :: 0 <= i < |rule.rules| && 0 <= k < |rule.rules[i].conditions| ==>
      |rule.rules[i].conditions[k].field| <= MAX_FIELD_NAME
  }

  lemma BoundedConditionStorable(c: Condition, allowed: set<Text>)
    requires ValidCondition(c, allowed) && BoundedCondition(c)
    ensures StorableCondition(c) <==> |c.field| <= MAX_FIELD_NAME
    ensures CleanCondition(c) == c
  {
    hide IsFieldName;
    if c.In? {
      DistinctIsDistinct(c.values);
    }
  }

  lemma {:induction false} CleanConditionsSame(conditions: seq<Condition>)
    requires forall k :: 0 <= k < |conditions| ==> CleanCondition(conditions[k]) == conditions[k]
    ensures CleanConditions(conditions) == conditions
  {
    hide CleanCondition;
    if conditions != [] {
      CleanConditionsSame(conditions[1..]);
    }
  }

  lemma BoundedRuleStorable(rule: Rule, allowed: set<Text>)
    requires ValidRuleLine(rule, allowed) && BoundedRule(rule)
    ensures StorableRule(rule) <==>
      forall k :: 0 <= k < |rule.conditions| ==> |rule.conditions[k].field| <= MAX_FIELD_NAME
    ensures CleanConditions(rule.conditions) == rule.conditions
  {
    hide ValidCondition, BoundedCondition, StorableCondition, CleanCondition, IsCleanTemplate, Fields, Tokens;
    forall k | 0 <= k < |rule.conditions|
      ensures StorableCondition(rule.conditions[k]) <==> |rule.conditions[k].field| <= MAX_FIELD_NAME
      ensures CleanCondition(rule.conditions[k]) == rule.conditions[k]
    {
      BoundedConditionStorable(rule.conditions[k], allowed);
    }
    CleanConditionsSame(rule.conditions);
  }

  lemma {:induction false} CleanRulesSame(rules: seq<Rule>)
    requires forall k :: 0 <= k < |rules| ==> CleanConditions(rules[k].conditions) == rules[k].conditions
    ensures CleanRules(rules) == rules
  {
    hide CleanConditions;
    if rules != [] {
      CleanRulesSame(rules[1..]);
    }
  }

  lemma CompiledRuleBounded(source: Text, allowed: set<Text>)
    requires CompileSkuRule(source, allowed).Ok?
    ensures var rule := CompileSkuRule(source, allowed).value;
      BoundedOutput(rule.fallback) && forall k :: 0 <= k < |rule.rules| ==> BoundedRule(rule.rules[k])
  {
    hide CompileLines, CodeLines, BoundedRule, BoundedOutput, SplitOn, Trim, NormalizeNewlines;
    var normalized := Trim(NormalizeNewlines(source));
    SplitPartsBounded(normalized, LF);
    CodeLinesBounded(SplitOn(normalized, LF), MAX_SOURCE_LENGTH);
    CompiledLinesBounded(CodeLines(SplitOn(normalized, LF)), allowed);
  }

  /** The validator accepts a compiled rule exactly when its field names are short, and returns it unchanged. */
  lemma CompiledRuleAccepted(source: Text, allowed: set<Text>)
    requires CompileSkuRule(source, allowed).Ok?
    ensures var rule := CompileSkuRule(source, allowed).value;
      ValidateCompiledRule(Store(rule)) == if ShortFieldNames(rule) then Ok(rule) else Err
  {
    hide CompileSkuRule, ValidateCompiledRule, Store, BoundedRule, ValidRuleLine, StorableRule, CleanRules,
         CleanConditions,
         IsCleanTemplate, Fields, Tokens;
    var rule := CompileSkuRule(source, allowed).value;
    CompiledRuleBounded(source, allowed);
    CompiledRuleValid(source, allowed);
    forall k | 0 <= k < |rule.rules|
      ensures StorableRule(rule.rules[k]) <==>
        forall j :: 0 <= j < |rule.rules[k].conditions| ==> |rule.rules[k].conditions[j].field| <= MAX_FIELD_NAME
      ensures CleanConditions(rule.rules[k].conditions) == rule.rules[k].conditions
    {
      BoundedRuleStorable(rule.rules[k], allowed);
    }
    CleanRulesSame(rule.rules);
    ValidateStored(rule);
  }
}
