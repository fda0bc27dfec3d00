/** The JSON records of compiled rules, stated by their own properties, and the proof that the validator
    accepts exactly these records and returns the rule that they describe. */
module SkuRuleRecords {
  import opened Wrappers
  import opened CodeUnits
  import opened JsonValues
  import opened SkuTemplates
  import opened TemplateReadings
  import opened SkuRules
  import opened SkuConditionGrammar
  import opened SkuRuleStorage

  ghost predicate HasProperty(value: Json, key: string, property: Json) {
    value.Obj? && Ascii(key) in value.members && value.members[Ascii(key)] == property
  }

  ghost predicate IsTextList(items: seq<Json>, texts: seq<Text>) {
    |items| == |texts| && forall i :: 0 <= i < |items| ==> items[i] == Str(texts[i]) && |texts[i]| <= 8192
  }

  ghost predicate DescribesCondition(raw: Json, c: Condition) {
    && HasProperty(raw, "field", Str(c.field)) && IsName(c.field) && |c.field| <= 128
    && match c
       case Missing(_) => HasProperty(raw, "operator", Str(Ascii("missing")))
       case Present(_) => HasProperty(raw, "operator", Str(Ascii("present")))
       case Eq(_, value) =>
         HasProperty(raw, "operator", Str(Ascii("eq"))) && HasProperty(raw, "value", Str(value)) && 1 <= |value| <= 8192
       case Ne(_, value) =>
         HasProperty(raw, "operator", Str(Ascii("ne"))) && HasProperty(raw, "value", Str(value)) && 1 <= |value| <= 8192
       case In(_, values) =>
         HasProperty(raw, "operator", Str(Ascii("in")))
         && exists items, all ::
           && HasProperty(raw, "values", Arr(items)) && IsTextList(items, all)
           && 1 <= |all| <= 32 && KeepsFirst(all, values)
  }

  /** No `${` is left once the placeholders are gone. */
  ghost predicate IsClean(template: Text) {
    exists lits, names :: IsReading(template, lits, names) && lits != [] && !HoldsOpener(Bare(lits))
  }

  ghost predicate DescribesOutput(raw: Json, output: Output) {
    match output
    case Reject => HasProperty(raw, "type", Str(Ascii("reject")))
    case Sku(template) =>
      && HasProperty(raw, "type", Str(Ascii("sku"))) && HasProperty(raw, "template", Str(template))
      && 1 <= |template| <= 8192 && IsClean(template)
  }

  ghost predicate DescribesRule(raw: Json, rule: Rule) {
    exists items, output ::
      && HasProperty(raw, "conditions", Arr(items)) && HasProperty(raw, "output", output)
      && 1 <= |items| <= 12 && |items| == |rule.conditions|
      && (forall k :: 0 <= k < |items| ==> DescribesCondition(items[k], rule.conditions[k]))
      && DescribesOutput(output, rule.output)
  }

  ghost predicate DescribesCompiledRule(raw: Json, rule: CompiledRule) {
    && HasProperty(raw, "version", Num(Ascii("1"))) && rule.version == 1
    && exists items, fallback ::
      && HasProperty(raw, "rules", Arr(items)) && HasProperty(raw, "fallback", fallback)
      && |items| <= 64 && |items| == |rule.rules|
      && (forall k :: 0 <= k < |items| ==> DescribesRule(items[k], rule.rules[k]))
      && DescribesOutput(fallback, rule.fallback)
  }

  // ----- conditions -----

  lemma Property(value: Json, key: string, property: Json)
    ensures HasProperty(value, key, property) <==> Get(value, Ascii(key)) == Some(property)
  {
  }

  lemma ConditionKeys()
    ensures Ascii("field") == FIELD_KEY && Ascii("operator") == OPERATOR_KEY
    ensures Ascii("value") == VALUE_KEY && Ascii("values") == VALUES_KEY
  {
  }

  lemma RuleKeys()
    ensures Ascii("type") == TYPE_KEY && Ascii("template") == TEMPLATE_KEY && Ascii("conditions") == CONDITIONS_KEY
    ensures Ascii("output") == OUTPUT_KEY && Ascii("1") == ONE
  {
  }

  lemma CompiledRuleKeys()
    ensures Ascii("version") == VERSION_KEY && Ascii("rules") == RULES_KEY && Ascii("fallback") == FALLBACK_KEY
  {
  }

  lemma Operators()
    ensures Ascii("eq") == EQ && Ascii("ne") == NE && Ascii("sku") == SKU
  {
  }

  ghost predicate IsStoredList(raw: Json, values: seq<Text>) {
    && IsList(Get(raw, VALUES_KEY), 1, MAX_LIST_VALUES)
    && (forall i :: 0 <= i < |Get(raw, VALUES_KEY).value.items| ==>
      IsText(Some(Get(raw, VALUES_KEY).value.items[i]), 0))
    && values == Distinct(Texts(Get(raw, VALUES_KEY).value.items))
  }

  lemma ListExactly(raw: Json, values: seq<Text>)
    ensures IsStoredList(raw, values)
       <==> exists items, all ::
         && HasProperty(raw, "values", Arr(items)) && IsTextList(items, all)
         && 1 <= |all| <= 32 && KeepsFirst(all, values)
  {
    hide KeepsFirst, Distinct, HasProperty;
    ConditionKeys();
    if IsStoredList(raw, values) {
      var items := Get(raw, VALUES_KEY).value.items;
      Property(raw, "values", Arr(items));
      DistinctExactly(Texts(items), values);
      assert forall i :: 0 <= i < |items| ==> IsText(Some(items[i]), 0);
      assert IsTextList(items, Texts(items));
    }
    if items, all :|
      && HasProperty(raw, "values", Arr(items)) && IsTextList(items, all)
      && 1 <= |all| <= 32 && KeepsFirst(all, values) {
      Property(raw, "values", Arr(items));
      assert Texts(items) == all;
      DistinctExactly(all, values);
    }
  }

  lemma ConditionRead(raw: Json, c: Condition)
    ensures ValidateCondition(raw) == Ok(c)
       <==> && Get(raw, FIELD_KEY) == Some(Str(c.field)) && IsStoredFieldName(c.field)
            && match c
               case Missing(_) => Get(raw, OPERATOR_KEY) == Some(Str(MISSING))
               case Present(_) => Get(raw, OPERATOR_KEY) == Some(Str(PRESENT))
               case Eq(_, value) => Get(raw, OPERATOR_KEY) == Some(Str(EQ)) && Get(raw, VALUE_KEY) == Some(Str(value))
                                    && 1 <= |value| <= MAX_SOURCE_LENGTH
               case Ne(_, value) => (Get(raw, OPERATOR_KEY) == Some(Str(NE)) && Get(raw, VALUE_KEY) == Some(Str(value))
                                     && 1 <= |value| <= MAX_SOURCE_LENGTH)
               case In(_, values) => Get(raw, OPERATOR_KEY) == Some(Str(IN)) && IsStoredList(raw, values)
  {
    hide Distinct, IsStoredFieldName, Get;
    OperatorsDiffer();
  }

  lemma ConditionExactly(raw: Json, c: Condition)
    ensures ValidateCondition(raw) == Ok(c) <==> DescribesCondition(raw, c)
  {
    hide HasProperty, Get, ValidateCondition, IsStoredList, IsTextList, KeepsFirst, IsName, IsFieldName;
    Words();
    Operators();
    ConditionKeys();
    ConditionRead(raw, c);
    Property(raw, "field", Str(c.field));
    var operator := match c case Missing(_) => MISSING case Present(_) => PRESENT case Eq(_, _) => EQ case Ne(_, _) =>
      NE
      case In(_, _) => IN;
    Property(raw, "operator", Str(operator));
    match c
    case Missing(_) =>
    case Present(_) =>
    case Eq(_, value) => Property(raw, "value", Str(value));
    case Ne(_, value) => Property(raw, "value", Str(value));
    case In(_, values) => ListExactly(raw, values);
  }

  // ----- outputs, rules and the whole record -----

  lemma CleanExactly(template: Text)
    ensures IsCleanTemplate(template) <==> IsClean(template)
  {
    hide IsReading, IsCleanTemplate, Tokens, HoldsOpener, Bare, Fields;
    var lits, names := ReadingExists(template);
    ReadingShape(template, lits, names);
    TemplateExactly(template, lits, names, Fields(Tokens(template)) + set k | 0 <= k < |names| :: names[k]);
    if others, fields :| IsReading(template, others, fields) && others != [] && !HoldsOpener(Bare(others)) {
      TemplateExactly(template, others, fields, Fields(Tokens(template)) + set k | 0 <= k < |fields| :: fields[k]);
    }
  }

  lemma OutputExactly(raw: Json, output: Output)
    ensures ValidateOutput(Some(raw)) == Ok(output) <==> DescribesOutput(raw, output)
  {
    hide IsCleanTemplate, IsClean, HasProperty;
    Words();
    Operators();
    RuleKeys();
    OperatorsDiffer();
    match output
    case Reject => Property(raw, "type", Str(REJECT));
    case Sku(template) =>
      Property(raw, "type", Str(SKU));
      Property(raw, "template", Str(template));
      CleanExactly(template);
  }

  lemma {:induction false} ConditionsExactly(items: seq<Json>, cs: seq<Condition>)
    ensures ValidateConditions(items) == Ok(cs)
       <==> |items| == |cs| && forall k :: 0 <= k < |items| ==> DescribesCondition(items[k], cs[k])
  {
    hide ValidateCondition, DescribesCondition;
    if items != [] && cs != [] {
      ConditionExactly(items[0], cs[0]);
      ConditionsExactly(items[1..], cs[1..]);
      assert cs == [cs[0]] + cs[1..];
      assert forall k :: 1 <= k < |items| ==> items[k] == items[1..][k - 1];
      assert forall k :: 1 <= k < |cs| ==> cs[k] == cs[1..][k - 1];
      if ValidateConditions(items) == Ok(cs) {
        assert cs == [ValidateCondition(items[0]).Extract()] + ValidateConditions(items[1..]).Extract();
      }
      if ValidateCondition(items[0]) == Ok(cs[0]) && ValidateConditions(items[1..]) == Ok(cs[1..]) {
        assert ValidateCondition(items[0]).Extract() == cs[0] && ValidateConditions(items[1..]).Extract() == cs[1..];
      }
    }
  }

  lemma RuleRead(raw: Json, rule: Rule)
    ensures ValidateRule(raw) == Ok(rule)
       <==> && IsList(Get(raw, CONDITIONS_KEY), 1, 12)
            && ValidateConditions(Get(raw, CONDITIONS_KEY).value.items) == Ok(rule.conditions)
            && ValidateOutput(Get(raw, OUTPUT_KEY)) == Ok(rule.output)
  {
    hide ValidateConditions, ValidateOutput, Get;
    if ValidateRule(raw) == Ok(rule) {
      var conditions := ValidateConditions(Get(raw, CONDITIONS_KEY).value.items).Extract();
      assert rule == Rule(conditions, ValidateOutput(Get(raw, OUTPUT_KEY)).Extract());
    }
    if && IsList(Get(raw, CONDITIONS_KEY), 1, 12)
       && ValidateConditions(Get(raw, CONDITIONS_KEY).value.items) == Ok(rule.conditions)
       && ValidateOutput(Get(raw, OUTPUT_KEY)) == Ok(rule.output) {
      assert ValidateConditions(Get(raw, CONDITIONS_KEY).value.items).Extract() == rule.conditions;
      assert ValidateOutput(Get(raw, OUTPUT_KEY)).Extract() == rule.output;
    }
  }

  lemma NoOutput()
    ensures ValidateOutput(None) == Err
  {
  }

  lemma RuleExactly(raw: Json, rule: Rule)
    ensures ValidateRule(raw) == Ok(rule) <==> DescribesRule(raw, rule)
  {
    hide ValidateRule, ValidateConditions, ValidateOutput, DescribesCondition, DescribesOutput, HasProperty, Get;
    RuleKeys();
    RuleRead(raw, rule);
    NoOutput();
    if ValidateRule(raw) == Ok(rule) {
      var items, output := Get(raw, CONDITIONS_KEY).value.items, Get(raw, OUTPUT_KEY).value;
      Property(raw, "conditions", Arr(items));
      Property(raw, "output", output);
      ConditionsExactly(items, rule.conditions);
      OutputExactly(output, rule.output);
    }
    if items, output :|
      && HasProperty(raw, "conditions", Arr(items)) && HasProperty(raw, "output", output)
      && 1 <= |items| <= 12 && |items| == |rule.conditions|
      && (forall k :: 0 <= k < |items| ==> DescribesCondition(items[k], rule.conditions[k]))
      && DescribesOutput(output, rule.output) {
      Property(raw, "conditions", Arr(items));
      Property(raw, "output", output);
      ConditionsExactly(items, rule.conditions);
      OutputExactly(output, rule.output);
    }
  }

  lemma {:induction false} RulesExactly(items: seq<Json>, rules: seq<Rule>)
    ensures ValidateRules(items) == Ok(rules)
       <==> |items| == |rules| && forall k :: 0 <= k < |items| ==> DescribesRule(items[k], rules[k])
  {
    hide ValidateRule, DescribesRule;
    if items != [] && rules != [] {
      RuleExactly(items[0], rules[0]);
      RulesExactly(items[1..], rules[1..]);
      assert rules == [rules[0]] + rules[1..];
      assert forall k :: 1 <= k < |items| ==> items[k] == items[1..][k - 1];
      assert forall k :: 1 <= k < |rules| ==> rules[k] == rules[1..][k - 1];
      if ValidateRules(items) == Ok(rules) {
        assert rules == [ValidateRule(items[0]).Extract()] + ValidateRules(items[1..]).Extract();
      }
      if ValidateRule(items[0]) == Ok(rules[0]) && ValidateRules(items[1..]) == Ok(rules[1..]) {
        assert ValidateRule(items[0]).Extract() == rules[0] && ValidateRules(items[1..]).Extract() == rules[1..];
      }
    }
  }

  lemma CompiledRuleRead(raw: Json, rule: CompiledRule)
    ensures ValidateCompiledRule(raw) == Ok(rule)
       <==> && Get(raw, VERSION_KEY) == Some(Num(ONE)) && rule.version == 1 && IsList(Get(raw, RULES_KEY), 0, 64)
            && ValidateRules(Get(raw, RULES_KEY).value.items) == Ok(rule.rules)
            && ValidateOutput(Get(raw, FALLBACK_KEY)) == Ok(rule.fallback)
  {
    hide ValidateRules, ValidateOutput, Get;
    if ValidateCompiledRule(raw) == Ok(rule) {
      var rules := ValidateRules(Get(raw, RULES_KEY).value.items).Extract();
      assert rule == CompiledRule(1, rules, ValidateOutput(Get(raw, FALLBACK_KEY)).Extract());
    }
    if && Get(raw, VERSION_KEY) == Some(Num(ONE)) && rule.version == 1 && IsList(Get(raw, RULES_KEY), 0, 64)
       && ValidateRules(Get(raw, RULES_KEY).value.items) == Ok(rule.rules)
       && ValidateOutput(Get(raw, FALLBACK_KEY)) == Ok(rule.fallback) {
      assert ValidateRules(Get(raw, RULES_KEY).value.items).Extract() == rule.rules;
      assert ValidateOutput(Get(raw, FALLBACK_KEY)).Extract() == rule.fallback;
    }
  }

  /** The validator accepts exactly the records of rules, and returns the rule each one describes. */
  lemma CompiledRuleExactly(raw: Json, rule: CompiledRule)
    ensures ValidateCompiledRule(raw) == Ok(rule) <==> DescribesCompiledRule(raw, rule)
  {
    hide ValidateCompiledRule, ValidateRules, ValidateOutput, DescribesRule, DescribesOutput, HasProperty, Get;
    RuleKeys();
    CompiledRuleKeys();
    CompiledRuleRead(raw, rule);
    NoOutput();
    Property(raw, "version", Num(ONE));
    if ValidateCompiledRule(raw) == Ok(rule) {
      var items, fallback := Get(raw, RULES_KEY).value.items, Get(raw, FALLBACK_KEY).value;
      Property(raw, "rules", Arr(items));
      Property(raw, "fallback", fallback);
      RulesExactly(items, rule.rules);
      OutputExactly(fallback, rule.fallback);
    }
    if DescribesCompiledRule(raw, rule) {
      var items, fallback :|
        && HasProperty(raw, "rules", Arr(items)) && HasProperty(raw, "fallback", fallback)
        && |items| <= 64 && |items| == |rule.rules|
        && (forall k :: 0 <= k < |items| ==> DescribesRule(items[k], rule.rules[k]))
        && DescribesOutput(fallback, rule.fallback);
      Property(raw, "rules", Arr(items));
      Property(raw, "fallback", fallback);
      RulesExactly(items, rule.rules);
      OutputExactly(fallback, rule.fallback);
    }
  }
}
