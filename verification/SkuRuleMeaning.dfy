/** What a compiled SKU rule answers, stated on the facts of a request as they stand in the map: which output
    is chosen, and exactly when it is a key, a rejection or a missing fact. */
module SkuRuleMeaning {
  import opened Wrappers
  import opened CodeUnits
  import opened SkuTemplates
  import opened TemplateReadings
  import opened SkuRules
  import opened SkuRuleEvaluation

  /** The request holds a non-empty string for the field. */
  ghost predicate IsFilled(facts: Facts, field: Text) {
    field in facts && facts[field].Some? && facts[field].value != []
  }

  ghost predicate Holds(c: Condition, facts: Facts) {
    match c
    case Missing(field) => !IsFilled(facts, field)
    case Present(field) => IsFilled(facts, field)
    case Eq(field, value) => field in facts && facts[field] == Some(value)
    case Ne(field, value) => !(field in facts && facts[field] == Some(value))
    case In(field, values) => field in facts && facts[field].Some? && facts[field].value in values
  }

  ghost predicate AllHold(conditions: seq<Condition>, facts: Facts) {
    forall k :: 0 <= k < |conditions| ==> Holds(conditions[k], facts)
  }

  /** The output of the first rule whose conditions all hold, or the one behind `else`. */
  ghost predicate IsChosen(rule: CompiledRule, facts: Facts, output: Output) {
    || (exists i ::
          && 0 <= i < |rule.rules| && AllHold(rule.rules[i].conditions, facts) && output == rule.rules[i].output
          && forall j :: 0 <= j < i ==> !AllHold(rule.rules[j].conditions, facts))
    || ((forall j :: 0 <= j < |rule.rules| ==> !AllHold(rule.rules[j].conditions, facts)) && output == rule.fallback)
  }

  ghost predicate AllFilled(facts: Facts, names: seq<Text>) {
    forall k :: 0 <= k < |names| ==> IsFilled(facts, names[k])
  }

  ghost function FactsOf(facts: Facts, names: seq<Text>): (values: seq<Text>)
    requires AllFilled(facts, names)
    ensures |values| == |names| && forall k :: 0 <= k < |names| ==> values[k] == facts[names[k]].value
  {
    seq(|names|, k requires 0 <= k < |names| => facts[names[k]].value)
  }

  /** The template, all of whose placeholders have facts, with each placeholder replaced by its fact. */
  ghost predicate Renders(template: Text, facts: Facts, key: Text) {
    exists lits, names ::
      && IsReading(template, lits, names) && |lits| == |names| + 1
      && AllFilled(facts, names) && key == Fill(lits, FactsOf(facts, names))
  }

  /** Some placeholder of the template names a field that is absent, null or empty. */
  ghost predicate LacksFact(template: Text, facts: Facts) {
    exists lits, names, k ::
      IsReading(template, lits, names) && 0 <= k < |names| && !IsFilled(facts, names[k])
  }

  // ----- conditions -----

  lemma HoldsExactly(c: Condition, facts: Facts)
    ensures ConditionMatches(c, facts) <==> Holds(c, facts)
  {
  }

  lemma AllHoldExactly(conditions: seq<Condition>, facts: Facts)
    ensures AllMatch(conditions, facts) <==> AllHold(conditions, facts)
  {
    hide ConditionMatches, Holds;
    forall k | 0 <= k < |conditions|
      ensures ConditionMatches(conditions[k], facts) <==> Holds(conditions[k], facts)
    {
      HoldsExactly(conditions[k], facts);
    }
  }

  /** There is one chosen output, and it is the one rendered. */
  lemma {:induction false} FirstChosen(rule: CompiledRule, facts: Facts) returns (output: Output)
    ensures IsChosen(rule, facts, output)
    ensures EvaluateSkuRule(rule, facts) == RenderOutput(output, facts)
    decreases |rule.rules|
  {
    hide AllMatch, AllHold, RenderOutput;
    if rule.rules == [] {
      output := rule.fallback;
    } else {
      AllHoldExactly(rule.rules[0].conditions, facts);
      if AllHold(rule.rules[0].conditions, facts) {
        output := rule.rules[0].output;
      } else {
        var rest := rule.(rules := rule.rules[1..]);
        output := FirstChosen(rest, facts);
        ChosenFromRest(rule, facts, output);
      }
    }
  }

  lemma ChosenFromRest(rule: CompiledRule, facts: Facts, output: Output)
    requires rule.rules != [] && !AllHold(rule.rules[0].conditions, facts)
    requires IsChosen(rule.(rules := rule.rules[1..]), facts, output)
    ensures IsChosen(rule, facts, output)
  {
    hide AllHold;
    var rest := rule.rules[1..];
    assert forall j :: 0 <= j < |rest| ==> rest[j] == rule.rules[j + 1];
    assert forall j :: 1 <= j < |rule.rules| ==> rule.rules[j] == rest[j - 1];
    if i :| 0 <= i < |rest| && AllHold(rest[i].conditions, facts) && output == rest[i].output
            && forall j :: 0 <= j < i ==> !AllHold(rest[j].conditions, facts) {
      assert AllHold(rule.rules[i + 1].conditions, facts);
    }
  }

  lemma ChosenIsUnique(rule: CompiledRule, facts: Facts, a: Output, b: Output)
    requires IsChosen(rule, facts, a) && IsChosen(rule, facts, b)
    ensures a == b
  {
    hide AllHold;
  }

  // ----- rendering -----

  lemma {:induction false} RenderUnits(s: Text, more: seq<Token>, facts: Facts)
    ensures RenderTokens(Units(s) + more, facts) == (s + RenderTokens(more, facts).0, RenderTokens(more, facts).1)
  {
    if s == [] {
      assert Units(s) + more == more;
      assert s + RenderTokens(more, facts).0 == RenderTokens(more, facts).0;
    } else {
      RenderUnits(s[1..], more, facts);
      var text := RenderTokens(more, facts).0;
      assert (Units(s) + more)[0] == Unit(s[0]) && (Units(s) + more)[1..] == Units(s[1..]) + more;
      assert [s[0]] + (s[1..] + text) == s + text;
    }
  }

  lemma RenderHole(name: Text, more: seq<Token>, facts: Facts)
    ensures var (text, missing) := RenderTokens(more, facts);
      RenderTokens([Hole(name)] + more, facts)
      == if IsFilled(facts, name) then (facts[name].value + text, missing) else (text, true)
  {
    assert ([Hole(name)] + more)[1..] == more;
  }

  lemma RenderNothing(facts: Facts)
    ensures RenderTokens([], facts) == ([], false)
  {
  }

  lemma AllFilledTail(facts: Facts, names: seq<Text>)
    requires names != []
    ensures AllFilled(facts, names) <==> IsFilled(facts, names[0]) && AllFilled(facts, names[1..])
    ensures AllFilled(facts, names) ==> FactsOf(facts, names)[1..] == FactsOf(facts, names[1..])
  {
    hide IsFilled;
    assert forall k :: 1 <= k < |names| ==> names[k] == names[1..][k - 1];
  }

  lemma {:induction false} RenderReading(lits: seq<Text>, names: seq<Text>, facts: Facts)
    requires |lits| == |names| + 1
    ensures RenderTokens(TokensOf(lits, names), facts).1 <==> !AllFilled(facts, names)
    ensures AllFilled(facts, names) ==>
      RenderTokens(TokensOf(lits, names), facts).0 == Fill(lits, FactsOf(facts, names))
    decreases |names|
  {
    hide RenderTokens, Units, IsFilled;
    if names == [] {
      RenderUnits(lits[0], [], facts);
      RenderNothing(facts);
      assert Units(lits[0]) + [] == Units(lits[0]);
      assert lits[0] + [] == lits[0];
    } else {
      var more := TokensOf(lits[1..], names[1..]);
      RenderReading(lits[1..], names[1..], facts);
      RenderHole(names[0], more, facts);
      RenderUnits(lits[0], [Hole(names[0])] + more, facts);
      AllFilledTail(facts, names);
      if AllFilled(facts, names) {
        var values := FactsOf(facts, names);
        assert lits[0] + (values[0] + Fill(lits[1..], values[1..]))
          == lits[0] + values[0] + Fill(lits[1..], values[1..]);
      }
    }
  }

  lemma TemplateRendered(template: Text, facts: Facts, lits: seq<Text>, names: seq<Text>)
    requires IsReading(template, lits, names)
    ensures |lits| == |names| + 1
    ensures RenderOutput(Sku(template), facts)
         == if AllFilled(facts, names) then Key(Fill(lits, FactsOf(facts, names))) else MissingTemplateFact
  {
    hide IsReading, RenderTokens, AllFilled, Fill;
    ReadingShape(template, lits, names);
    ReadingTokens(template, lits, names);
    RenderReading(lits, names, facts);
  }

  lemma UnfilledName(facts: Facts, names: seq<Text>) returns (k: int)
    requires !AllFilled(facts, names)
    ensures 0 <= k < |names| && !IsFilled(facts, names[k])
  {
    hide IsFilled;
    k :| 0 <= k < |names| && !IsFilled(facts, names[k]);
  }

  lemma SkuRendered(template: Text, facts: Facts)
    ensures forall key :: RenderOutput(Sku(template), facts) == Key(key) <==> Renders(template, facts, key)
    ensures RenderOutput(Sku(template), facts) == MissingTemplateFact <==> LacksFact(template, facts)
    ensures RenderOutput(Sku(template), facts) != Rejected
  {
    hide IsReading, RenderOutput, IsFilled, Fill;
    var lits, names := ReadingExists(template);
    TemplateRendered(template, facts, lits, names);
    if !AllFilled(facts, names) {
      var k := UnfilledName(facts, names);
    }
    if LacksFact(template, facts) {
      var others, fields, k :| IsReading(template, others, fields) && 0 <= k < |fields| && !IsFilled(facts, fields[k]);
      TemplateRendered(template, facts, others, fields);
    }
    forall key | Renders(template, facts, key)
      ensures RenderOutput(Sku(template), facts) == Key(key)
    {
      var others, fields :|
        && IsReading(template, others, fields) && |others| == |fields| + 1
        && AllFilled(facts, fields) && key == Fill(others, FactsOf(facts, fields));
      TemplateRendered(template, facts, others, fields);
    }
  }

  lemma RejectRendered(facts: Facts)
    ensures RenderOutput(Reject, facts) == Rejected
  {
  }

  // ----- the answer -----

  /** The answer is a key exactly when the chosen output is a template all of whose placeholders have facts. */
  lemma KeyExactly(rule: CompiledRule, facts: Facts, key: Text)
    ensures EvaluateSkuRule(rule, facts) == Key(key)
       <==> exists template :: IsChosen(rule, facts, Sku(template)) && Renders(template, facts, key)
  {
    hide IsChosen, Renders, RenderOutput, EvaluateSkuRule, LacksFact;
    var output := FirstChosen(rule, facts);
    RejectRendered(facts);
    if output.Sku? {
      SkuRendered(output.template, facts);
    }
    if template :| IsChosen(rule, facts, Sku(template)) && Renders(template, facts, key) {
      ChosenIsUnique(rule, facts, output, Sku(template));
    }
  }

  /** A fact is missing exactly when some placeholder of the chosen output has none. */
  lemma MissingExactly(rule: CompiledRule, facts: Facts)
    ensures EvaluateSkuRule(rule, facts) == MissingTemplateFact
       <==> exists template :: IsChosen(rule, facts, Sku(template)) && LacksFact(template, facts)
  {
    hide IsChosen, Renders, RenderOutput, EvaluateSkuRule, LacksFact;
    var output := FirstChosen(rule, facts);
    RejectRendered(facts);
    if output.Sku? {
      SkuRendered(output.template, facts);
    }
    if template :| IsChosen(rule, facts, Sku(template)) && LacksFact(template, facts) {
      ChosenIsUnique(rule, facts, output, Sku(template));
    }
  }

  /** The request is rejected exactly when the chosen output is `reject`. */
  lemma RejectedExactly(rule: CompiledRule, facts: Facts)
    ensures EvaluateSkuRule(rule, facts) == Rejected <==> IsChosen(rule, facts, Reject)
  {
    hide IsChosen, RenderOutput, EvaluateSkuRule;
    var output := FirstChosen(rule, facts);
    RejectRendered(facts);
    if output.Sku? {
      SkuRendered(output.template, facts);
    }
    if IsChosen(rule, facts, Reject) {
      ChosenIsUnique(rule, facts, output, Reject);
    }
  }
}
