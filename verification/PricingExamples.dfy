/** A saved profile that cannot be published: its discounted price rounds to nothing. */
module PricingExamples {
  import opened Wrappers
  import opened CodeUnits
  import opened JsonValues
  import opened JsonStrings
  import opened JsonGrammar
  import opened Decimals
  import opened PricingRates
  import opened PricingSpecs
  import opened SkuTemplates
  import opened SkuRules
  import opened SkuRuleRoundTrip

  // ----- the default rule -----

  lemma {:induction false} PlainTextIsClean(v: Text)
    requires DOLLAR !in v
    ensures Residue(Tokens(v)) == v && forall k :: 0 <= k < |Tokens(v)| ==> Tokens(v)[k].Unit?
  {
    if v != [] {
      NoPlaceholderWithoutDollar(v);
      PlainTextIsClean(v[1..]);
      assert v == [v[0]] + v[1..];
      assert Tokens(v)[1..] == Tokens(v[1..]);
    }
  }

  const DEFAULT_AST := CompiledRule(COMPILER_VERSION, [], Sku(DEFAULT))

  function ListString(values: seq<Text>): Text {
    PrintList(values, QuoteString, NO_GAPS)
  }

  const NO_GAPS := Gaps([], _ => [], _ => [], [])

  const PLAIN := Style(QuoteString, ListString)

  lemma PlainIsStyle()
    ensures IsStyle(PLAIN)
  {
    hide QuoteString, PrintList, SpellsArray, IsInline, IsQuoter;
    QuoteStringIsQuoter();
    assert AreGaps(NO_GAPS);
    forall values: seq<Text> | values != []
      ensures SpellsArray(ListString(values), values) && IsInline(ListString(values))
    {
      PaddedList(values, QuoteString, NO_GAPS);
    }
  }

  lemma DefaultRulePrinted()
    ensures Print(DEFAULT_AST, PLAIN) == DEFAULT_RULE
  {
    hide QuoteString;
    PlainQuoted(DEFAULT);
    var output := QuoteString(DEFAULT);
    assert output == DEFAULT_RULE[8..];
    assert ELSE + ([SPACE] + ARROW + [SPACE]) == DEFAULT_RULE[..8];
    assert Spaced(ARROW) == [SPACE] + ARROW + [SPACE];
    assert Print(DEFAULT_AST, PLAIN) == ELSE + Spaced(ARROW) + output;
  }

  lemma DefaultRuleValid(allowed: set<Text>)
    ensures ValidCompiledRule(DEFAULT_AST, allowed)
  {
    hide Tokens, Residue;
    PlainTextIsClean(DEFAULT);
    assert Fields(Tokens(DEFAULT)) == {};
  }

  /** A profile saved without a rule gets the one that always answers `default`. */
  lemma DefaultRuleCompiles(allowed: set<Text>)
    ensures CompileSkuRule(DEFAULT_RULE, allowed) == Ok(DEFAULT_AST)
  {
    hide CompileSkuRule, ValidCompiledRule, Print, IsStyle;
    DefaultRulePrinted();
    DefaultRuleValid(allowed);
    PlainIsStyle();
    CompilePrinted(DEFAULT_AST, allowed, PLAIN);
  }

  // ----- one micro-dollar an image -----

  const ONE_MICRO_USD: Text := [0x30, 0x2E, 0x30, 0x30, 0x30, 0x30, 0x30, 0x31]  // 0.000001
  const ONE_MICRO := Decimal([ZERO], [ZERO, ZERO, ZERO, ZERO, ZERO, 0x31])

  lemma OneMicroValue()
    ensures IsDecimal(ONE_MICRO) && Numerator(ONE_MICRO) == 1 && Denominator(ONE_MICRO) == MICRO_USD
  {
    hide Digits;
    var zeros: Text := [ZERO, ZERO, ZERO, ZERO, ZERO, ZERO];
    DigitsOfZeros(zeros);
    DigitsSnoc(zeros, 0x31);
    assert ONE_MICRO.integer + ONE_MICRO.fraction == zeros + [0x31];
    PowOfSix();
  }

  lemma OneMicroUsdReads()
    ensures DollarsToMicroUsd(ONE_MICRO_USD) == Ok(1)
  {
    hide ReadDecimal, Numerator, Denominator, RoundHalfUp, DecimalToScaledInteger;
    OneMicroValue();
    assert Decimals.Spell(ONE_MICRO) == ONE_MICRO_USD;
    ReadSpelled(ONE_MICRO);
    ScaledIntegerIsHalfUp(ONE_MICRO_USD, MICRO_USD);
    RoundHalfUpExact(1, MICRO_USD);
  }

  lemma PowOfSix()
    ensures Pow10(6) == MICRO_USD
  {
    assert Pow10(3) == 1_000;
    PowSplit(3, 3);
  }

  const TINY_FORM := Form(UnitBasis, Some(OutputCount), [(DEFAULT, Str(ONE_MICRO_USD))], [], None)

  const TINY_RATE := Rate(Quantity(OutputCount), DEFAULT, 1, 1, None)

  lemma TinyRatesParse(tokenMeters: set<Text>)
    ensures ParseRates(TINY_FORM.rates, UnitBasis, Some(OutputCount), tokenMeters) == Ok([TINY_RATE])
  {
    hide DollarsToMicroUsd, Trim, ParseEntries;
    OneMicroUsdReads();
    DefaultIsNamed();
    assert ParseRate(DEFAULT, Str(ONE_MICRO_USD), UnitBasis, Some(OutputCount), tokenMeters) == Ok(TINY_RATE);
    ParseEach(TINY_FORM.rates, [TINY_RATE], UnitBasis, Some(OutputCount), tokenMeters);
  }

  lemma SavedWithDefaultRule(category: Category, form: Form, rates: seq<Rate>, tokenMeters: set<Text>)
    requires form.basis != TokenBasis && AllowsConfiguration(category, form.basis, form.quantityMeter)
    requires form.skuRuleSource == [] && form.longContextThreshold == None
    requires ParseRates(form.rates, form.basis, form.quantityMeter, tokenMeters) == Ok(rates)
    requires rates != [] && rates[0].skuKey == DEFAULT
    ensures CompileProfile(category, form, tokenMeters)
      == Ok(Profile(form.basis, form.quantityMeter, rates, Some(DEFAULT_AST)))
  {
    hide CompileSkuRule, ParseRates, AllowedFacts, AllowsConfiguration;
    DefaultRuleCompiles(AllowedFacts(category));
    assert ParseRates(form.rates, form.basis, form.quantityMeter, tokenMeters).Extract() == rates;
    assert exists i :: 0 <= i < |rates| && rates[i].skuKey == DEFAULT;
  }

  lemma TinyProfileSaved(tokenMeters: set<Text>)
    ensures CompileProfile(Image, TINY_FORM, tokenMeters)
         == Ok(Profile(UnitBasis, Some(OutputCount), [TINY_RATE], Some(DEFAULT_AST)))
  {
    hide CompileProfile, ParseRates;
    TinyRatesParse(tokenMeters);
    SavedWithDefaultRule(Image, TINY_FORM, [TINY_RATE], tokenMeters);
  }

  /** One micro-dollar an image is saved, but not published at any discount below 5000 bps. */
  lemma TinyPriceIsSavedNotPublished(bps: nat, tokenMeters: set<Text>)
    requires 1 <= bps < 5_000
    ensures var profile := CompileProfile(Image, TINY_FORM, tokenMeters);
      && profile.Ok? && profile.value.rates == [TINY_RATE]
      && BuildEffectiveSpec(UnitBasis, Some(OutputCount), profile.value.rates, StoredRule(profile.value), bps,
        tokenMeters) == Err
  {
    hide CompileProfile, BuildEffectiveSpec, StoredRule;
    TinyProfileSaved(tokenMeters);
    var rates := [TINY_RATE];
    assert Times(rates[0].priceMicroUsd, bps) < HALF_BPS;
    SavedProfilePublishesExactly(Image, TINY_FORM, rates, bps, tokenMeters);
  }

  lemma DefaultIsNamed()
    ensures Trim(DEFAULT) == DEFAULT && Trim([]) == []
  {
    TrimTrimmed(DEFAULT);
    TrimTrimmed([]);
  }
}
