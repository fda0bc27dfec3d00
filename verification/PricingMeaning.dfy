/** What the pricing forms say, stated on the JSON values of the form and the columns of the rows: which rates are
    read, which profiles are saved, and which specifications are published. */
module PricingMeaning {
  import opened Wrappers
  import opened CodeUnits
  import opened WhiteSpace
  import opened JsonValues
  import opened Decimals
  import opened DecimalReadings
  import opened PricingRates
  import opened PricingSpecs
  import opened SkuRules
  import opened SkuSourceGrammar
  import opened SkuRuleStorage
  import opened SkuRuleRecords

  // ----- printed values -----

  /** What `String` prints for a JSON value; in an array null prints as nothing. */
  ghost function Printed(value: Json): Text {
    match value
    case Null => Ascii("null")
    case Bool(b) => Ascii(if b then "true" else "false")
    case Num(text) => text
    case Str(text) => text
    case Obj(_) => Ascii("[object Object]")
    case Arr(items) => Join(seq(|items|, i requires 0 <= i < |items| =>
      if items[i].Null? then [] else Printed(items[i])), Ascii(","))
  }

  ghost function PrintedItems(items: seq<Json>): (texts: seq<Text>)
    ensures |texts| == |items|
    ensures forall i :: 0 <= i < |texts| ==> texts[i] == if items[i].Null? then [] else Printed(items[i])
  {
    seq(|items|, i requires 0 <= i < |items| => if items[i].Null? then [] else Printed(items[i]))
  }

  lemma PrintedWords()
    ensures Ascii("null") == NULL_TEXT && Ascii("true") == TRUE_TEXT && Ascii("false") == FALSE_TEXT
    ensures Ascii(",") == [COMMA]
  {
  }

  lemma PrintedObject()
    ensures Ascii("[object Object]") == OBJECT_TEXT
  {
  }

  lemma {:induction false} JoinSnoc(texts: seq<Text>, last: Text)
    ensures Join(texts + [last], [COMMA]) == if texts == [] then last else Join(texts, [COMMA]) + [COMMA] + last
  {
    if texts == [] {
      assert texts + [last] == [last];
    } else if |texts| == 1 {
      assert (texts + [last])[1..] == [last];
    } else {
      JoinSnoc(texts[1..], last);
      assert (texts + [last])[1..] == texts[1..] + [last];
    }
  }

  lemma {:induction false} TextPrinted(value: Json)
    ensures ToText(value) == Printed(value)
    decreases value, 0
  {
    hide Join, Ascii;
    PrintedWords();
    PrintedObject();
    if value.Arr? {
      ItemsExactly(value.items);
      assert PrintedItems(value.items) == seq(|value.items|, i requires 0 <= i < |value.items| =>
        if value.items[i].Null? then [] else Printed(value.items[i]));
    }
  }

  lemma {:induction false} ItemsExactly(items: seq<Json>)
    ensures JoinItems(items) == Join(PrintedItems(items), [COMMA])
    decreases items, |items|
  {
    hide Join, ToText, Printed;
    if items == [] {
      JoinNothing();
    } else {
      var n := |items| - 1;
      var text := if items[n].Null? then [] else Printed(items[n]);
      TextPrinted(items[n]);
      assert PrintedItems(items) == PrintedItems(items[..n]) + [text];
      JoinSnoc(PrintedItems(items[..n]), text);
      if n > 0 {
        ItemsExactly(items[..n]);
      }
    }
  }

  lemma JoinNothing()
    ensures Join([], [COMMA]) == []
  {
  }

  // ----- rates -----

  /** What the property prints; nothing for an absent or a null one. */
  ghost function PropertyText(value: Json, key: string): Text {
    if value.Obj? && Ascii(key) in value.members && !value.members[Ascii(key)].Null?
    then Printed(value.members[Ascii(key)]) else []
  }

  /** The price of a form value: its `price` property if it is an object, the value itself otherwise. */
  ghost function PriceText(raw: Json): Text {
    if raw.Obj? then PropertyText(raw, "price") else if raw.Null? then [] else Printed(raw)
  }

  /** The price in dollars, in micro-dollars. */
  ghost predicate IsPrice(raw: Json, microUsd: nat) {
    IsScaledText(PriceText(raw), 1_000_000, microUsd)
  }

  ghost predicate IsNote(raw: Json, note: Option<Text>) {
    exists text :: IsTrimOf(PropertyText(raw, "note"), text) && note == if text == [] then None else Some(text)
  }

  /** The rate that an entry of the form says. */
  ghost predicate SaysRate(key: Text, raw: Json, basis: PricingBasis, meter: Option<QuantityMeter>,
    tokenMeters: set<Text>, rate: Rate) {
    && IsPrice(raw, rate.priceMicroUsd) && IsNote(raw, rate.note)
    && if basis == TokenBasis then
         && key in tokenMeters && rate.meterKey == TokenMeter(key) && rate.skuKey == Ascii("default")
         && rate.unitSize == if key == Ascii("web_search") then 1 else 1_000_000
       else
         && meter.Some? && rate.meterKey == Quantity(meter.value) && !Blanks(key) && rate.skuKey == key
         && rate.unitSize == (if basis == DurationBasis then 1_000 else 1)
         && rate.priceMicroUsd > 0
  }

  lemma RateWords()
    ensures Ascii("price") == PRICE_KEY && Ascii("note") == NOTE_KEY
    ensures Ascii("default") == DEFAULT && Ascii("web_search") == WEB_SEARCH
  {
  }

  lemma PropertyExactly(value: Json, key: string)
    ensures TextOrEmpty(Get(value, Ascii(key))) == PropertyText(value, key)
  {
    hide Printed, ToText, Ascii;
    if value.Obj? && Ascii(key) in value.members {
      TextPrinted(value.members[Ascii(key)]);
    }
  }

  lemma ValueExactly(raw: Json, price: nat, note: Option<Text>)
    ensures ParseRateValue(raw) == Ok((price, note)) <==> IsPrice(raw, price) && IsNote(raw, note)
  {
    hide Printed, ToText, Ascii, Trim, IsTrimOf, DecimalToScaledInteger, IsScaledText, PropertyText, TextOrEmpty;
    RateWords();
    PropertyExactly(raw, "price");
    PropertyExactly(raw, "note");
    TextPrinted(raw);
    ScaledExactly(PriceText(raw), 1_000_000, price);
    NoProperty(raw);
    var text := Trim(PropertyText(raw, "note"));
    TrimExactly(PropertyText(raw, "note"), text);
    if other :| IsTrimOf(PropertyText(raw, "note"), other) && note == if other == [] then None else Some(other) {
      TrimExactly(PropertyText(raw, "note"), other);
    }
    TextExactly(raw);
    if IsPrice(raw, price) {
      assert DollarsToMicroUsd(PriceText(raw)).Extract() == price;
    }
    if ParseRateValue(raw) == Ok((price, note)) {
      assert DollarsToMicroUsd(PriceText(raw)).Extract() == price;
    }
  }

  lemma NoProperty(raw: Json)
    ensures TextOrEmpty(None) == [] && (!raw.Obj? ==> PropertyText(raw, "note") == [])
  {
  }

  lemma TextExactly(raw: Json)
    ensures TextOrEmpty(if raw.Obj? then Get(raw, PRICE_KEY) else Some(raw)) == PriceText(raw)
    ensures TextOrEmpty(if raw.Obj? then Get(raw, NOTE_KEY) else None) == PropertyText(raw, "note")
  {
    hide Printed, ToText, Ascii, PropertyText;
    RateWords();
    PropertyExactly(raw, "price");
    PropertyExactly(raw, "note");
    TextPrinted(raw);
    NoProperty(raw);
  }

  /** An entry of the form is read exactly as the rate it says. */
  lemma RateExactly(key: Text, raw: Json, basis: PricingBasis, meter: Option<QuantityMeter>, tokenMeters: set<Text>,
    rate: Rate)
    ensures ParseRate(key, raw, basis, meter, tokenMeters) == Ok(rate)
       <==> SaysRate(key, raw, basis, meter, tokenMeters, rate)
  {
    hide ParseRateValue, IsPrice, IsNote, Trim, Ascii, Blanks;
    RateWords();
    BlankTrims(key);
    ValueExactly(raw, rate.priceMicroUsd, rate.note);
    if ParseRate(key, raw, basis, meter, tokenMeters) == Ok(rate) {
      assert ParseRateValue(raw).Extract() == (rate.priceMicroUsd, rate.note);
    }
    if SaysRate(key, raw, basis, meter, tokenMeters, rate) {
      assert ParseRateValue(raw).Extract() == (rate.priceMicroUsd, rate.note);
    }
  }

  /** The rate sheet: one to 128 entries, each of them a rate, in their order. */
  ghost predicate SaysRates(entries: Entries, basis: PricingBasis, meter: Option<QuantityMeter>, tokenMeters: set<Text>,
    rates: seq<Rate>) {
    && 1 <= |entries| <= 128 && |rates| == |entries| && (basis == TokenBasis || meter.Some?)
    && forall i :: 0 <= i < |entries| ==> SaysRate(entries[i].0, entries[i].1, basis, meter, tokenMeters, rates[i])
  }

  lemma RatesExactly(entries: Entries, basis: PricingBasis, meter: Option<QuantityMeter>, tokenMeters: set<Text>,
    rates: seq<Rate>)
    ensures ParseRates(entries, basis, meter, tokenMeters) == Ok(rates)
       <==> SaysRates(entries, basis, meter, tokenMeters, rates)
  {
    hide ParseRate, ParseEntries, SaysRate;
    if ParseEntries(entries, basis, meter, tokenMeters) == Ok(rates) {
      forall i | 0 <= i < |entries|
        ensures SaysRate(entries[i].0, entries[i].1, basis, meter, tokenMeters, rates[i])
      {
        ParsedEach(entries, basis, meter, tokenMeters, i);
        RateExactly(entries[i].0, entries[i].1, basis, meter, tokenMeters, rates[i]);
      }
    }
    if SaysRates(entries, basis, meter, tokenMeters, rates) {
      forall i | 0 <= i < |entries|
        ensures ParseRate(entries[i].0, entries[i].1, basis, meter, tokenMeters) == Ok(rates[i])
      {
        RateExactly(entries[i].0, entries[i].1, basis, meter, tokenMeters, rates[i]);
      }
      ParseEach(entries, rates, basis, meter, tokenMeters);
    }
  }

  // ----- the rates written back into the form -----

  /** The key of a rate in the form: the meter of a default token rate, the SKU of any other. */
  ghost predicate IsFormKey(rate: Rate, tokenMeters: set<Text>, key: Text) {
    key == match rate.meterKey
           case TokenMeter(meter) =>
             (if rate.skuKey == Ascii("default") && meter in tokenMeters then meter else rate.skuKey)
           case Quantity(_) => rate.skuKey
  }

  /** The price in dollars, alone or with a note that is not empty. */
  ghost predicate IsFormValue(rate: Rate, value: Json) {
    exists text ::
      && IsDollarText(rate.priceMicroUsd, text)
      && value == match rate.note
                  case None => Str(text)
                  case Some(note) =>
                    (if note == [] then Str(text)
                      else Obj(map[Ascii("price") := Str(text), Ascii("note") := Str(note)]))
  }

  lemma FormEntryExactly(rate: Rate, tokenMeters: set<Text>)
    requires IsPrintable(rate)
    ensures IsFormKey(rate, tokenMeters, FormKey(rate, tokenMeters)) && IsFormValue(rate, FormValue(rate))
  {
    hide Ascii, MicroUsdToDollars, IsDollarText;
    RateWords();
    DecimalReadings.PrintedExactly(rate.priceMicroUsd);
  }

  /** The form has one entry for every key, with the value of the last rate under it. */
  lemma {:induction false} FormExactly(rates: seq<Rate>, tokenMeters: set<Text>, key: Text)
    requires AllPrintable(rates)
    ensures key in FormatRates(rates, tokenMeters) <==>
      exists i :: 0 <= i < |rates| && IsFormKey(rates[i], tokenMeters, key)
    ensures key in FormatRates(rates, tokenMeters) ==>
      exists i :: 0 <= i < |rates| && IsFormKey(rates[i], tokenMeters, key)
                  && IsFormValue(rates[i], FormatRates(rates, tokenMeters)[key])
                  && forall j :: i < j < |rates| ==> !IsFormKey(rates[j], tokenMeters, key)
  {
    hide FormKey, FormValue, IsPrintable, IsFormValue;
    if rates != [] {
      var n := |rates| - 1;
      FormExactly(rates[..n], tokenMeters, key);
      FormEntryExactly(rates[n], tokenMeters);
      FormKeyUnique(rates[n], tokenMeters, key);
      assert forall i :: 0 <= i < n ==> rates[..n][i] == rates[i];
      if key != FormKey(rates[n], tokenMeters) && key in FormatRates(rates[..n], tokenMeters) {
        var i :| 0 <= i < n && IsFormKey(rates[..n][i], tokenMeters, key)
                 && IsFormValue(rates[..n][i], FormatRates(rates[..n], tokenMeters)[key])
                 && forall j :: i < j < n ==> !IsFormKey(rates[..n][j], tokenMeters, key);
        assert IsFormKey(rates[i], tokenMeters, key);
        assert forall j :: i < j < |rates| ==> j == n || rates[j] == rates[..n][j];
      }
    }
  }

  lemma FormKeyUnique(rate: Rate, tokenMeters: set<Text>, key: Text)
    requires IsPrintable(rate)
    ensures IsFormKey(rate, tokenMeters, key) <==> key == FormKey(rate, tokenMeters)
  {
    FormEntryExactly(rate, tokenMeters);
  }

  // ----- profiles -----

  /** The ways in which a model of a category may be priced. */
  ghost const CONFIGURATIONS: set<(Category, PricingBasis, Option<QuantityMeter>)> :=
    {(Llm, TokenBasis, None), (Embedding, TokenBasis, None), (OtherCategory, TokenBasis, None),
     (Image, TokenBasis, None), (Image, UnitBasis, Some(OutputCount)),
     (Video, TokenBasis, None), (Video, UnitBasis, Some(RequestCount)), (Video, UnitBasis, Some(OutputCount)),
     (Video, DurationBasis, Some(VideoDurationMs)),
     (Audio, TokenBasis, None), (Audio, UnitBasis, Some(RequestCount)), (Audio, UnitBasis, Some(OutputCount)),
     (Audio, DurationBasis, Some(AudioDurationMs))}

  /** The facts that the rule of a category may read. */
  ghost function FactsFor(category: Category): set<Text> {
    match category
    case Image => {Ascii("quality"), Ascii("size"), Ascii("resolution")}
    case Video => {Ascii("resolution"), Ascii("format")}
    case Audio => {Ascii("format"), Ascii("voice")}
    case _ => {}
  }

  /** The profile that a form says: token prices without a rule, or other prices with the rule of the form, `else =>
      "default"` if it gives none, and a rate named `default`. */
  ghost predicate SaysProfile(category: Category, form: Form, tokenMeters: set<Text>, profile: Profile) {
    && (category, form.basis, form.quantityMeter) in CONFIGURATIONS
    && profile.basis == form.basis && profile.quantityMeter == form.quantityMeter
    && SaysRates(form.rates, form.basis, form.quantityMeter, tokenMeters, profile.rates)
    && if form.basis == TokenBasis then form.skuRuleSource == [] && profile.skuRule == None
       else
         && form.longContextThreshold == None && profile.skuRule.Some?
         && SpellsSource(if form.skuRuleSource == [] then Ascii("else => \"default\"") else form.skuRuleSource,
                         profile.skuRule.value, FactsFor(category))
         && exists i :: 0 <= i < |profile.rates| && profile.rates[i].skuKey == Ascii("default")
  }

  lemma ConfigurationExactly(category: Category, basis: PricingBasis, meter: Option<QuantityMeter>)
    ensures AllowsConfiguration(category, basis, meter) <==> (category, basis, meter) in CONFIGURATIONS
  {
    match category
    case Llm =>
    case Embedding =>
    case Image =>
    case Video =>
    case Audio =>
    case OtherCategory =>
  }

  lemma FactWords()
    ensures Ascii("quality") == QUALITY && Ascii("size") == SIZE && Ascii("resolution") == RESOLUTION
    ensures Ascii("format") == FORMAT && Ascii("voice") == VOICE
  {
  }

  lemma DefaultRuleText()
    ensures Ascii("else => \"default\"") == DEFAULT_RULE
  {
  }

  lemma FactsExactly(category: Category)
    ensures FactsFor(category) == AllowedFacts(category)
  {
    hide Ascii;
    FactWords();
  }

  lemma RuleCompiled(form: Form, category: Category, rule: CompiledRule)
    ensures CompileSkuRule(if form.skuRuleSource == [] then DEFAULT_RULE
      else form.skuRuleSource, AllowedFacts(category))
            == Ok(rule)
       <==> SpellsSource(if form.skuRuleSource == [] then Ascii("else => \"default\"") else form.skuRuleSource, rule,
                         FactsFor(category))
  {
    hide CompileSkuRule, SpellsSource, AllowedFacts, FactsFor, Ascii;
    DefaultRuleText();
    FactsExactly(category);
    CompileExactly(if form.skuRuleSource == [] then DEFAULT_RULE else form.skuRuleSource, rule, AllowedFacts(category));
  }

  /** A form is saved exactly as the profile it says. */
  lemma ProfileExactly(category: Category, form: Form, tokenMeters: set<Text>, profile: Profile)
    ensures CompileProfile(category, form, tokenMeters) == Ok(profile) <==>
      SaysProfile(category, form, tokenMeters, profile)
  {
    hide CompileSkuRule, SpellsSource, AllowedFacts, FactsFor, ParseRates, SaysRates, AllowsConfiguration, Ascii;
    RateWords();
    ConfigurationExactly(category, form.basis, form.quantityMeter);
    RatesExactly(form.rates, form.basis, form.quantityMeter, tokenMeters, profile.rates);
    if profile.skuRule.Some? {
      RuleCompiled(form, category, profile.skuRule.value);
    }
    if CompileProfile(category, form, tokenMeters) == Ok(profile) {
      assert ParseRates(form.rates, form.basis, form.quantityMeter, tokenMeters).Extract() == profile.rates;
    }
    if SaysProfile(category, form, tokenMeters, profile) {
      assert ParseRates(form.rates, form.basis, form.quantityMeter, tokenMeters).Extract() == profile.rates;
      if form.basis != TokenBasis {
        var source := if form.skuRuleSource == [] then DEFAULT_RULE else form.skuRuleSource;
        assert CompileSkuRule(source, AllowedFacts(category)).Extract() == profile.skuRule.value;
      }
    }
  }

  // ----- specifications -----

  /** The price at the discount, rounded half up, and every other column as it is stored. */
  ghost predicate IsDiscounted(rates: seq<Rate>, bps: nat, published: seq<SpecRate>) {
    && |published| == |rates|
    && forall i :: 0 <= i < |rates| ==>
      && published[i].meterKey == rates[i].meterKey && published[i].skuKey == rates[i].skuKey
      && published[i].unitSize == rates[i].unitSize
      && 10_000 * published[i].priceMicroUsd - 5_000 <= rates[i].priceMicroUsd * bps
         < 10_000 * published[i].priceMicroUsd + 5_000
  }

  ghost predicate IsSpecRate(rate: SpecRate, basis: PricingBasis, meter: Option<QuantityMeter>,
    tokenMeters: set<Text>) {
    && rate.skuKey != [] && 1 <= rate.unitSize <= 9_007_199_254_740_991 && rate.priceMicroUsd <= 9_007_199_254_740_991
    && if basis == TokenBasis then
         rate.meterKey.TokenMeter? && rate.meterKey.key in tokenMeters && rate.skuKey == Ascii("default")
       else meter.Some? && rate.meterKey == Quantity(meter.value) && rate.priceMicroUsd > 0
  }

  /** Which meter goes with which basis. */
  ghost const METERS: set<(PricingBasis, Option<QuantityMeter>)> :=
    {(TokenBasis, None), (UnitBasis, Some(RequestCount)), (UnitBasis, Some(OutputCount)),
     (DurationBasis, Some(AudioDurationMs)), (DurationBasis, Some(VideoDurationMs))}

  /** What a valid specification is. */
  ghost predicate IsSpec(basis: PricingBasis, meter: Option<QuantityMeter>, rates: seq<SpecRate>, skuRule: Option<Json>,
    tokenMeters: set<Text>, rule: Option<CompiledRule>) {
    && 1 <= |rates| <= 128 && (basis, meter) in METERS
    && (forall i :: 0 <= i < |rates| ==> IsSpecRate(rates[i], basis, meter, tokenMeters))
    && (forall i, j :: 0 <= i < j < |rates| ==>
      (rates[i].meterKey, rates[i].skuKey) != (rates[j].meterKey, rates[j].skuKey))
    && if basis == TokenBasis then skuRule == None && rule == None
       else
         && skuRule.Some? && rule.Some? && DescribesCompiledRule(skuRule.value, rule.value)
         && exists i :: 0 <= i < |rates| && rates[i].skuKey == Ascii("default")
  }

  lemma SpecRateExactly(rate: SpecRate, basis: PricingBasis, meter: Option<QuantityMeter>, tokenMeters: set<Text>)
    ensures ValidSpecRate(rate, basis, meter, tokenMeters) <==> IsSpecRate(rate, basis, meter, tokenMeters)
  {
    hide Ascii;
    RateWords();
  }

  lemma SpecRatesExactly(rates: seq<SpecRate>, basis: PricingBasis, meter: Option<QuantityMeter>,
    tokenMeters: set<Text>)
    ensures (forall i :: 0 <= i < |rates| ==> ValidSpecRate(rates[i], basis, meter, tokenMeters))
       <==> (forall i :: 0 <= i < |rates| ==> IsSpecRate(rates[i], basis, meter, tokenMeters))
    ensures UniqueRates(rates) <==> forall i, j :: 0 <= i < j < |rates| ==>
      (rates[i].meterKey, rates[i].skuKey) != (rates[j].meterKey, rates[j].skuKey)
  {
    hide ValidSpecRate, IsSpecRate;
    forall i | 0 <= i < |rates|
      ensures ValidSpecRate(rates[i], basis, meter, tokenMeters) <==> IsSpecRate(rates[i], basis, meter, tokenMeters)
    {
      SpecRateExactly(rates[i], basis, meter, tokenMeters);
    }
  }

  lemma MeterExactly(basis: PricingBasis, meter: Option<QuantityMeter>)
    ensures MeterFitsBasis(basis, meter) <==> (basis, meter) in METERS
  {
  }

  /** A specification is accepted exactly when it is valid, and is returned as it is, with the rule that its record
      describes. */
  lemma SpecExactly(basis: PricingBasis, meter: Option<QuantityMeter>, rates: seq<SpecRate>, skuRule: Option<Json>,
    tokenMeters: set<Text>, spec: PricingSpec)
    ensures ValidatePricingSpec(basis, meter, rates, skuRule, tokenMeters) == Ok(spec)
       <==> spec == PricingSpec(basis, meter, rates, spec.skuRule)
            && IsSpec(basis, meter, rates, skuRule, tokenMeters, spec.skuRule)
  {
    hide ValidSpecRate, IsSpecRate, UniqueRates, MeterFitsBasis, ValidateCompiledRule, DescribesCompiledRule, Ascii;
    RateWords();
    SpecRatesExactly(rates, basis, meter, tokenMeters);
    MeterExactly(basis, meter);
    if skuRule.Some? && spec.skuRule.Some? {
      CompiledRuleExactly(skuRule.value, spec.skuRule.value);
      if ValidateCompiledRule(skuRule.value) == Ok(spec.skuRule.value) {
        assert ValidateCompiledRule(skuRule.value).Extract() == spec.skuRule.value;
      }
    }
  }

  lemma DiscountedExactly(rates: seq<Rate>, bps: nat, published: seq<SpecRate>)
    ensures Discounted(rates, bps) == published <==> IsDiscounted(rates, bps, published)
  {
    hide ScaleByBps;
    forall i | 0 <= i < |rates| && |published| == |rates|
      ensures published[i].priceMicroUsd == ScaleByBps(rates[i].priceMicroUsd, bps)
         <==> 10_000 * published[i].priceMicroUsd - 5_000 <= rates[i].priceMicroUsd * bps
              < 10_000 * published[i].priceMicroUsd + 5_000
    {
      ScaleIsHalfUp(rates[i].priceMicroUsd, bps);
    }
    if IsDiscounted(rates, bps, published) {
      assert forall i :: 0 <= i < |rates| ==> published[i] == Discounted(rates, bps)[i];
    }
  }

  /** What is published at a discount: the discounted rates, if they are a valid specification. */
  lemma EffectiveExactly(basis: PricingBasis, meter: Option<QuantityMeter>, rates: seq<Rate>, skuRule: Option<Json>,
    bps: nat, tokenMeters: set<Text>, spec: PricingSpec)
    ensures BuildEffectiveSpec(basis, meter, rates, skuRule, bps, tokenMeters) == Ok(spec)
       <==> spec.basis == basis && spec.quantityMeter == meter && IsDiscounted(rates, bps, spec.rates)
            && IsSpec(basis, meter, spec.rates, skuRule, tokenMeters, spec.skuRule)
  {
    hide ValidatePricingSpec, IsSpec, IsDiscounted, Discounted;
    DiscountedExactly(rates, bps, spec.rates);
    SpecExactly(basis, meter, Discounted(rates, bps), skuRule, tokenMeters, spec);
    assert spec == PricingSpec(spec.basis, spec.quantityMeter, spec.rates, spec.skuRule);
  }

  ghost predicate HoldsByMeter(prices: map<LegacyKey, nat>, rates: seq<SpecRate>) {
    |prices| == |rates| && forall i :: 0 <= i < |rates| ==>
      ByMeter(rates[i].meterKey) in prices && prices[ByMeter(rates[i].meterKey)] == rates[i].priceMicroUsd
  }

  ghost predicate HoldsBySku(prices: map<LegacyKey, nat>, rates: seq<SpecRate>) {
    |prices| == |rates| && forall i :: 0 <= i < |rates| ==>
      BySku(rates[i].skuKey) in prices && prices[BySku(rates[i].skuKey)] == rates[i].priceMicroUsd
  }

  /** The old maps of an accepted specification: token prices by meter in one, other prices by SKU in the other. */
  lemma LegacyExactly(basis: PricingBasis, meter: Option<QuantityMeter>, rates: seq<SpecRate>, skuRule: Option<Json>,
    tokenMeters: set<Text>)
    requires ValidatePricingSpec(basis, meter, rates, skuRule, tokenMeters).Ok?
    ensures var (byMeter, bySku) := LegacyMaps(ValidatePricingSpec(basis, meter, rates, skuRule, tokenMeters).value);
      if basis == TokenBasis then bySku == map[] && HoldsByMeter(byMeter, rates)
      else byMeter == map[] && HoldsBySku(bySku, rates)
  {
    hide ValidatePricingSpec, LegacyMap, IsSpec;
    var spec := ValidatePricingSpec(basis, meter, rates, skuRule, tokenMeters).value;
    SpecExactly(basis, meter, rates, skuRule, tokenMeters, spec);
    LegacyMapsAgree(basis, meter, rates, skuRule, tokenMeters);
    forall i | 0 <= i < |rates|
      ensures LegacyKeyOf(basis, rates[i])
           == if basis == TokenBasis then ByMeter(rates[i].meterKey) else BySku(rates[i].skuKey)
    {
    }
  }
}
