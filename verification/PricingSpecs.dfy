/** From a saved pricing profile to the discounted specification that is published. */
module PricingSpecs {
  import opened Wrappers
  import opened CodeUnits
  import opened JsonValues
  import opened Decimals
  import opened SafeIntegers
  import opened PricingRates
  import opened SkuTemplates
  import opened SkuRules
  import opened SkuRuleRoundTrip
  import opened SkuRuleStorage

  const FULL_PRICE_BPS := 10_000
  const HALF_BPS := 5_000

  // ----- discounts -----

  /** `scaleMicroUsdByBps` */
  function ScaleByBps(value: nat, bps: nat): nat {
    (Times(value, bps) + HALF_BPS) / FULL_PRICE_BPS
  }

  lemma ScaleIsHalfUp(value: nat, bps: nat)
    ensures IsHalfUp(value * bps, FULL_PRICE_BPS, ScaleByBps(value, bps))
  {
    DivMod(Times(value, bps) + HALF_BPS, FULL_PRICE_BPS);
  }

  /** A discounted price is monotone in the price and in the discount. */
  lemma ScaleMonotone(value1: nat, bps1: nat, value2: nat, bps2: nat)
    requires value1 <= value2 && bps1 <= bps2
    ensures ScaleByBps(value1, bps1) <= ScaleByBps(value2, bps2)
  {
    hide ScaleByBps;
    MulLessEqual(value1, value2, bps1);
    MulLessEqual(bps1, bps2, value2);
    ScaleIsHalfUp(value1, bps1);
    ScaleIsHalfUp(value2, bps2);
    MulLessEqual(value1 * bps1, value2 * bps2, FULL_PRICE_BPS);
    HalfUpMonotone(value1 * bps1, FULL_PRICE_BPS, ScaleByBps(value1, bps1), value2 * bps2, FULL_PRICE_BPS,
      ScaleByBps(value2, bps2));
  }

  /** 10000 bps is the full price, less never raises it, and it becomes 0 exactly below half a micro-dollar. */
  lemma ScaleBounds(value: nat, bps: nat)
    ensures ScaleByBps(value, FULL_PRICE_BPS) == value
    ensures bps <= FULL_PRICE_BPS ==> ScaleByBps(value, bps) <= value
    ensures ScaleByBps(value, bps) > 0 <==> value * bps >= HALF_BPS
  {
    if bps <= FULL_PRICE_BPS {
      ScaleMonotone(value, bps, value, FULL_PRICE_BPS);
    }
  }

  // ----- the published specification -----

  datatype SpecRate = SpecRate(meterKey: Meter, skuKey: Text, unitSize: nat, priceMicroUsd: nat)

  datatype PricingSpec = PricingSpec(
    basis: PricingBasis, quantityMeter: Option<QuantityMeter>, rates: seq<SpecRate>, skuRule: Option<CompiledRule>)

  predicate IsDuration(meter: QuantityMeter) {
    meter == AudioDurationMs || meter == VideoDurationMs
  }

  predicate MeterFitsBasis(basis: PricingBasis, meter: Option<QuantityMeter>) {
    match basis
    case TokenBasis => meter == None
    case UnitBasis => meter.Some? && !IsDuration(meter.value)
    case DurationBasis => meter.Some? && IsDuration(meter.value)
  }

  predicate ValidSpecRate(rate: SpecRate, basis: PricingBasis, meter: Option<QuantityMeter>, tokenMeters: set<Text>) {
    && rate.skuKey != []
    && (if basis == TokenBasis then rate.meterKey.TokenMeter? && rate.meterKey.key in tokenMeters
      && rate.skuKey == DEFAULT
        else meter.Some? && rate.meterKey == Quantity(meter.value) && rate.priceMicroUsd > 0)
    && 0 < rate.unitSize <= MAX_SAFE_INTEGER && rate.priceMicroUsd <= MAX_SAFE_INTEGER
  }

  predicate UniqueRates(rates: seq<SpecRate>) {
    forall i, j :: 0 <= i < j < |rates| ==> rates[i].meterKey != rates[j].meterKey || rates[i].skuKey != rates[j].skuKey
  }

  predicate HasDefault(rates: seq<SpecRate>) {
    exists i :: 0 <= i < |rates| && rates[i].skuKey == DEFAULT
  }

  /** `validatePricingSpec`, where the rule is still the JSON value that was stored. */
  function ValidatePricingSpec(
    basis: PricingBasis, meter: Option<QuantityMeter>, rates: seq<SpecRate>, skuRule: Option<Json>,
      tokenMeters: set<Text>): Result<PricingSpec>
  {
    if !(1 <= |rates| <= MAX_RATES) || !MeterFitsBasis(basis, meter) || !UniqueRates(rates)
       || !(forall i :: 0 <= i < |rates| ==> ValidSpecRate(rates[i], basis, meter, tokenMeters)) then Err
    else
      match skuRule
      case None => if basis == TokenBasis then Ok(PricingSpec(basis, meter, rates, None)) else Err
      case Some(json) =>
        var rule :- ValidateCompiledRule(json);
        if basis == TokenBasis || !HasDefault(rates) then Err else Ok(PricingSpec(basis, meter, rates, Some(rule)))
  }

  function Discounted(rates: seq<Rate>, bps: nat): (r: seq<SpecRate>)
    ensures |r| == |rates|
    ensures forall i :: 0 <= i < |r| ==>
      r[i] == SpecRate(rates[i].meterKey, rates[i].skuKey, rates[i].unitSize, ScaleByBps(rates[i].priceMicroUsd, bps))
  {
    seq(|rates|, i requires 0 <= i < |rates| =>
      SpecRate(rates[i].meterKey, rates[i].skuKey, rates[i].unitSize, ScaleByBps(rates[i].priceMicroUsd, bps)))
  }

  /** `buildEffectivePricingSpec` */
  function BuildEffectiveSpec(
    basis: PricingBasis, meter: Option<QuantityMeter>, rates: seq<Rate>, skuRule: Option<Json>, bps: nat,
      tokenMeters: set<Text>)
    : Result<PricingSpec>
  {
    ValidatePricingSpec(basis, meter, Discounted(rates, bps), skuRule, tokenMeters)
  }

  // ----- saving a profile -----

  datatype Category = Llm | Embedding | Image | Video | Audio | OtherCategory

  const QUALITY: Text := [0x71, 0x75, 0x61, 0x6C, 0x69, 0x74, 0x79]  // quality
  const SIZE: Text := [0x73, 0x69, 0x7A, 0x65]  // size
  const RESOLUTION: Text := [0x72, 0x65, 0x73, 0x6F, 0x6C, 0x75, 0x74, 0x69, 0x6F, 0x6E]  // resolution
  const FORMAT: Text := [0x66, 0x6F, 0x72, 0x6D, 0x61, 0x74]  // format
  const VOICE: Text := [0x76, 0x6F, 0x69, 0x63, 0x65]  // voice
  /** `else => "default"` */
  const DEFAULT_RULE: Text := [
    0x65, 0x6C, 0x73, 0x65, 0x20, 0x3D, 0x3E, 0x20, 0x22,
    0x64, 0x65, 0x66, 0x61, 0x75, 0x6C, 0x74, 0x22]

  predicate AllowsBasis(category: Category, basis: PricingBasis) {
    match category
    case Image => basis == TokenBasis || basis == UnitBasis
    case Video => true
    case Audio => true
    case _ => basis == TokenBasis
  }

  predicate AllowsMeter(category: Category, basis: PricingBasis, meter: QuantityMeter) {
    match category
    case Image => basis == UnitBasis && meter == OutputCount
    case Video =>
      if basis == DurationBasis then meter == VideoDurationMs else meter == RequestCount || meter == OutputCount
    case Audio =>
      if basis == DurationBasis then meter == AudioDurationMs else meter == RequestCount || meter == OutputCount
    case _ => false
  }

  function AllowedFacts(category: Category): set<Text> {
    match category
    case Image => {QUALITY, SIZE, RESOLUTION}
    case Video => {RESOLUTION, FORMAT}
    case Audio => {FORMAT, VOICE}
    case _ => {}
  }

  predicate AllowsConfiguration(category: Category, basis: PricingBasis, meter: Option<QuantityMeter>) {
    && AllowsBasis(category, basis)
    && if basis == TokenBasis then meter == None else meter.Some? && AllowsMeter(category, basis, meter.value)
  }

  datatype Form = Form(
    basis: PricingBasis, quantityMeter: Option<QuantityMeter>, rates: Entries, skuRuleSource: Text,
      longContextThreshold: Option<nat>)

  datatype Profile = Profile(basis: PricingBasis, quantityMeter: Option<QuantityMeter>, rates: seq<Rate>,
    skuRule: Option<CompiledRule>)

  /** `compileProfileInput` */
  function CompileProfile(category: Category, form: Form, tokenMeters: set<Text>): Result<Profile> {
    if !AllowsConfiguration(category, form.basis, form.quantityMeter) then Err
    else if form.basis != TokenBasis && form.longContextThreshold.Some? then Err
    else
      var rates :- ParseRates(form.rates, form.basis, form.quantityMeter, tokenMeters);
      if form.basis == TokenBasis then
        if form.skuRuleSource != [] then Err else Ok(Profile(form.basis, form.quantityMeter, rates, None))
      else
        var source := if form.skuRuleSource == [] then DEFAULT_RULE else form.skuRuleSource;
        var rule :- CompileSkuRule(source, AllowedFacts(category));
        if exists i :: 0 <= i < |rates| && rates[i].skuKey == DEFAULT then
          Ok(Profile(form.basis, form.quantityMeter, rates, Some(rule)))
        else Err
  }

  /** The rule column of a saved profile. */
  function StoredRule(profile: Profile): Option<Json> {
    match profile.skuRule
    case None => None
    case Some(rule) => Some(Store(rule))
  }

  // ----- a saved profile can be published unless a price rounds to nothing -----

  lemma FactNamesAreShort(category: Category, name: Text)
    requires name in AllowedFacts(category)
    ensures |name| <= MAX_FIELD_NAME
  {
  }

  lemma CompiledNamesAreShort(source: Text, category: Category)
    requires CompileSkuRule(source, AllowedFacts(category)).Ok?
    ensures ShortFieldNames(CompileSkuRule(source, AllowedFacts(category)).value)
  {
    hide CompileSkuRule, AllowedFacts, ValidOutput, IsFieldName;
    var rule := CompileSkuRule(source, AllowedFacts(category)).value;
    CompiledRuleValid(source, AllowedFacts(category));
    forall i, k | 0 <= i < |rule.rules| && 0 <= k < |rule.rules[i].conditions|
      ensures |rule.rules[i].conditions[k].field| <= MAX_FIELD_NAME
    {
      assert ValidCondition(rule.rules[i].conditions[k], AllowedFacts(category));
      FactNamesAreShort(category, rule.rules[i].conditions[k].field);
    }
  }

  lemma SavedRuleAccepted(category: Category, form: Form, tokenMeters: set<Text>)
    requires CompileProfile(category, form, tokenMeters).Ok?
    ensures var profile := CompileProfile(category, form, tokenMeters).value;
      profile.skuRule.Some? ==> ValidateCompiledRule(Store(profile.skuRule.value)) == Ok(profile.skuRule.value)
  {
    hide CompileSkuRule, AllowedFacts, ValidateCompiledRule, Store, ParseRates, AllowsConfiguration;
    if form.basis != TokenBasis {
      var source := if form.skuRuleSource == [] then DEFAULT_RULE else form.skuRuleSource;
      CompiledNamesAreShort(source, category);
      CompiledRuleAccepted(source, AllowedFacts(category));
    }
  }

  lemma ConfigurationFits(category: Category, basis: PricingBasis, meter: Option<QuantityMeter>)
    requires AllowsConfiguration(category, basis, meter)
    ensures MeterFitsBasis(basis, meter)
  {
  }

  /** What every parsed rate is. */
  ghost predicate IsParsedRate(rate: Rate, basis: PricingBasis, meter: Option<QuantityMeter>, tokenMeters: set<Text>) {
    && rate.skuKey != [] && 0 < rate.unitSize <= MAX_SAFE_INTEGER && rate.priceMicroUsd <= MAX_SAFE_INTEGER
    && if basis == TokenBasis then rate.meterKey.TokenMeter? && rate.meterKey.key in tokenMeters
      && rate.skuKey == DEFAULT
       else meter.Some? && rate.meterKey == Quantity(meter.value)
  }

  lemma ParsedRateIs(key: Text, raw: Json, basis: PricingBasis, meter: Option<QuantityMeter>, tokenMeters: set<Text>)
    requires ParseRate(key, raw, basis, meter, tokenMeters).Ok?
    ensures IsParsedRate(ParseRate(key, raw, basis, meter, tokenMeters).value, basis, meter, tokenMeters)
    ensures var rate := ParseRate(key, raw, basis, meter, tokenMeters).value;
      if basis == TokenBasis then rate.meterKey == TokenMeter(key) else rate.skuKey == key
  {
    hide RoundHalfUp, ReadDecimal, Numerator, Denominator, Normal, Trim, TextOrEmpty;
    if basis != TokenBasis {
      TrimTrimmed([]);
    }
  }

  /** Each rate appears once in the row order of the database. */
  ghost predicate IsRowOrder(stored: seq<Rate>, rates: seq<Rate>) {
    && (forall i, j :: 0 <= i < j < |stored| ==> stored[i] != stored[j])
    && |stored| == |rates| && forall r :: r in stored <==> r in rates
  }

  lemma ParsedRatesDiffer(form: Form, rates: seq<Rate>, tokenMeters: set<Text>, a: Rate, b: Rate)
    requires DistinctKeys(form.rates)
      && ParseRates(form.rates, form.basis, form.quantityMeter, tokenMeters) == Ok(rates)
    requires a in rates && b in rates && a != b
    ensures a.meterKey != b.meterKey || a.skuKey != b.skuKey
  {
    hide ParseRate, ParseEntries;
    var i :| 0 <= i < |rates| && rates[i] == a;
    var j :| 0 <= j < |rates| && rates[j] == b;
    ParsedEach(form.rates, form.basis, form.quantityMeter, tokenMeters, i);
    ParsedEach(form.rates, form.basis, form.quantityMeter, tokenMeters, j);
    ParsedRateIs(form.rates[i].0, form.rates[i].1, form.basis, form.quantityMeter, tokenMeters);
    ParsedRateIs(form.rates[j].0, form.rates[j].1, form.basis, form.quantityMeter, tokenMeters);
  }

  lemma StoredRateIs(form: Form, rates: seq<Rate>, tokenMeters: set<Text>, rate: Rate)
    requires ParseRates(form.rates, form.basis, form.quantityMeter, tokenMeters) == Ok(rates) && rate in rates
    ensures IsParsedRate(rate, form.basis, form.quantityMeter, tokenMeters)
  {
    hide ParseRate, ParseEntries, IsParsedRate;
    var i :| 0 <= i < |rates| && rates[i] == rate;
    ParsedEach(form.rates, form.basis, form.quantityMeter, tokenMeters, i);
    ParsedRateIs(form.rates[i].0, form.rates[i].1, form.basis, form.quantityMeter, tokenMeters);
  }

  /** Whether no price of the profile rounds to zero at this discount. */
  predicate PricesSurvive(rates: seq<Rate>, bps: nat) {
    forall i :: 0 <= i < |rates| ==> Times(rates[i].priceMicroUsd, bps) >= HALF_BPS
  }

  lemma DiscountedValid(form: Form, rates: seq<Rate>, stored: seq<Rate>, bps: nat, tokenMeters: set<Text>)
    requires DistinctKeys(form.rates)
      && ParseRates(form.rates, form.basis, form.quantityMeter, tokenMeters) == Ok(rates)
    requires IsRowOrder(stored, rates) && bps <= FULL_PRICE_BPS
    ensures UniqueRates(Discounted(stored, bps))
    ensures (forall i :: 0 <= i < |stored| ==>
      ValidSpecRate(Discounted(stored, bps)[i], form.basis, form.quantityMeter, tokenMeters))
      <==> (form.basis == TokenBasis || PricesSurvive(stored, bps))
  {
    hide ParseRates, ScaleByBps;
    forall i, j | 0 <= i < j < |stored|
      ensures stored[i].meterKey != stored[j].meterKey || stored[i].skuKey != stored[j].skuKey
    {
      assert stored[i] in stored && stored[j] in stored;
      ParsedRatesDiffer(form, rates, tokenMeters, stored[i], stored[j]);
    }
    forall i | 0 <= i < |stored|
      ensures ValidSpecRate(Discounted(stored, bps)[i], form.basis, form.quantityMeter, tokenMeters)
        <==> (form.basis == TokenBasis || Times(stored[i].priceMicroUsd, bps) >= HALF_BPS)
    {
      assert stored[i] in stored;
      StoredRateIs(form, rates, tokenMeters, stored[i]);
      ScaleBounds(stored[i].priceMicroUsd, bps);
    }
  }

  /** A saved profile publishes at a discount exactly when it is priced by token or no price rounds to zero;
      the specification then holds the discounted rates, in row order, and the very rule that was compiled. */
  lemma SavedProfilePublishesExactly(category: Category, form: Form, stored: seq<Rate>, bps: nat,
    tokenMeters: set<Text>)
    requires DistinctKeys(form.rates) && CompileProfile(category, form, tokenMeters).Ok? && 1 <= bps <= FULL_PRICE_BPS
    requires IsRowOrder(stored, CompileProfile(category, form, tokenMeters).value.rates)
    ensures var profile := CompileProfile(category, form, tokenMeters).value;
      BuildEffectiveSpec(profile.basis, profile.quantityMeter, stored, StoredRule(profile), bps, tokenMeters)
      == if form.basis == TokenBasis || PricesSurvive(stored, bps)
         then Ok(PricingSpec(form.basis, form.quantityMeter, Discounted(stored, bps), profile.skuRule))
         else Err
  {
    hide CompileSkuRule, AllowedFacts, ValidateCompiledRule, Store, ParseRates, AllowsConfiguration, ValidSpecRate,
         UniqueRates,
         PricesSurvive, MeterFitsBasis;
    var profile := CompileProfile(category, form, tokenMeters).value;
    SavedRuleAccepted(category, form, tokenMeters);
    ConfigurationFits(category, form.basis, form.quantityMeter);
    DiscountedValid(form, profile.rates, stored, bps, tokenMeters);
    RatesCounted(form, profile.rates, tokenMeters);
    if form.basis != TokenBasis {
      var i :| 0 <= i < |profile.rates| && profile.rates[i].skuKey == DEFAULT;
      assert profile.rates[i] in stored;
      var j :| 0 <= j < |stored| && stored[j] == profile.rates[i];
      assert Discounted(stored, bps)[j].skuKey == DEFAULT;
    }
  }

  lemma RatesCounted(form: Form, rates: seq<Rate>, tokenMeters: set<Text>)
    requires ParseRates(form.rates, form.basis, form.quantityMeter, tokenMeters) == Ok(rates)
    ensures 1 <= |rates| <= MAX_RATES
  {
    hide ParseEntries;
  }

  /** No published rate is above the stored one. */
  lemma PublishedNeverAboveStored(rates: seq<Rate>, bps: nat)
    requires bps <= FULL_PRICE_BPS
    ensures forall i :: 0 <= i < |rates| ==> Discounted(rates, bps)[i].priceMicroUsd <= rates[i].priceMicroUsd
  {
    forall i | 0 <= i < |rates|
      ensures ScaleByBps(rates[i].priceMicroUsd, bps) <= rates[i].priceMicroUsd
    {
      ScaleBounds(rates[i].priceMicroUsd, bps);
    }
  }

  // ----- the legacy price maps -----

  /** The key of a rate in the old maps: the meter for token prices, the SKU for the others. */
  datatype LegacyKey = ByMeter(meter: Meter) | BySku(sku: Text)

  function LegacyKeyOf(basis: PricingBasis, rate: SpecRate): LegacyKey {
    if basis == TokenBasis then ByMeter(rate.meterKey) else BySku(rate.skuKey)
  }

  /** `Object.fromEntries` over the rates. */
  function LegacyMap(basis: PricingBasis, rates: seq<SpecRate>): map<LegacyKey, nat> {
    if rates == [] then map[]
    else
      var last := rates[|rates| - 1];
      LegacyMap(basis, rates[..|rates| - 1])[LegacyKeyOf(basis, last) := last.priceMicroUsd]
  }

  /** The rates map and the tiers map: one of them holds the prices, the other is empty. */
  function LegacyMaps(spec: PricingSpec): (map<LegacyKey, nat>, map<LegacyKey, nat>) {
    var prices := LegacyMap(spec.basis, spec.rates);
    if spec.basis == TokenBasis then (prices, map[]) else (map[], prices)
  }

  ghost predicate DistinctLegacyKeys(basis: PricingBasis, rates: seq<SpecRate>) {
    forall i, j :: 0 <= i < j < |rates| ==> LegacyKeyOf(basis, rates[i]) != LegacyKeyOf(basis, rates[j])
  }

  lemma {:induction false} NewLegacyKey(basis: PricingBasis, rates: seq<SpecRate>, key: LegacyKey)
    requires forall i :: 0 <= i < |rates| ==> LegacyKeyOf(basis, rates[i]) != key
    ensures key !in LegacyMap(basis, rates)
  {
    hide LegacyKeyOf;
    if rates != [] {
      NewLegacyKey(basis, rates[..|rates| - 1], key);
    }
  }

  lemma {:induction false} LegacyMapAgrees(basis: PricingBasis, rates: seq<SpecRate>)
    requires DistinctLegacyKeys(basis, rates)
    ensures var m := LegacyMap(basis, rates);
      && |m| == |rates|
      && forall i :: 0 <= i < |rates| ==>
        LegacyKeyOf(basis, rates[i]) in m && m[LegacyKeyOf(basis, rates[i])] == rates[i].priceMicroUsd
  {
    hide LegacyKeyOf;
    if rates != [] {
      var n := |rates| - 1;
      LegacyMapAgrees(basis, rates[..n]);
      NewLegacyKey(basis, rates[..n], LegacyKeyOf(basis, rates[n]));
      assert forall i :: 0 <= i < n ==> rates[..n][i] == rates[i];
    }
  }

  /** For any accepted specification the old maps agree with it rate by rate and lose none. */
  lemma LegacyMapsAgree(basis: PricingBasis, meter: Option<QuantityMeter>, rates: seq<SpecRate>, skuRule: Option<Json>,
    tokenMeters: set<Text>)
    requires ValidatePricingSpec(basis, meter, rates, skuRule, tokenMeters).Ok?
    ensures var spec := ValidatePricingSpec(basis, meter, rates, skuRule, tokenMeters).value;
      var prices := if basis == TokenBasis then LegacyMaps(spec).0 else LegacyMaps(spec).1;
      && |prices| == |spec.rates| == |rates|
      && forall i :: 0 <= i < |rates| ==>
        LegacyKeyOf(basis, rates[i]) in prices && prices[LegacyKeyOf(basis, rates[i])] == rates[i].priceMicroUsd
  {
    hide ValidateCompiledRule, LegacyMap;
    LegacyMapAgrees(basis, rates);
  }
}
