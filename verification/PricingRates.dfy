/** Rate sheets: the admin form writes them as JSON, the database keeps rows, and both directions agree. */
module PricingRates {
  import opened Wrappers
  import opened CodeUnits
  import opened JsonValues
  import opened Decimals

  const MAX_RATES := 128
  const TOKENS_PER_UNIT := 1_000_000
  const DURATION_UNIT := 1_000
  const DEFAULT: Text := [0x64, 0x65, 0x66, 0x61, 0x75, 0x6C, 0x74]  // default
  const WEB_SEARCH: Text := [0x77, 0x65, 0x62, 0x5F, 0x73, 0x65, 0x61, 0x72, 0x63, 0x68]  // web_search
  const PRICE_KEY: Text := [0x70, 0x72, 0x69, 0x63, 0x65]  // price
  const NOTE_KEY: Text := [0x6E, 0x6F, 0x74, 0x65]  // note
  const TRUE_TEXT: Text := [0x74, 0x72, 0x75, 0x65]  // true
  const FALSE_TEXT: Text := [0x66, 0x61, 0x6C, 0x73, 0x65]  // false
  const NULL_TEXT: Text := [0x6E, 0x75, 0x6C, 0x6C]  // null
  /** `[object Object]` */
  const OBJECT_TEXT: Text := [
    0x5B, 0x6F, 0x62, 0x6A, 0x65, 0x63, 0x74, 0x20, 0x4F,
    0x62, 0x6A, 0x65, 0x63, 0x74, 0x5D]

  datatype PricingBasis = TokenBasis | UnitBasis | DurationBasis
  datatype QuantityMeter = RequestCount | OutputCount | AudioDurationMs | VideoDurationMs

  /** Token meters and quantity meters have disjoint names. */
  datatype Meter = TokenMeter(key: Text) | Quantity(meter: QuantityMeter)

  datatype Rate = Rate(meterKey: Meter, skuKey: Text, unitSize: nat, priceMicroUsd: nat, note: Option<Text>)

  // ----- reading the form -----

  /** `String(value)` */
  function ToText(value: Json): Text {
    match value
    case Null => NULL_TEXT
    case Bool(b) => if b then TRUE_TEXT else FALSE_TEXT
    case Num(printed) => printed
    case Str(text) => text
    case Arr(items) => JoinItems(items)
    case Obj(_) => OBJECT_TEXT
  }

  /** An array prints its items with commas; null items print as nothing. */
  function JoinItems(items: seq<Json>): Text {
    if items == [] then []
    else
      var last := items[|items| - 1];
      var text := if last.Null? then [] else ToText(last);
      if |items| == 1 then text else JoinItems(items[..|items| - 1]) + [COMMA] + text
  }

  /** `String(value ?? '')` */
  function TextOrEmpty(value: Option<Json>): Text {
    if value == None || value.value.Null? then [] else ToText(value.value)
  }

  /** A price, alone or in an object with a note. */
  function ParseRateValue(raw: Json): Result<(nat, Option<Text>)> {
    var price := if raw.Obj? then Get(raw, PRICE_KEY) else Some(raw);
    var note := Trim(TextOrEmpty(if raw.Obj? then Get(raw, NOTE_KEY) else None));
    var micro :- DollarsToMicroUsd(TextOrEmpty(price));
    Ok((micro, if note == [] then None else Some(note)))
  }

  function ParseRate(key: Text, raw: Json, basis: PricingBasis, meter: Option<QuantityMeter>,
    tokenMeters: set<Text>): Result<Rate> {
    if basis == TokenBasis then
      if key !in tokenMeters then Err
      else
        var (price, note) :- ParseRateValue(raw);
        Ok(Rate(TokenMeter(key), DEFAULT, if key == WEB_SEARCH then 1 else TOKENS_PER_UNIT, price, note))
    else if meter == None || Trim(key) == [] then Err
    else
      var (price, note) :- ParseRateValue(raw);
      if price == 0 then Err
      else Ok(Rate(Quantity(meter.value), key, if basis == DurationBasis then DURATION_UNIT else 1, price, note))
  }

  /** The entries of a JSON object, in the order that the engine lists them. */
  type Entries = seq<(Text, Json)>

  function ParseEntries(entries: Entries, basis: PricingBasis, meter: Option<QuantityMeter>,
    tokenMeters: set<Text>): (r: Result<seq<Rate>>)
    ensures r.Ok? ==> |r.value| == |entries|
  {
    if entries == [] then Ok([])
    else
      var n := |entries| - 1;
      var before :- ParseEntries(entries[..n], basis, meter, tokenMeters);
      var last :- ParseRate(entries[n].0, entries[n].1, basis, meter, tokenMeters);
      Ok(before + [last])
  }

  /** `parseRates`, on the entries of the parsed JSON object. */
  function ParseRates(entries: Entries, basis: PricingBasis, meter: Option<QuantityMeter>,
    tokenMeters: set<Text>): Result<seq<Rate>> {
    if !(1 <= |entries| <= MAX_RATES) then Err
    else if basis != TokenBasis && meter == None then Err
    else ParseEntries(entries, basis, meter, tokenMeters)
  }

  // ----- writing the form -----

  function FormKey(rate: Rate, tokenMeters: set<Text>): Text {
    if rate.skuKey == DEFAULT && rate.meterKey.TokenMeter? && rate.meterKey.key in tokenMeters then rate.meterKey.key
    else rate.skuKey
  }

  predicate IsPrintable(rate: Rate) {
    rate.priceMicroUsd < EXACT_PRINT_BOUND
  }

  function FormValue(rate: Rate): Json
    requires IsPrintable(rate)
  {
    var price := Str(MicroUsdToDollars(rate.priceMicroUsd));
    match rate.note
    case Some(note) => if note == [] then price else Obj(map[PRICE_KEY := price, NOTE_KEY := Str(note)])
    case None => price
  }

  /** `Object.fromEntries`: a later rate replaces an earlier one under the same key. */
  function FormatRates(rates: seq<Rate>, tokenMeters: set<Text>): map<Text, Json>
    requires forall i :: 0 <= i < |rates| ==> IsPrintable(rates[i])
  {
    if rates == [] then map[]
    else
      var last := rates[|rates| - 1];
      FormatRates(rates[..|rates| - 1], tokenMeters)[FormKey(last, tokenMeters) := FormValue(last)]
  }

  // ----- round trip -----

  ghost predicate DistinctKeys(entries: Entries) {
    forall i, j :: 0 <= i < j < |entries| ==> entries[i].0 != entries[j].0
  }

  /** Some order of an object's entries. */
  ghost predicate Lists(entries: Entries, members: map<Text, Json>) {
    && DistinctKeys(entries)
    && (forall i :: 0 <= i < |entries| ==> entries[i].0 in members && members[entries[i].0] == entries[i].1)
    && (forall k :: k in members ==> exists i :: 0 <= i < |entries| && entries[i].0 == k)
  }

  lemma ParseRateValueOfForm(rate: Rate)
    requires IsPrintable(rate) && (rate.note.Some? ==> rate.note.value != [] && Trimmed(rate.note.value))
    ensures ParseRateValue(FormValue(rate)) == Ok((rate.priceMicroUsd, rate.note))
  {
    hide DollarsToMicroUsd, MicroUsdToDollars, Trim;
    assert PRICE_KEY[0] != NOTE_KEY[0];
    DollarsRoundTrip(rate.priceMicroUsd);
    TrimTrimmed([]);
    if rate.note.Some? {
      TrimTrimmed(rate.note.value);
    }
  }

  /** One rate: it is written under the key it was read from, and read back unchanged. */
  lemma RateRoundTrip(key: Text, raw: Json, basis: PricingBasis, meter: Option<QuantityMeter>, tokenMeters: set<Text>)
    requires ParseRate(key, raw, basis, meter, tokenMeters).Ok?
    requires IsPrintable(ParseRate(key, raw, basis, meter, tokenMeters).value)
    ensures var rate := ParseRate(key, raw, basis, meter, tokenMeters).value;
      FormKey(rate, tokenMeters) == key && ParseRate(key, FormValue(rate), basis, meter, tokenMeters) == Ok(rate)
  {
    hide ParseRateValue, Trim, FormValue;
    ParsedNoteTrimmed(raw);
    ParseRateValueOfForm(ParseRate(key, raw, basis, meter, tokenMeters).value);
  }

  lemma ParsedNoteTrimmed(raw: Json)
    requires ParseRateValue(raw).Ok?
    ensures ParseRateValue(raw).value.1.Some? ==>
      ParseRateValue(raw).value.1.value != [] && Trimmed(ParseRateValue(raw).value.1.value)
  {
    hide DollarsToMicroUsd, Trim, TextOrEmpty;
  }

  lemma {:induction false} ParsedEach(entries: Entries, basis: PricingBasis, meter: Option<QuantityMeter>,
    tokenMeters: set<Text>, i: nat)
    requires ParseEntries(entries, basis, meter, tokenMeters).Ok? && i < |entries|
    ensures ParseRate(entries[i].0, entries[i].1, basis, meter, tokenMeters)
         == Ok(ParseEntries(entries, basis, meter, tokenMeters).value[i])
  {
    hide ParseRate;
    var n := |entries| - 1;
    if i < n {
      ParsedEach(entries[..n], basis, meter, tokenMeters, i);
    }
  }

  lemma {:induction false} ParseEach(entries: Entries, rates: seq<Rate>, basis: PricingBasis,
    meter: Option<QuantityMeter>, tokenMeters: set<Text>)
    requires |entries| == |rates|
    requires forall i :: 0 <= i < |entries| ==>
      ParseRate(entries[i].0, entries[i].1, basis, meter, tokenMeters) == Ok(rates[i])
    ensures ParseEntries(entries, basis, meter, tokenMeters) == Ok(rates)
  {
    hide ParseRate;
    if entries != [] {
      var n := |entries| - 1;
      ParseEach(entries[..n], rates[..n], basis, meter, tokenMeters);
      assert rates == rates[..n] + [rates[n]];
    }
  }

  ghost predicate AllPrintable(rates: seq<Rate>) {
    forall i :: 0 <= i < |rates| ==> IsPrintable(rates[i])
  }

  /** Rates that share a form key are the same rate. */
  ghost predicate KeyedOnce(rates: seq<Rate>, tokenMeters: set<Text>) {
    forall i, j ::
      0 <= i < |rates| && 0 <= j < |rates| && FormKey(rates[i], tokenMeters) == FormKey(rates[j], tokenMeters) ==>
      rates[i] == rates[j]
  }

  lemma {:induction false} FormattedKeys(rates: seq<Rate>, tokenMeters: set<Text>)
    requires AllPrintable(rates)
    ensures forall k :: k in FormatRates(rates, tokenMeters) ==>
      exists i :: 0 <= i < |rates| && FormKey(rates[i], tokenMeters) == k
  {
    hide FormValue, FormKey, IsPrintable;
    if rates != [] {
      var n := |rates| - 1;
      FormattedKeys(rates[..n], tokenMeters);
      forall k | k in FormatRates(rates, tokenMeters)
        ensures exists i :: 0 <= i < |rates| && FormKey(rates[i], tokenMeters) == k
      {
        if k != FormKey(rates[n], tokenMeters) {
          assert k in FormatRates(rates[..n], tokenMeters);
          var i :| 0 <= i < n && FormKey(rates[..n][i], tokenMeters) == k;
          assert rates[i] == rates[..n][i];
        }
      }
    }
  }

  lemma {:induction false} FormattedEntry(rates: seq<Rate>, tokenMeters: set<Text>, i: nat)
    requires AllPrintable(rates) && KeyedOnce(rates, tokenMeters) && i < |rates|
    ensures var form := FormatRates(rates, tokenMeters);
      FormKey(rates[i], tokenMeters) in form && form[FormKey(rates[i], tokenMeters)] == FormValue(rates[i])
  {
    hide FormValue, FormKey, IsPrintable;
    var n := |rates| - 1;
    if i < n && FormKey(rates[i], tokenMeters) != FormKey(rates[n], tokenMeters) {
      FormattedEntry(rates[..n], tokenMeters, i);
      assert rates[..n][i] == rates[i];
    }
  }

  /** The form has one entry a rate, under the rate's key. */
  lemma FormattedEntries(rates: seq<Rate>, tokenMeters: set<Text>)
    requires AllPrintable(rates) && KeyedOnce(rates, tokenMeters)
    ensures var form := FormatRates(rates, tokenMeters);
      && (forall i :: 0 <= i < |rates| ==>
            FormKey(rates[i], tokenMeters) in form && form[FormKey(rates[i], tokenMeters)] == FormValue(rates[i]))
      && (forall k :: k in form ==> exists i :: 0 <= i < |rates| && FormKey(rates[i], tokenMeters) == k)
  {
    hide FormValue, FormKey, IsPrintable, FormatRates, KeyedOnce;
    FormattedKeys(rates, tokenMeters);
    forall i | 0 <= i < |rates|
      ensures var form := FormatRates(rates, tokenMeters);
        FormKey(rates[i], tokenMeters) in form && form[FormKey(rates[i], tokenMeters)] == FormValue(rates[i])
    {
      FormattedEntry(rates, tokenMeters, i);
    }
  }

  function KeySet(entries: Entries): set<Text> {
    set i | 0 <= i < |entries| :: entries[i].0
  }

  lemma {:induction false} KeySetSize(entries: Entries)
    requires DistinctKeys(entries)
    ensures |KeySet(entries)| == |entries|
  {
    if entries != [] {
      var n := |entries| - 1;
      KeySetSize(entries[..n]);
      assert KeySet(entries) == KeySet(entries[..n]) + {entries[n].0} by {
        assert forall i :: 0 <= i < n ==> entries[..n][i] == entries[i];
      }
    }
  }

  /** The rates of a parsed sheet carry the keys of its entries. */
  lemma ParsedKeyed(entries: Entries, basis: PricingBasis, meter: Option<QuantityMeter>, tokenMeters: set<Text>,
    rates: seq<Rate>)
    requires ParseEntries(entries, basis, meter, tokenMeters) == Ok(rates) && DistinctKeys(entries)
      && AllPrintable(rates)
    ensures KeyedOnce(rates, tokenMeters)
    ensures forall i :: 0 <= i < |rates| ==> FormKey(rates[i], tokenMeters) == entries[i].0
    ensures forall i :: 0 <= i < |rates| ==>
      ParseRate(entries[i].0, FormValue(rates[i]), basis, meter, tokenMeters) == Ok(rates[i])
  {
    hide ParseRate, ParseEntries, FormKey, FormValue;
    forall i | 0 <= i < |rates|
      ensures FormKey(rates[i], tokenMeters) == entries[i].0
      ensures ParseRate(entries[i].0, FormValue(rates[i]), basis, meter, tokenMeters) == Ok(rates[i])
    {
      ParsedEach(entries, basis, meter, tokenMeters, i);
      RateRoundTrip(entries[i].0, entries[i].1, basis, meter, tokenMeters);
    }
  }

  /** The rate sheet round trip: rates that were parsed, stored in any row order, formatted for the form and
      parsed again from the form's entries in any order, are the same rates. */
  lemma RatesRoundTrip(
    entries: Entries, basis: PricingBasis, meter: Option<QuantityMeter>, tokenMeters: set<Text>,
    rates: seq<Rate>, stored: seq<Rate>, again: Entries)
    requires DistinctKeys(entries) && ParseRates(entries, basis, meter, tokenMeters) == Ok(rates)
    requires (forall r :: r in stored <==> r in rates) && AllPrintable(stored)
    requires Lists(again, FormatRates(stored, tokenMeters))
    ensures var parsed := ParseRates(again, basis, meter, tokenMeters);
      parsed.Ok? && |parsed.value| == |rates| && forall r :: r in parsed.value <==> r in rates
  {
    hide ParseRate, ParseEntries, FormKey, FormValue, FormatRates, IsPrintable, KeyedOnce, RateAt;
    AllPrintableToo(rates, stored);
    ParsedKeyed(entries, basis, meter, tokenMeters, rates);
    StoredKeyed(rates, stored, tokenMeters);
    FormattedEntries(stored, tokenMeters);
    var form := FormatRates(stored, tokenMeters);
    var back := seq(|again|, i requires 0 <= i < |again| => RateAt(again[i].0, entries, rates));
    forall i | 0 <= i < |again|
      ensures back[i] in rates && ParseRate(again[i].0, again[i].1, basis, meter, tokenMeters) == Ok(back[i])
    {
      assert again[i].0 in form;
      var m := EntryComesBack(again[i].0, entries, rates, stored, form, tokenMeters);
    }
    ParseEach(again, back, basis, meter, tokenMeters);
    SameKeys(again, entries, form, stored, rates, tokenMeters);
    forall r | r in rates
      ensures r in back
    {
      var m :| 0 <= m < |rates| && rates[m] == r;
      assert r in stored;
      var j :| 0 <= j < |stored| && stored[j] == r;
      var i :| 0 <= i < |again| && again[i].0 == FormKey(stored[j], tokenMeters);
      RateAtIs(again[i].0, entries, rates, m);
      assert back[i] == r;
    }
  }

  lemma AllPrintableToo(rates: seq<Rate>, stored: seq<Rate>)
    requires (forall r :: r in stored <==> r in rates) && AllPrintable(stored)
    ensures AllPrintable(rates)
  {
    hide IsPrintable;
    forall i | 0 <= i < |rates| ensures IsPrintable(rates[i]) {
      assert rates[i] in stored;
    }
  }

  /** The rate that an entry of the form was written from, and was parsed from before. */
  lemma EntryComesBack(
    key: Text, entries: Entries, rates: seq<Rate>, stored: seq<Rate>, form: map<Text, Json>, tokenMeters: set<Text>)
      returns (m: nat)
    requires |entries| == |rates| && DistinctKeys(entries) && key in form && AllPrintable(rates) && AllPrintable(stored)
    requires forall i :: 0 <= i < |rates| ==> FormKey(rates[i], tokenMeters) == entries[i].0
    requires forall r :: r in stored <==> r in rates
    requires forall i :: 0 <= i < |stored| ==>
      FormKey(stored[i], tokenMeters) in form && form[FormKey(stored[i], tokenMeters)] == FormValue(stored[i])
    requires forall k :: k in form ==> exists i :: 0 <= i < |stored| && FormKey(stored[i], tokenMeters) == k
    ensures m < |rates| && RateAt(key, entries, rates) == rates[m] && entries[m].0 == key
      && form[key] == FormValue(rates[m])
  {
    hide FormKey, FormValue, IsPrintable, RateAt;
    var j :| 0 <= j < |stored| && FormKey(stored[j], tokenMeters) == key;
    assert stored[j] in rates;
    m :| 0 <= m < |rates| && rates[m] == stored[j];
    RateAtIs(key, entries, rates, m);
  }

  lemma StoredKeyed(rates: seq<Rate>, stored: seq<Rate>, tokenMeters: set<Text>)
    requires KeyedOnce(rates, tokenMeters) && forall r :: r in stored ==> r in rates
    ensures KeyedOnce(stored, tokenMeters)
  {
    hide FormKey;
    forall i, j | 0 <= i < |stored| && 0 <= j < |stored|
      && FormKey(stored[i], tokenMeters) == FormKey(stored[j], tokenMeters)
      ensures stored[i] == stored[j]
    {
      assert stored[i] in rates && stored[j] in rates;
      var a :| 0 <= a < |rates| && rates[a] == stored[i];
      var b :| 0 <= b < |rates| && rates[b] == stored[j];
    }
  }

  /** The rate read from the entry with this key. */
  ghost function RateAt(key: Text, entries: Entries, rates: seq<Rate>): Rate
    requires |entries| == |rates| && rates != []
  {
    if i :| 0 <= i < |entries| && entries[i].0 == key then rates[i] else rates[0]
  }

  lemma RateAtIs(key: Text, entries: Entries, rates: seq<Rate>, i: nat)
    requires |entries| == |rates| && i < |entries| && entries[i].0 == key && DistinctKeys(entries)
    ensures RateAt(key, entries, rates) == rates[i]
  {
  }

  lemma SameKeys(again: Entries, entries: Entries, form: map<Text, Json>, stored: seq<Rate>, rates: seq<Rate>,
    tokenMeters: set<Text>)
    requires Lists(again, form) && DistinctKeys(entries) && |entries| == |rates|
    requires forall i :: 0 <= i < |rates| ==> FormKey(rates[i], tokenMeters) == entries[i].0
    requires forall r :: r in stored <==> r in rates
    requires forall i :: 0 <= i < |stored| ==> FormKey(stored[i], tokenMeters) in form
    requires forall k :: k in form ==> exists i :: 0 <= i < |stored| && FormKey(stored[i], tokenMeters) == k
    ensures |again| == |entries|
  {
    hide FormKey;
    KeySetSize(again);
    KeySetSize(entries);
    forall k | k in KeySet(again)
      ensures k in KeySet(entries)
    {
      var i :| 0 <= i < |stored| && FormKey(stored[i], tokenMeters) == k;
      assert stored[i] in rates;
      var m :| 0 <= m < |rates| && rates[m] == stored[i];
      assert entries[m].0 == k;
    }
    forall k | k in KeySet(entries)
      ensures k in KeySet(again)
    {
      var m :| 0 <= m < |entries| && entries[m].0 == k;
      assert rates[m] in stored;
      var j :| 0 <= j < |stored| && stored[j] == rates[m];
      assert k in form;
    }
    assert KeySet(again) == KeySet(entries);
  }
}
