# APIPool business rules in Dafny

The project models the parts of APIPool where money, access and published prices are decided, and proves what they
promise. Every file holds one module named after what it models.

- **Credits** (`Sums`, `CreditLedger`, `CreditConsumption`, `CreditSchedule`, `CreditProofs`, `CreditMeaning`,
  `CreditStore`): grants are consumed first-expiring-first in a batched loop; a failing task gives its consumption back.
  Conservation over every run, an exact success condition, optimality of the consumption order for one request and for
  every sequence of requests, and refunds as inverses.
- **SKU rules** (`Wrappers`, `CodeUnits`, `WhiteSpace`, `JsonStrings`, `JsonGrammar`, `ConjunctionSplitter`,
  `SkuTemplates`, `TemplateReadings`, `SkuRules`, `SkuConditionGrammar`, `SkuRuleGrammar`, `SkuSourceGrammar`,
  `SkuRuleRoundTrip`, `SkuRuleExamples`, `SkuRuleEvaluation`, `SkuRuleMeaning`, `JsonValues`, `SkuRuleStorage`,
  `SkuRuleRecords`): the rule compiler, its stored form and its evaluator. The compiler accepts exactly a grammar over
  code units, printing and compiling are inverse, the splitter is the unique split, validation keeps meaning, evaluation
  reads only allowed fields.
- **Prices** (`SafeIntegers`, `Decimals`, `DecimalReadings`, `PricingRates`, `PricingSpecs`, `PricingMeaning`,
  `PricingExamples`): exact decimals, rate sheets, discounting and the published specification.
- **Payments** (`OrderPayments`, `OrderProofs`, `RenewalProofs`, `PaymentMeaning`, `PaymentStore`, `PaymentExamples`):
  webhook deliveries with stale snapshots, in any interleaving. Each order is recharged at most once; exact conditions
  and inputs for what is not guaranteed.
- **Metadata filter** (`MetadataFilter`, `MetadataFilterProofs`, `MetadataFilterMeaning`): the Go service that filters
  models and vendors by the supplier policy.
- **Price sync** (`PriceSync`, `PriceSyncProofs`, `PriceSyncMeaning`): matching the catalog with a remote snapshot,
  drift and its baseline.
- **Permissions** (`Permissions`, `PermissionMeaning`): seeding wildcards by string prefix against checking them by
  dotted parts.

Code that updates rows in place is a class whose methods are proved against functions on the whole table state; code
with loops is a method with the loop; the rest is functions. The properties are lemmas about those functions. The
modules named `Grammar`, `Reading`, `Meaning` and `Records` say what the functions answer without using them: by code
units, columns, map lookups and positions alone, in both directions.

## How to read the state

- A row id is the position of the row, so new ids are fresh. Time is an integer. A database transaction is one atomic
  step that commits or is rolled back; concurrent transactions are taken as serialized.
- The order in which the database lists grants is a parameter: any order by expiry with grants that never expire last
  and ties either way. The source's comment says so (`src/shared/models/credit.ts:220-223`); SQLite and MySQL list
  absent values first.
- Strings are UTF-16 code units, except in the Go service, where they are code points.
- An error of one function is one value, without its message. Facts are own properties of their record.
- JSON numbers enter as the text that JavaScript prints for them.

## Where the code does less than its text says

Each point has an exact condition and an input.

- The comment at `src/shared/models/credit.ts:197` speaks of 10000 grants. The batch number counts touched grants, so a
  consumption fails when it needs more than nine (`CreditConsumption.ConsumptionSucceedsExactly`,
  `CreditConsumption.TenSmallGrantsDoNotPay`).
- PAID is not final. A failed or canceled session with an old snapshot overwrites it, and so does the checkout request of
  the order itself when it writes CREATED or COMPLETED late
  (`src/app/api/payment/checkout/checkout-handler.ts:265-289`; `OrderProofs.LeavesPaidExactly`,
  `PaymentExamples.PaidOrderFails`).
- A recharge need not be covered by what was paid: the guard compares no first subscription payment and no session
  without an amount, as its comment says (`src/shared/services/payment-guards.ts:12-16`). Any caller of
  `handleCheckoutSuccess` reaches that case, which is the webhook and the callback route, when the provider reports no
  amount (`PaymentExamples.UnreportedCheckoutRecharges`). `handlePaymentSuccess` compares nothing, but no code in the
  repository calls it: the webhook sends one-time PAYMENT_SUCCESS events to `handleCheckoutSuccess`
  (`src/app/api/payment/notify/[provider]/route.ts:163-182`), so its case takes a direct call
  (`PaymentExamples.UnpaidPaymentRecharges`). Exactly when: `OrderProofs.RechargeExactly`,
  `OrderProofs.UncoveredRechargeExactly`.
- A renewal delivered again inserts another grant when it carries no transaction id, or when the id was first seen on an
  order without a grant, as after a checkout (`RenewalProofs.RedeliveryAddsNothingExactly`). The webhook route looks an
  id up before it calls the handler (`src/app/api/payment/notify/[provider]/route.ts:99-111` and `:127-137`), so the
  second case takes deliveries that looked the id up before the checkout wrote it, or a direct call. Without an id and with the cycle type RENEWAL the route
  calls the handler every time (`:98-117`), so plain redelivery is enough
  (`PaymentExamples.UnidentifiedRenewalGrantsTwice`, `PaymentExamples.CheckedOutRenewalGrantsTwice`).
- A renewal delivered again after a later one sets the billing period back (`RenewalProofs.RenewalIdempotent`,
  `PaymentExamples.LateRenewalSetsPeriodBack`); the same lookup keeps the webhook from doing so one delivery at a time.
- A discounted unit or duration rate that rounds to 0 keeps a saved profile from being published
  (`PricingSpecs.SavedProfilePublishesExactly`, `PricingExamples.TinyPriceIsSavedNotPublished`).
- Seeding loses a role's `*` when `*` is not in the list of permissions (`Permissions.SeedingAgreesExactly`,
  `Permissions.UnknownStarIsLost`).

`microUsdToDollars` divides doubles; the printed price is exact below 10^15 micro-dollars, which bounds the rate round
trip.

## Model

| member | source | states |
|---|---|---|
| `CreditStores.CreditStore.GetRemainingCredits` | src/shared/models/credit.ts:299-321 | The balance is the sum over the active, unexpired grants of the user that still hold credits. |
| `CreditStores.CreditStore.GrantCreditsForUser` | src/shared/models/credit.ts:355-397 | A grant keeps the ledger conserved and raises the balance of its user, and of no other, by the amount at every instant before it expires; an amount that is not positive changes no balance. |
| `CreditStores.CreditStore.ConsumeBatch` | src/shared/models/credit.ts:234-268 | The inner loop takes first to last from one batch, records every taking and throws at the tenth touched grant. |
| `CreditStores.CreditStore.ConsumeCredits` | src/shared/models/credit.ts:163-296 | The batched loop issues at most one query; it commits what the first eligible grants give, or throws and leaves the table as it was. |
| `CreditStores.CreditStore.CreateAITask` | src/shared/models/ai_task.ts:16-50 | Task, consumption and link commit together or not at all. |
| `CreditStores.CreditStore.AddBack` | src/shared/models/ai_task.ts:71-83 | The increments of a refund may land in any order and always add up to what the record took. |
| `CreditStores.CreditStore.UpdateAITaskById` | src/shared/models/ai_task.ts:57-106 | A failing update refunds an active record and deletes it; a deleted record refunds nothing. |
| `CreditStores.OneBatchDecides` | src/shared/models/credit.ts:203-269 | Once the balance check passes, the first batch is never empty and decides the call: the empty-batch exit and a second query are unreachable. |
| `CreditLedger.BalanceOfEligible` | src/shared/models/credit.ts:164-191 | The balance that is checked is what the grants listed for consumption hold, in whatever order the database lists them. |
| `CreditLedger.FifoTotal` | src/shared/models/credit.ts:235-262 | The loop takes the whole amount, or all there is. |
| `CreditLedger.FifoIsGreedy` | src/shared/models/credit.ts:235-262 | Every touched grant but the last is drained. |
| `CreditConsumption.ConsumptionSucceedsExactly` | src/shared/models/credit.ts:183-267 | A consumption succeeds if and only if the first nine eligible grants cover the amount. |
| `CreditConsumption.ConsumptionIsExact` | src/shared/models/credit.ts:195-269 | The details sum to the amount, name the first eligible grants in order, drain all but the last, and no other row changes. |
| `CreditConsumption.EarlierGrantsDrained` | src/shared/models/credit.ts:220-240 | A grant is touched only when every eligible grant that expires earlier is drained. |
| `CreditConsumption.FifoIsOptimal` | src/shared/models/credit.ts:203-269 | At every later instant the unexpired balance is at least what any other way of taking the same amount would leave. |
| `CreditConsumption.TakenLeaves` | src/shared/models/credit.ts:203-269 | What first-expiring-first leaves at a later instant: the lesser of the balance that was due there and the present balance less the amount. |
| `CreditConsumption.TenSmallGrantsDoNotPay` | src/shared/models/credit.ts:261-267 | An input: ten grants of one credit have a balance of ten and do not pay for ten credits. |
| `CreditSchedule.FifoPaysWheneverPossible` | src/shared/models/credit.ts:203-269 | Whenever a sequence of requests at increasing instants, with grants arriving in between, can be paid for in any way, first-expiring-first covers every request. |
| `CreditSchedule.CoveredFailsExactly` | src/shared/models/credit.ts:261-267 | A request that the balance covers fails if and only if it would touch more than nine grants. |
| `CreditProofs.StepConserves` | src/shared/models/ai_task.ts:16-106 | Every grant, task creation and task update keeps, for each grant, remaining plus outstanding takings equal to its credits. |
| `CreditProofs.RunConserves` | src/shared/models/credit.ts:163-287 | Conservation over every run of steps from any conserved ledger. |
| `CreditProofs.EveryRunConserves` | src/shared/models/credit.ts:163-287 | In every reachable ledger 0 <= remaining <= credits, and what a grant lacks is what active records took from it. |
| `CreditProofs.RefundInvertsConsume` | src/shared/models/ai_task.ts:58-93 | Whatever runs in between, failing a task gives each grant back exactly what its consumption took, once; failing it again changes no balance. |
| `CreditMeaning.BalanceExactly` | src/shared/models/credit.ts:299-321 | The balance is the sum of what the rows hold that are active grants of the user, hold something and have no expiry or a later one. |
| `CreditMeaning.ConsumptionExactly` | src/shared/models/credit.ts:163-287 | Row by row: with the takeable grants listed by expiry, a consumption succeeds if and only if the first nine hold the amount, and every column of its items (need, taken, before, after, running number) is what paying grant by grant gives. |
| `CreditMeaning.CreateTaskExactly` | src/shared/models/ai_task.ts:16-50 | Which rows and which task row a creation leaves: nothing for a consumption that fails, else every grant less by its taking, the record, and the task with the id of the record. |
| `CreditMeaning.UpdateTaskExactly` | src/shared/models/ai_task.ts:57-106 | Which rows an update leaves: the status and credit id it names on its task alone, and for a failing update of an active record every grant larger by what was taken from it and the record deleted. |
| `JsonStrings.ScanExtends` | src/features/api-catalog/lib/sku-rule.ts:170-181 | How a string literal is read (section 7 of RFC 8259) does not depend on what follows it. |
| `JsonStrings.ScanPrintable` | src/features/api-catalog/lib/sku-rule.ts:170-181 | A literal holds no control characters, so it stays on one line. |
| `JsonStrings.QuoteStringIsLiteral` | src/features/api-catalog/lib/sku-rule.ts:340 | Every string has a literal that spells it without `>`, so that the lazy `=>` split cannot cut it. |
| `JsonStrings.ParseStringArrayBounded` | src/features/api-catalog/lib/sku-rule.ts:257-268 | No string of a list is longer than the list. |
| `JsonGrammar.LiteralExactly` | src/features/api-catalog/lib/sku-rule.ts:170-181 | A text is read as a string of value v if and only if it is a quoted run of plain units, two-unit escapes and four-digit escapes that spell v. |
| `JsonGrammar.ArrayExactly` | src/features/api-catalog/lib/sku-rule.ts:257-268 | A list text is read as the strings vs if and only if it is `[`, the literals of vs with commas between them, and `]`, with any run of 0x20, 0x09, 0x0A, 0x0D around each of them. |
| `ConjunctionSplitter.ScanPieces` | src/features/api-catalog/lib/sku-rule.ts:189-228 | The one-pass scanner (index, piece start, quote and escape flags, bracket depth) computes the recursive cut. |
| `ConjunctionSplitter.ScanConjunctions` | src/features/api-catalog/lib/sku-rule.ts:189-235 | The scanner with trimming and the limits of one to twelve non-empty conditions. |
| `ConjunctionSplitter.CutIsTheSplit` | src/features/api-catalog/lib/sku-rule.ts:197-228 | The scanner returns a list if and only if it is the split of the text at the leftmost `&&` outside quotes and brackets; the split is unique. |
| `ConjunctionSplitter.SplitJoined` | src/features/api-catalog/lib/sku-rule.ts:189-235 | Splitting the join of one to twelve well-formed conditions returns them, whatever their strings and lists hold. |
| `ConjunctionSplitter.SplitRejoins` | src/features/api-catalog/lib/sku-rule.ts:189-235 | The accepted parts are the trimmed pieces of a split that rejoins to the input. |
| `ConjunctionSplitter.LiteralPiece` | src/features/api-catalog/lib/sku-rule.ts:198-214 | A string literal is one piece, with escaped quotes, brackets and `&&` inside. |
| `ConjunctionSplitter.BracketPiece` | src/features/api-catalog/lib/sku-rule.ts:215-221 | A bracketed list is one piece, `&&` inside included. |
| `SkuTemplates.TokensSpellTemplate` | src/features/api-catalog/lib/sku-rule.ts:294-300 | Literal units and placeholders spell the template they were read from. |
| `SkuTemplates.CleanTemplateOpenersArePlaceholders` | src/features/api-catalog/lib/sku-rule.ts:301-303 | In an accepted template every `${` starts a placeholder. |
| `SkuTemplates.CleanTemplateExactly` | src/features/api-catalog/lib/sku-rule.ts:301-303 | The remove-then-search check accepts exactly the templates in which no `$` comes to touch a `{` once placeholders are removed. |
| `TemplateReadings.ReadingExists` | src/features/api-catalog/lib/sku-rule.ts:292-305 | Every template is literal texts without placeholders, with `${name}` placeholders between them. |
| `TemplateReadings.TemplateExactly` | src/features/api-catalog/lib/sku-rule.ts:294-303 | Of any such reading: the template is accepted if and only if all names are allowed and the literals put together hold no `${`. |
| `SkuRules.ParseConditionList` | src/features/api-catalog/lib/sku-rule.ts:345-348 | Mapping the parser over the split pieces fails at the first bad one and otherwise keeps their order. |
| `SkuRules.Compile` | src/features/api-catalog/lib/sku-rule.ts:307-363 | The line loop with its mutable rules and fallback computes the recursive compilation: exactly one `else`, last, at most 64 rules before it. |
| `SkuConditionGrammar.DistinctExactly` | src/features/api-catalog/lib/sku-rule.ts:268 | Dropping repeated values keeps the values at their first positions, in order, and only these. |
| `SkuConditionGrammar.ConditionExactly` | src/features/api-catalog/lib/sku-rule.ts:237-290 | A condition text is read as a condition if and only if the grammar of the five forms, with its white space, spells it and the field is allowed. |
| `SkuConditionGrammar.OutputExactly` | src/features/api-catalog/lib/sku-rule.ts:292-305 | An output text is read as an output if and only if it is `reject` or a literal of a template over the allowed names. |
| `SkuRuleGrammar.ConditionsExactly` | src/features/api-catalog/lib/sku-rule.ts:189-235 | A condition list is read if and only if it is one to twelve spelled conditions with `&&` and any white space between them; the splitter needs no mention. |
| `SkuRuleGrammar.RuleExactly` | src/features/api-catalog/lib/sku-rule.ts:338-352 | A line is read as a rule if and only if it is `when`, spelled conditions without `=>`, `=>` and a spelled output; no such line is an `else` line. |
| `SkuRuleGrammar.ElseExactly` | src/features/api-catalog/lib/sku-rule.ts:327-334 | A line is read as the `else` line if and only if it is `else`, `=>` and a spelled output. |
| `SkuSourceGrammar.BreaksExactly` | src/features/api-catalog/lib/sku-rule.ts:311-322 | Normalizing line ends and splitting breaks the text at each LF, CR LF and lone CR, and nowhere else. |
| `SkuSourceGrammar.CompileExactly` | src/features/api-catalog/lib/sku-rule.ts:307-363 | A source text compiles to a rule if and only if the whole grammar, from code units to lines, comments and the length limit, spells that rule. |
| `SkuSourceGrammar.CompileAround` | src/features/api-catalog/lib/sku-rule.ts:311 | White space and line breaks around a source text change nothing. |
| `SkuRuleExamples.ImageRuleCompiles` | tests/api-catalog/sku-rule.test.ts:11-24 | An input: the image rule, with its spaces, lists and six lines, compiles to its five rules and `reject`. |
| `SkuRuleRoundTrip.CompiledRuleValid` | src/features/api-catalog/lib/sku-rule.ts:237-363 | Whatever compiles is a valid rule over the allowed fields. |
| `SkuRuleRoundTrip.CompilePrinted` | src/features/api-catalog/lib/sku-rule.ts:237-363 | For every way of writing strings and lists as JSON on one line without a raw `>`, compiling the printed text of any valid rule gives the rule back if the text has at most 8192 code units, and fails otherwise. |
| `SkuRuleRoundTrip.PaddedListsAreListed` | src/features/api-catalog/lib/sku-rule.ts:257-268 | Such a way of writing lists pads the brackets and each comma with any runs of spaces and tabs. |
| `SkuRuleRoundTrip.RecompilePrinted` | src/features/api-catalog/lib/sku-rule.ts:307-363 | Printing what was compiled and compiling it again changes nothing. |
| `SkuRuleRoundTrip.QuoteStringIsQuoter` | src/features/api-catalog/lib/sku-rule.ts:340 | A quoting that escapes `>` meets what the round trip asks of a printer. |
| `SkuRuleEvaluation.Render` | src/features/api-catalog/lib/sku-rule.ts:384-403 | The source's one-pass replace loop computes the rendering function; what that answers is KeyExactly and MissingExactly below. |
| `SkuRuleEvaluation.FirstMatchDecides` | src/features/api-catalog/lib/sku-rule.ts:405-419 | The first rule whose conditions all match decides; without one, the fallback. |
| `SkuRuleEvaluation.ListIsAlternatives` | src/features/api-catalog/lib/sku-rule.ts:376-381 | An `in` list means the same as one `==` rule for each of its values, for every continuation and all facts. |
| `SkuRuleEvaluation.ComplementsCover` | src/features/api-catalog/lib/sku-rule.ts:371-379 | Two rules that differ in `missing`/`present` or in `==`/`!=` mean the same as one rule without the condition. |
| `SkuRuleEvaluation.MissingIffSomeHoleBlank` | src/features/api-catalog/lib/sku-rule.ts:389-403 | A key is missing if and only if some placeholder has a blank fact. |
| `SkuRuleEvaluation.CompiledRuleReadsOnlyAllowed` | src/features/api-catalog/lib/sku-rule.ts:365-419 | Non-interference: evaluating a compiled rule depends on the allowed fields only. |
| `SkuRuleMeaning.KeyExactly` | src/features/api-catalog/lib/sku-rule.ts:384-419 | The answer is a key if and only if the chosen output is a template all of whose placeholders have a non-empty fact in the map, and the key is the template with each placeholder replaced by its fact. |
| `SkuRuleMeaning.MissingExactly` | src/features/api-catalog/lib/sku-rule.ts:384-419 | A template fact is missing if and only if some placeholder field of the chosen output is absent, null or empty in the map. |
| `SkuRuleMeaning.RejectedExactly` | src/features/api-catalog/lib/sku-rule.ts:384-419 | A request is rejected if and only if the chosen output is `reject`. |
| `SkuRuleStorage.ValidateStored` | src/features/api-catalog/lib/sku-rule.ts:89-168 | A stored rule is accepted if and only if it is storable, and changed only by dropping repeated list values. |
| `SkuRuleRecords.CompiledRuleExactly` | src/features/api-catalog/lib/sku-rule.ts:58-168 | A JSON value is accepted as a rule if and only if its own properties, by name, type and limit, describe that rule. |
| `SkuRuleStorage.ValidationIdempotent` | src/features/api-catalog/lib/sku-rule.ts:89-168 | What the validator accepts from any JSON value it accepts again unchanged. |
| `SkuRuleStorage.ValidationPreservesEvaluation` | src/features/api-catalog/lib/sku-rule.ts:89-168 | Every JSON value that is accepted evaluates, on all facts, as the evaluator would have taken it unvalidated. |
| `SkuRuleStorage.StoredRuleEvaluates` | src/features/api-catalog/lib/sku-rule.ts:89-168 | A rule that is stored and accepted evaluates as it did before it was stored. |
| `SkuRuleStorage.CompiledRuleAccepted` | src/features/api-catalog/lib/sku-rule.ts:47-56 | A compiled rule is accepted unchanged if and only if its field names have at most 128 code units. |
| `Decimals.NormalizeKeepsValue` | src/features/api-catalog/lib/pricing.ts:188-210 | Normalizing keeps the rational value, and its result is accepted and already normal. |
| `Decimals.NormalizeIsCanonical` | src/features/api-catalog/lib/pricing.ts:188-210 | Two accepted texts denote the same number if and only if their normal forms are equal. |
| `Decimals.RoundHalfUpIs` | src/features/api-catalog/lib/pricing.ts:225-229 | Quotient plus doubled-remainder test is half-up rounding. |
| `Decimals.ScaledIntegerIsHalfUp` | src/features/api-catalog/lib/pricing.ts:212-235 | The scaled integer is the half-up rounding of the value times the scale; the call throws exactly on a bad scale, an unreadable text or an unsafe result. |
| `Decimals.ScaledIntegerMonotone` | src/features/api-catalog/lib/pricing.ts:212-235 | Larger numbers have at least as large scaled integers, whatever their spelling. |
| `Decimals.DollarsRoundTrip` | src/features/api-catalog/lib/pricing.ts:1-20 | A micro-dollar price below 10^15 survives printing in dollars and reading back. |
| `DecimalReadings.ReadExactly` | src/features/api-catalog/lib/pricing.ts:188-210 | A text is read as a decimal if and only if it is digits, perhaps a point and more digits, with an optional plus sign and white space around. |
| `DecimalReadings.NormalizeExactly` | src/features/api-catalog/lib/pricing.ts:188-210 | Normalizing answers with the one text of the same number that has no spare zeros, and throws on every other text. |
| `DecimalReadings.ScaledExactly` | src/features/api-catalog/lib/pricing.ts:212-235 | The scaled integer is the number spelled, by the place of each digit, times the scale, rounded half up, if and only if that is a safe integer. |
| `DecimalReadings.PrintedExactly` | src/features/api-catalog/lib/pricing.ts:16-20 | A price prints as the one decimal text of its dollars without spare zeros. |
| `PricingRates.RateRoundTrip` | src/features/api-catalog/server/pricing-profile-service.ts:174-245 | A rate is written under the key it was read from and read back unchanged, for all three bases. |
| `PricingRates.RatesRoundTrip` | src/features/api-catalog/server/pricing-profile-service.ts:479-496 | Rates parsed from a sheet, stored as rows in any order, formatted and parsed again in any order, are the same rates. |
| `PricingMeaning.RateExactly` | src/features/api-catalog/server/pricing-profile-service.ts:174-246 | An entry of a rate sheet is read as a rate if and only if meter, SKU, unit size (1 for `web_search`, 1000000 for other token meters, 1000 for durations, 1 for units), price and note are what the entry says. |
| `PricingMeaning.RatesExactly` | src/features/api-catalog/server/pricing-profile-service.ts:192-246 | A sheet is read if and only if it has 1 to 128 entries, each of them a rate, and the rates keep their order. |
| `PricingMeaning.FormExactly` | src/features/api-catalog/server/pricing-profile-service.ts:479-496 | The form written from rows has one entry per key, with the price in dollars and the note of the last rate under it. |
| `PricingSpecs.ScaleIsHalfUp` | src/features/api-catalog/lib/pricing.ts:374-381 | A discounted price is the half-up rounding of price times bps over 10000. |
| `PricingSpecs.ScaleMonotone` | src/features/api-catalog/lib/pricing.ts:374-381 | Discounting is monotone in price and in bps. |
| `PricingSpecs.ScaleBounds` | src/features/api-catalog/lib/pricing.ts:374-381 | 10000 bps changes nothing, less never raises a price, and the result is 0 exactly when price times bps is below 5000. |
| `PricingSpecs.SavedRuleAccepted` | src/features/api-catalog/server/pricing-profile-service.ts:312-322 | The rule compiled for a saved profile is accepted unchanged when it is read back. |
| `PricingMeaning.ProfileExactly` | src/features/api-catalog/server/pricing-profile-service.ts:248-336 | A form is saved as a profile if and only if the category allows its configuration, the sheet says the rates, and for prices not by token the rule is what the grammar reads from the form's own text, or `else => "default"` for none, with a rate named `default`. |
| `PricingMeaning.SpecExactly` | src/features/gateway/lib/pricing-spec.ts:76-176 | A specification is accepted if and only if every rate, the meter, the key uniqueness and the described rule are valid, and is returned as it is. |
| `PricingMeaning.EffectiveExactly` | src/features/api-catalog/server/pricing-profile-service.ts:498-536 | What is published is the stored rates with each price times bps over 10000 rounded half up, if that is a valid specification. |
| `PricingMeaning.LegacyExactly` | src/features/api-catalog/server/publish-readiness.ts:134-153 | Which legacy map holds the prices under which key, and that the other one is empty. |
| `PricingSpecs.SavedProfilePublishesExactly` | src/features/api-catalog/server/pricing-profile-service.ts:498-536 | A saved profile publishes if and only if it is token-based or no discounted rate rounds to 0, and then holds exactly the discounted rates and the compiled rule. |
| `PricingExamples.TinyPriceIsSavedNotPublished` | src/features/api-catalog/server/pricing-profile-service.ts:498-536 | An input: one micro-dollar an image is saved, and published at no discount below 5000 bps. |
| `PricingExamples.DefaultRuleCompiles` | src/features/api-catalog/server/pricing-profile-service.ts:312-318 | The rule that a profile gets without one compiles to `default` for every category. |
| `PricingSpecs.PublishedNeverAboveStored` | src/features/api-catalog/server/pricing-profile-service.ts:512-526 | No published rate is above its stored rate. |
| `PricingSpecs.LegacyMapsAgree` | src/features/api-catalog/server/publish-readiness.ts:134-153 | For every accepted specification the legacy map has one entry per rate, with the price of that rate. |
| `PaymentStores.PaymentStore.UpdateOrderByOrderNo` | src/shared/models/order.ts:166-188 | The one order of that number is written whatever its status, also when it is PAID, and every other order stays as it is. |
| `PaymentStores.PaymentStore.AppendLedgerEntryInTx` | src/features/wallet/server/ledger.ts:36-90 | On success the entries of that user sum to the amount more, on a throw to the same; balances stay the sums of their entries, and each entry records the balance it led to. |
| `PaymentStores.PaymentStore.InsertSubscriptionRow` | src/shared/models/order.ts:270-299 | Subscriptions stay unique by subscription id and provider. |
| `PaymentStores.PaymentStore.InsertCreditRow` | src/shared/models/order.ts:301-320 | Grants stay unique by order number. |
| `PaymentStores.PaymentStore.UpdateOrderTx` | src/shared/models/order.ts:206-357 | Status guard, subscription, credit, wallet account and recharge commit together; a throw leaves all tables as they were. |
| `PaymentStores.PaymentStore.UpdateSubscriptionTx` | src/shared/models/order.ts:359-460 | No two orders come to carry one transaction id of one provider, and no two grants one order number. |
| `PaymentStores.PaymentStore.HandleCheckoutSuccess` | src/shared/services/payment.ts:125-253 | On any snapshot: nothing once it is neither pending nor created, a throw for a missing subscription or a session that does not match, else the paying transaction with recorded transaction id, the failing update without a status guard, or nothing. |
| `PaymentStores.PaymentStore.HandlePaymentSuccess` | src/shared/services/payment.ts:258-357 | On any unpaid snapshot the paying transaction, without comparing the session and without recording its transaction id; a throw unless the session succeeded. |
| `PaymentStores.PaymentStore.HandleSubscriptionRenewal` | src/shared/services/payment.ts:359-479 | A succeeded session of the same subscription inserts the renewal order and its grant as above; any other session throws and changes nothing. |
| `PaymentMeaning.AsksToPayExactly` | src/shared/services/payment-guards.ts:19-49 | On raw columns: a checkout delivery asks to pay if and only if its session succeeded, the order was read as pending or created, and the session reports no info, or equal currencies up to ASCII case (or an empty one) and no amount or one that with the discount covers the order; for a first subscription the subscription id and info. |
| `PaymentMeaning.CheckoutExactly` | src/shared/services/payment.ts:125-253 | Every outcome of a checkout delivery, by the columns of order, subscription with its period, account and ledger entry that it leaves. |
| `PaymentMeaning.CheckoutPaysExactly` | src/shared/services/payment-guards.ts:19-49 | A succeeded session moves a pending or created order to PAID if and only if it may pay it in that sense. |
| `PaymentMeaning.PaymentExactly` | src/shared/services/payment.ts:258-357 | Every outcome of a payment delivery, by the columns it leaves. |
| `PaymentMeaning.TransactionExactly` | src/shared/models/order.ts:206-357 | What the paying transaction leaves: paid with subscription and recharge, nothing, or a throw, and when. |
| `PaymentMeaning.RenewalExactly` | src/shared/services/payment.ts:359-479 | A renewal throws if and only if number, amount, currency, subscription id, both period ends or success is missing; else which order, grant and period it leaves. |
| `PaymentMeaning.MarkCheckoutExactly` | src/app/api/payment/checkout/checkout-handler.ts:273-289 | The checkout request writes status and provider on its order alone, whatever its status. |
| `PaymentMeaning.WalletEntryExactly` | src/features/wallet/server/ledger.ts:36-90 | A wallet entry opens the account, moves the balance and records what it led to, or throws exactly on an unsafe amount or a wrong sign. |
| `OrderProofs.PayingTransactionSound` | src/shared/models/order.ts:240-351 | The transaction that pays an order with credits leaves it exactly one recharge and touches no other order. |
| `OrderProofs.StepSound` | src/shared/services/payment.ts:125-479 | Every step keeps unique orders, sound recharges, balances that are the sums of their entries, unique grants and subscriptions. |
| `OrderProofs.RunSound` | src/shared/services/payment.ts:125-479 | The same over every interleaving of steps, deliveries, replays and stale reads. |
| `OrderProofs.EveryRunRechargesOnce` | src/shared/models/order.ts:322-351 | In every reachable database an order has at most one recharge, of its amount times 10000, for its own user. |
| `OrderProofs.StaleReadIsSnapshot` | src/shared/services/payment.ts:258-276 | A read from any earlier moment of a run is a snapshot that deliveries may carry. |
| `OrderProofs.RechargeIffPaid` | src/shared/models/order.ts:240-266 | A recharge appears only in a delivery step that moves its order from pending or created to paid; a step that pays an order with credits leaves it exactly one. |
| `OrderProofs.DeliveryOutcome` | src/shared/services/payment.ts:125-357 | Exactly what a delivery on any snapshot does to every order and its recharges: pay it, fail it, or leave it. |
| `OrderProofs.RechargeExactly` | src/shared/models/order.ts:240-351 | A delivery adds a recharge if and only if it asks to pay the order on a succeeded session, the order is pending or created and sells credits, has no recharge yet, and its amount is one the ledger takes. |
| `OrderProofs.CheckoutRechargeCovered` | src/shared/services/payment-guards.ts:19-49 | A recharge through checkout of an order that is no first subscription payment is covered by paid plus discount, in the order currency, if and only if the session reports an amount. |
| `OrderProofs.UncoveredRechargeExactly` | src/shared/services/payment-guards.ts:26-48 | A delivery creates a recharge that its session does not cover if and only if it creates one and the session reports no amount, or falls short on a first subscription payment or in the payment handler. |
| `OrderProofs.LeavesPaidExactly` | src/shared/services/payment.ts:236-244 | A paid order stops being paid if and only if its checkout request writes CREATED or COMPLETED late, or a failed or canceled session arrives with a snapshot from before the payment. |
| `PaymentExamples.PaidOrderFails` | src/shared/services/payment.ts:236-244 | An input: created, paid, then failed by a session with the first snapshot. |
| `PaymentExamples.UnpaidPaymentRecharges` | src/shared/services/payment.ts:282-352 | An input: a direct call of the payment handler with an amount of 0 recharges an order of 100 cents in full. |
| `PaymentExamples.UnreportedCheckoutRecharges` | src/shared/services/payment-guards.ts:29-30 | An input: so does a checkout session without payment information. |
| `RenewalProofs.RedeliveryAddsNothingExactly` | src/shared/models/order.ts:390-445 | A second delivery adds nothing if and only if the transaction id is known and its order is new or already has its grant. |
| `RenewalProofs.SettledExactly` | src/shared/models/order.ts:359-460 | In every step a transaction keeps its one order and its grant if and only if the step is none of: a new order that carries it, a checkout page that relabels the provider of an order with that id, a checkout that pays another order under it or its own order under another id. |
| `RenewalProofs.SettledRun` | src/shared/models/order.ts:359-460 | Over every run it stays so throughout if and only if no step is one of these. |
| `RenewalProofs.RenewalIdempotent` | src/shared/services/payment.ts:387-475 | After a first delivery and any such run there is one order per transaction id and provider and one grant for it; one more delivery writes only its own billing period, and nothing at all if and only if the subscription still has it. |
| `PaymentExamples.UnidentifiedRenewalGrantsTwice` | src/shared/services/payment.ts:399-465 | An input: a renewal without a transaction id, delivered twice, leaves two orders and two grants. |
| `PaymentExamples.CheckedOutRenewalGrantsTwice` | src/shared/services/payment.ts:399-465 | An input: so does, with two grants, one whose id a checkout recorded first. |
| `PaymentExamples.LateRenewalSetsPeriodBack` | src/shared/services/payment.ts:389-393 | An input: a renewal delivered again after a later one sets the billing period back. |
| `MetadataFilter.LoadNames` | services/newapi-metadata-filter/internal/config/config.go:42-68 | A name list is accepted if and only if no value is blank, padded or repeated. |
| `MetadataFilter.Load` | services/newapi-metadata-filter/internal/config/config.go:34-73 | A policy is accepted if and only if its lists are tidy and every excluding vendor is official; map order does not matter. |
| `MetadataFilter.IndexVendors` | services/newapi-metadata-filter/internal/filter/filter.go:67-76 | The vendor index exists if and only if vendors are named, once each, and then looks up exactly them. |
| `MetadataFilter.FilterModels` | services/newapi-metadata-filter/internal/filter/filter.go:78-97 | The filter loop keeps the allowed models with their vendors grouped by name, or fails if and only if a kept model is incomplete. |
| `MetadataFilter.CollectConflicts` | services/newapi-metadata-filter/internal/filter/filter.go:99-104 | Whatever order the map is visited in, exactly the names with several vendors are collected, once each. |
| `MetadataFilter.SortByName` | services/newapi-metadata-filter/internal/filter/filter.go:106 | Sorting keeps the conflicts and orders them by name. |
| `MetadataFilter.CollectVendors` | services/newapi-metadata-filter/internal/filter/filter.go:114-122 | The vendors in use, in the order of their first model. |
| `MetadataFilter.Build` | services/newapi-metadata-filter/internal/filter/filter.go:66-125 | For any map order: invalid if and only if a vendor or kept model is incomplete, else the sorted conflicts if a name repeats, else the kept models with their used vendors. |
| `MetadataFilter.BuildTokenRatioConfig` | services/newapi-metadata-filter/internal/filter/filter.go:22-46 | Each ratio map holds, for each name, the ratio of the last model that has one. |
| `MetadataFilterProofs.FilteredKeepsOrder` | services/newapi-metadata-filter/internal/filter/filter.go:78-97 | The result is the models at the kept positions, in increasing order. |
| `MetadataFilterProofs.OutcomeDetermined` | services/newapi-metadata-filter/internal/filter/filter.go:99-112 | The outcome, conflicts included, is the same for every map iteration order. |
| `MetadataFilterProofs.BuiltExactly` | services/newapi-metadata-filter/internal/filter/filter.go:66-125 | A run succeeds if and only if vendors are named once and kept models are complete with distinct names. |
| `MetadataFilterProofs.BuiltIsConsistent` | services/newapi-metadata-filter/internal/filter/filter.go:114-124 | A result has distinct model names and exactly the used vendors, once each, in first-use order. |
| `MetadataFilterProofs.BuildIdempotent` | services/newapi-metadata-filter/internal/filter/filter.go:66-125 | Filtering a result again, with its own vendors, returns it. |
| `MetadataFilterProofs.RatiosAreOwn` | services/newapi-metadata-filter/internal/filter/filter.go:18-46 | On a result each ratio map holds the own ratio of each model and no other name: nothing is overwritten. |
| `MetadataFilterMeaning.FileExactly` | services/newapi-metadata-filter/internal/config/config.go:34-73 | A parsed file is accepted if and only if it names vendors, none of its values is blank, padded or repeated, and it excludes under these vendors alone. |
| `MetadataFilterMeaning.FilterByFile` | services/newapi-metadata-filter/internal/httpapi/server.go:81-90 | From the parsed file to the answer: on success a model is in the result if and only if it is in the input, its vendor is in the file's list, and its name is not in the file's exclusions under that vendor. |
| `MetadataFilterMeaning.AnswerExactly` | services/newapi-metadata-filter/internal/filter/filter.go:66-125 | Every answer on the input lists: which models stay at which positions, when it is invalid, which conflicts are listed in which order, and which vendors at which first uses. |
| `MetadataFilterMeaning.RatioConfigExactly` | services/newapi-metadata-filter/internal/filter/filter.go:22-46 | Each of the three maps holds, for each name, the last ratio of its own kind, and no price. |
| `PriceSync.Scale` | src/features/api-catalog/lib/pricing.ts:374-381 | Scaling a cost agrees with discounting on prices that are not negative. |
| `PriceSync.BuildCostReference` | src/features/api-catalog/server/pricing-sync.ts:179-220 | The loop over the candidates yields every derived price scaled, or nothing when there is none. |
| `PriceSync.PriceTables.GetLatestCostReferences` | src/features/api-catalog/server/pricing-sync.ts:239-262 | The baseline is the newest usable one of the last twenty runs that did not fail. |
| `PriceSync.PriceTables.SyncModels` | src/features/api-catalog/server/pricing-sync.ts:289-326 | Every model row is patched from its remote or marked missing; matched and fixed-price models are counted. |
| `PriceSync.PriceTables.CompareListing` | src/features/api-catalog/server/pricing-sync.ts:337-374 | What one listing costs, how it conflicts with the baseline and whether it lacks a group. |
| `PriceSync.PriceTables.SyncListings` | src/features/api-catalog/server/pricing-sync.ts:337-392 | One conflict per drifting listing in listing order, a new baseline with the cost of exactly the listings that have one, and a model drifts if and only if it lost its reference or a listing of it drifts. |
| `PriceSync.PriceTables.RecordDrift` | src/features/api-catalog/server/pricing-sync.ts:394-402 | Every catalog model with a price row gets its drift status; other rows stay. |
| `PriceSync.PriceTables.SyncCatalogPricingFromSnapshot` | src/features/api-catalog/server/pricing-sync.ts:264-433 | The three loops together: rows, drift, baseline and report of a run are as specified for the state before it. |
| `PriceSync.PriceTables.RecordCatalogPriceSyncFailure` | src/features/api-catalog/server/pricing-sync.ts:102-122 | A failed run changes no price, and no later run takes another baseline because of it, whatever the limit. |
| `PriceSyncProofs.CountsAgree` | src/features/api-catalog/server/pricing-sync.ts:347-411 | The drift count is the number of conflicts, missing groups are among them, and a run succeeds if and only if it has no conflicts. |
| `PriceSyncProofs.StatusIgnoresListingOrder` | src/features/api-catalog/server/pricing-sync.ts:229-237 | Reordering the listings changes no row and no drift status. |
| `PriceSyncProofs.BaselineSurvivesFailures` | src/features/api-catalog/server/pricing-sync.ts:239-262 | Failed runs in between do not change the baseline. |
| `PriceSyncProofs.RerunHasNoPriceChange` | src/features/api-catalog/server/pricing-sync.ts:366-373 | A second run on the same snapshot reports no changed price, whatever the first one met. |
| `PriceSyncProofs.SyncReachesFixpoint` | src/features/api-catalog/server/pricing-sync.ts:264-433 | From the second run on the same snapshot every run gives the same report and the same rows. |
| `PriceSyncMeaning.CostExactly` | src/features/api-catalog/server/pricing-sync.ts:179-220 | A listing has a cost if and only if its trimmed group is enabled for its remote model and has a ratio and a price, and the cost is each derived price times the ratio over 10000, rounded half up. |
| `PriceSyncMeaning.BaselineExactly` | src/features/api-catalog/server/pricing-sync.ts:239-262 | The baseline is that of the newest run with references among the last twenty that did not fail, and empty without one. |
| `PriceSyncMeaning.ConflictExactly` | src/features/api-catalog/server/pricing-sync.ts:347-374 | Which of the five conflicts a listing has, by its group, its remote model, its cost and the baseline. |
| `PriceSyncMeaning.ReportExactly` | src/features/api-catalog/server/pricing-sync.ts:337-392 | The conflicts of a run are those of the listings at increasing positions, with model id and trimmed group, and every conflicting listing is among them. |
| `PriceSyncMeaning.PriceChangeExactly` | src/features/api-catalog/server/pricing-sync.ts:366-373 | For every run: a changed price is reported for a listing if and only if it has a cost now, the baseline has an entry for it, and the two differ. |
| `PriceSyncMeaning.RowsExactly` | src/features/api-catalog/server/pricing-sync.ts:289-326 | The reference, sync status and drift status that a run leaves in the row of every model, and that no other row changes. |
| `PriceSyncMeaning.ReportCountsExactly` | src/features/api-catalog/server/pricing-sync.ts:337-433 | Every count of a report, and its status, by the listings, models and entries counted. |
| `PriceSyncMeaning.RecordedCostsExactly` | src/features/api-catalog/server/pricing-sync.ts:365-425 | The recorded run keeps the cost of every listing that has one, and nothing else. |
| `PriceSyncMeaning.MovedPriceIsReported` | src/features/api-catalog/server/pricing-sync.ts:366-402 | Over two runs: a listing with a cost in both is reported if and only if the two differ, and then the row of its model says so. |
| `Permissions.WalkIsCovered` | src/shared/services/rbac.ts:291-297 | Every wildcard of the dotted walk is a string prefix of the code up to its star. |
| `Permissions.CoveredIsWalked` | src/shared/services/rbac.ts:291-297 | Every wildcard that is such a prefix is met by the dotted walk. |
| `Permissions.RoleTables.HasPermission` | src/shared/services/rbac.ts:279-306 | The walk grants a code if and only if the codes hold it, `*`, or a wildcard that covers it. |
| `Permissions.RoleTables.SeedRole` | scripts/init-rbac.ts:483-514 | After seeding, the rows of a role are exactly the expansions of its patterns; rows of other roles stay. |
| `Permissions.RoleTables.DeleteRole` | scripts/init-rbac.ts:483-486 | Clearing a role removes its rows only. |
| `Permissions.RoleTables.InitializeRBAC` | scripts/init-rbac.ts:455-519 | All default roles end up with their own expansions. |
| `Permissions.SeedingNeverWidens` | scripts/init-rbac.ts:488-514 | For any code, known or not, seeding grants no more than the raw patterns. |
| `Permissions.SeedingAgreesExactly` | scripts/init-rbac.ts:491-512 | For a known code, seeded and raw patterns agree unless only `*` grants it and `*` is not itself a permission. |
| `Permissions.UnknownStarIsLost` | scripts/init-rbac.ts:504-512 | An input on which they disagree: a known code, the pattern `*`, and no permission `*`. |
| `Permissions.SeededUsersAgree` | scripts/init-rbac.ts:331-338 | A user of the default roles is granted exactly what their raw patterns say, for every known code, since `*` is in the default list. |
| `PermissionMeaning.GrantsExactly` | src/shared/services/rbac.ts:279-306 | A code is granted if and only if it is held, `*` is held, or some held `prefix.*` has the code start with `prefix.`. |
| `PermissionMeaning.SeedsExactly` | scripts/init-rbac.ts:488-514 | A pattern seeds a code if and only if the code is known and is the pattern itself or starts with `prefix.` where the pattern is `prefix.*`. |

## Left out

- RatesRoundTrip: holds for prices below 10^15 micro-dollars, because above it the division of doubles need not print the price exactly. Sheets are JSON objects given by their entries in any order; turning JSON text into entries is not modelled.
- RateRoundTrip: the same bound.
- DollarsRoundTrip: the same bound.
- ScaledIntegerIsHalfUp: a number argument enters as the text it is printed as; how a double is printed is not modelled.
- GrantCreditsForUser: a validity is a number of 24-hour days; local time and daylight saving are not modelled, nor are subscription period ends.
- CompilePrinted: which error message is thrown is not modelled; a `when` line whose pattern would match only after backtracking past the first arrow fails in both.
- HandleCheckoutSuccess: the invoice, payment-result and customer columns that a delivery also writes are not modelled.
- HandlePaymentSuccess: the same columns.
- HandleSubscriptionRenewal: the renewal order carries the columns that an order has here; the expiry of its grant is not modelled.
- UpdateSubscriptionTx: as the renewal handler calls it, always with an order.
- CheckoutRechargeCovered: currencies are compared after lower-casing ASCII letters only.
- AsksToPayExactly: the same comparison of currencies.
- CurrencyExactly: the same comparison of currencies.
- AppendLedgerEntryInTx: idempotency keys and retries of the wallet are not part of this model.
- Build: models and vendors carry the columns the filter reads, the icon and the ratios; the first conflict that the error repeats in its own fields is not modelled, nor is `sort.Slice`, in whose place there is an insertion sort with the same result.
- Load: reading the file and parsing YAML.
- SyncCatalogPricingFromSnapshot: timestamps, the source fingerprint and the columns that only copy remote parameters are not modelled; writing the run record counts as part of the same step; a group named like a member of `Object.prototype` is not modelled.
- GetLatestCostReferences: runs are listed by start time, taken as distinct.
- SeededUsersAgree: role expiry and disabled roles only decide which roles a user has, which is a parameter.
- Deriving prices from ratios, `resolveEffectiveCatalogPrice`, `quotaSpendFromEffectivePrice` and discount folds work on doubles or are single branches.
- `assessPublishReadiness` and `validateRequiredTokenMeters` collect independent one-branch checks over many tables; only `legacyMaps` is modelled.
- The set of token meters is a parameter, disjoint from the quantity meters.
- Rule hashes (SHA-256), random ids and `md5`.
- `computePricingCharge`, request handling of the gateway, the New API bridge, manual adjustments and reversals of the wallet beyond an entry of the right sign.
- D1, which has no transactions; SQL and connection code; payment, AI, email and storage providers.
- Catalog CRUD, rate limiting, caching, i18n and everything that renders pages.
