/** Price sync: one run matches the catalog with a remote price snapshot, compares the cost of every listing
    with the previous run's baseline and records the drift of every model. Prices enter already derived from
    the remote ratios. */
module PriceSync {
  import opened Wrappers
  import opened CodeUnits
  import PricingSpecs

  type Id = nat

  // ----- the snapshot -----

  datatype RateKey = Input | CachedInput | CacheWrite5m | CacheWrite1h | Output | ImageInput | ImageOutput

  const RATE_KEYS := [Input, CachedInput, CacheWrite5m, CacheWrite1h, Output, ImageInput, ImageOutput]

  /** `deriveBasePriceFromNewApiPricing`: a fixed price, or the prices of the token kinds that have one. */
  datatype Derived = FixedPrice(microUsd: Option<int>) | RatioPrice(prices: map<RateKey, int>)

  datatype Remote = Remote(modelId: Text, derived: Derived, enabledGroups: seq<Text>)
  datatype Snapshot = Snapshot(models: seq<Remote>, groupRatios: map<Text, nat>)

  /** `remoteByModelId.get`: the last entry of a model id. */
  function FindRemote(remotes: seq<Remote>, modelId: Text): (r: Option<Remote>)
    ensures r.Some? ==> r.value in remotes && r.value.modelId == modelId
  {
    if remotes == [] then None
    else if remotes[|remotes| - 1].modelId == modelId then Some(remotes[|remotes| - 1])
    else FindRemote(remotes[..|remotes| - 1], modelId)
  }

  // ----- the catalog -----

  datatype Model = Model(id: Id, modelId: Text)
  datatype Listing = Listing(id: Id, modelPk: Id, newapiGroup: Text)
  datatype Status = CostOk | CostChanged
  datatype DriftStatus = Unset | Drift(status: Status)
  datatype SyncStatus = NeverSynced | ReferenceCurrent | ReferenceMissing
  datatype PriceRow = PriceRow(reference: Option<Derived>, syncStatus: SyncStatus, driftStatus: DriftStatus)

  datatype CostReference =
    | PerCall(newapiGroup: Text, defaultTier: int)
    | PerToken(newapiGroup: Text, rates: map<RateKey, int>)

  datatype RunStatus = Success | Partial | Failed
  /** A recorded run; `None` stands for a report without usable cost references. */
  datatype Run = Run(status: RunStatus, references: Option<map<Id, CostReference>>)

  datatype Catalog = Catalog(models: seq<Model>, listings: seq<Listing>, prices: map<Id, PriceRow>, runs: seq<Run>)

  /** `models.find` */
  function FindModel(models: seq<Model>, id: Id): (r: Option<Model>)
    ensures r.Some? ==> r.value in models && r.value.id == id
    ensures r == None ==> forall m :: m in models ==> m.id != id
  {
    if models == [] then None
    else
      var before := FindModel(models[..|models| - 1], id);
      if before.Some? then before
      else if models[|models| - 1].id == id then Some(models[|models| - 1])
      else None
  }

  function Get<K, V>(m: map<K, V>, key: K): Option<V> {
    if key in m then Some(m[key]) else None
  }

  /** Model and listing ids are primary keys. */
  ghost predicate Keyed(models: seq<Model>, listings: seq<Listing>) {
    && (forall i, j :: 0 <= i < j < |models| ==> models[i].id != models[j].id)
    && (forall i, j :: 0 <= i < j < |listings| ==> listings[i].id != listings[j].id)
  }

  const BASELINE_RUNS := 20

  /** The cost references of the newest of the last runs that has any; failed runs do not count. */
  function LatestReferences(runs: seq<Run>, limit: nat): map<Id, CostReference> {
    if runs == [] || limit == 0 then map[]
    else
      var n := |runs| - 1;
      if runs[n].status == Failed then LatestReferences(runs[..n], limit)
      else if runs[n].references.Some? then runs[n].references.value
      else LatestReferences(runs[..n], limit - 1)
  }

  /** `runs` after some failed runs. */
  ghost predicate OnlyFailuresAfter(runs: seq<Run>, earlier: seq<Run>) {
    && |earlier| <= |runs| && runs[..|earlier|] == earlier
    && forall i :: |earlier| <= i < |runs| ==> runs[i].status == Failed
  }

  // ----- the cost of a listing -----

  /** `scaleMicroUsdByBps`, whose division truncates toward zero. */
  function Scale(value: int, bps: nat): (r: int)
    ensures value >= 0 ==> r == PricingSpecs.ScaleByBps(value, bps)
    ensures value < 0 ==> r <= 0
  {
    var numerator := value * bps + PricingSpecs.HALF_BPS;
    if value >= 0 then PricingSpecs.ScaleByBps(value, bps)
    else if numerator >= 0 then 0
    else
      assert numerator < 0;
      -(-numerator / PricingSpecs.FULL_PRICE_BPS)
  }

  /** Every derived price of the model, each scaled by the group ratio; nothing without a price. */
  function CostOf(remote: Remote, newapiGroup: Text, bps: nat): Option<CostReference> {
    match remote.derived
    case FixedPrice(None) => None
    case FixedPrice(Some(price)) => Some(PerCall(newapiGroup, Scale(price, bps)))
    case RatioPrice(prices) =>
      if prices == map[] then None
      else Some(PerToken(newapiGroup, map key | key in prices :: Scale(prices[key], bps)))
  }

  lemma RateKeysAll(key: RateKey)
    ensures exists i :: 0 <= i < |RATE_KEYS| && RATE_KEYS[i] == key
  {
    var i := match key
      case Input => 0
      case CachedInput => 1
      case CacheWrite5m => 2
      case CacheWrite1h => 3
      case Output => 4
      case ImageInput => 5
      case ImageOutput => 6;
    assert RATE_KEYS[i] == key;
  }

  method BuildCostReference(remote: Remote, newapiGroup: Text, groupRatioBps: nat) returns (r: Option<CostReference>)
    ensures r == CostOf(remote, newapiGroup, groupRatioBps)
  {
    hide Scale;
    match remote.derived {
      case FixedPrice(price) =>
        if price == None {
          return None;
        }
        return Some(PerCall(newapiGroup, Scale(price.value, groupRatioBps)));
      case RatioPrice(prices) =>
        var rates: map<RateKey, int> := map[];
        for i := 0 to |RATE_KEYS|
          invariant forall key ::
            Get(rates, key) == if key in RATE_KEYS[..i]
              && key in prices then Some(Scale(prices[key], groupRatioBps)) else None
        {
          var key := RATE_KEYS[i];
          assert RATE_KEYS[..i + 1] == RATE_KEYS[..i] + [key];
          if key in prices {
            rates := rates[key := Scale(prices[key], groupRatioBps)];
          }
        }
        AllRates(prices, rates, groupRatioBps);
        return if |rates| > 0 then Some(PerToken(newapiGroup, rates)) else None;
    }
  }

  lemma AllRates(prices: map<RateKey, int>, rates: map<RateKey, int>, bps: nat)
    requires forall key ::
      Get(rates, key) == if key in RATE_KEYS[..|RATE_KEYS|]
        && key in prices then Some(Scale(prices[key], bps)) else None
    ensures rates == map key | key in prices :: Scale(prices[key], bps)
    ensures |rates| > 0 <==> prices != map[]
  {
    hide Scale;
    forall key ensures key in RATE_KEYS[..|RATE_KEYS|] {
      RateKeysAll(key);
    }
    assert forall key :: Get(rates, key) == if key in prices then Some(Scale(prices[key], bps)) else None;
    assert rates.Keys == prices.Keys;
    if prices != map[] {
      var key :| key in prices;
      assert key in rates;
    }
  }

  // ----- the drift of a listing -----

  datatype ConflictKind = MappingMissing | MissingGroupRatio | GroupUnavailable | ModelMissing | PriceChanged
  datatype Conflict = Conflict(kind: ConflictKind, modelId: Option<Text>, listingId: Id, newapiGroup: Text)

  function RemoteOf(listing: Listing, models: seq<Model>, snapshot: Snapshot): Option<Remote> {
    match FindModel(models, listing.modelPk)
    case Some(model) => FindRemote(snapshot.models, model.modelId)
    case None => None
  }

  predicate IsEnabled(remote: Option<Remote>, group: Text) {
    remote.Some? && group != [] && group in remote.value.enabledGroups
  }

  /** What a listing costs: only when its group is named, enabled for the remote model and has a ratio. */
  function ListingCost(listing: Listing, models: seq<Model>, snapshot: Snapshot): Option<CostReference> {
    var remote, group := RemoteOf(listing, models, snapshot), Trim(listing.newapiGroup);
    if IsEnabled(remote, group)
      && group in snapshot.groupRatios then CostOf(remote.value, group, snapshot.groupRatios[group])
    else None
  }

  function ListingConflict(listing: Listing, models: seq<Model>, snapshot: Snapshot, previous: map<Id,
    CostReference>): Option<ConflictKind> {
    var remote, group := RemoteOf(listing, models, snapshot), Trim(listing.newapiGroup);
    match ListingCost(listing, models, snapshot)
    case Some(cost) => if listing.id in previous && previous[listing.id] != cost then Some(PriceChanged) else None
    case None =>
      if group == [] then Some(MappingMissing)
      else if remote == None then Some(ModelMissing)
      else if IsEnabled(remote, group) then Some(MissingGroupRatio)
      else Some(GroupUnavailable)
  }

  predicate LacksGroup(listing: Listing, models: seq<Model>, snapshot: Snapshot) {
    var remote, group := RemoteOf(listing, models, snapshot), Trim(listing.newapiGroup);
    group == [] || (remote.Some? && (!IsEnabled(remote, group) || group !in snapshot.groupRatios))
  }

  /** The conflicts of a run, in listing order. */
  function Conflicts(listings: seq<Listing>, models: seq<Model>, snapshot: Snapshot, previous: map<Id,
    CostReference>): seq<Conflict> {
    if listings == [] then []
    else
      var n := |listings| - 1;
      var before := Conflicts(listings[..n], models, snapshot, previous);
      match ListingConflict(listings[n], models, snapshot, previous)
      case None => before
      case Some(kind) =>
        var model := FindModel(models, listings[n].modelPk);
        before + [Conflict(kind, if model.Some? then Some(model.value.modelId)
          else None, listings[n].id, Trim(listings[n].newapiGroup))]
  }

  function Drifting(listings: seq<Listing>, models: seq<Model>, snapshot: Snapshot, previous: map<Id,
    CostReference>): set<int> {
    set i | 0 <= i < |listings| && ListingConflict(listings[i], models, snapshot, previous).Some?
  }

  function Lacking(listings: seq<Listing>, models: seq<Model>, snapshot: Snapshot): set<int> {
    set i | 0 <= i < |listings| && LacksGroup(listings[i], models, snapshot)
  }

  /** The baseline a run leaves behind: the cost of every listing that has one. */
  ghost predicate AreReferences(references: map<Id, CostReference>, listings: seq<Listing>, models: seq<Model>,
    snapshot: Snapshot) {
    && (forall i :: 0 <= i < |listings| ==>
      Get(references, listings[i].id) == ListingCost(listings[i], models, snapshot))
    && (forall id :: id in references ==> exists i :: 0 <= i < |listings| && listings[i].id == id)
  }

  // ----- the run -----

  datatype Report = Report(
    status: RunStatus, remoteModelCount: nat, matchedModelCount: nat, driftCount: nat, fixedPriceCount: nat,
    missingGroupCount: nat, conflicts: seq<Conflict>)

  function Matched(models: seq<Model>, snapshot: Snapshot): set<int> {
    set i | 0 <= i < |models| && FindRemote(snapshot.models, models[i].modelId).Some?
  }

  function FixedPriced(models: seq<Model>, snapshot: Snapshot): set<int> {
    set i | i in Matched(models, snapshot) && FindRemote(snapshot.models, models[i].modelId).value.derived.FixedPrice?
  }

  /** A priced model that the snapshot no longer has. */
  predicate HasLostReference(pk: Id, models: seq<Model>, prices: map<Id, PriceRow>, snapshot: Snapshot) {
    pk in prices && exists i ::
      0 <= i < |models| && models[i].id == pk && FindRemote(snapshot.models, models[i].modelId) == None
  }

  predicate HasDriftingListing(pk: Id, listings: seq<Listing>, models: seq<Model>, snapshot: Snapshot, previous: map<Id,
    CostReference>) {
    exists i :: 0 <= i < |listings| && listings[i].modelPk == pk
      && ListingConflict(listings[i], models, snapshot, previous).Some?
  }

  function Patched(row: Option<PriceRow>, remote: Option<Remote>): Option<PriceRow> {
    match remote
    case None =>
      if row.Some? then Some(row.value.(syncStatus := ReferenceMissing, driftStatus := Drift(CostChanged))) else None
    case Some(found) =>
      Some(PriceRow(Some(found.derived), ReferenceCurrent, if row.Some? then row.value.driftStatus else Unset))
  }

  /** The price row of a model after the models were matched. */
  function PatchedRow(pk: Id, models: seq<Model>, prices: map<Id, PriceRow>, snapshot: Snapshot): Option<PriceRow> {
    match FindModel(models, pk)
    case None => Get(prices, pk)
    case Some(model) => Patched(Get(prices, pk), FindRemote(snapshot.models, model.modelId))
  }

  predicate IsChanged(pk: Id, before: Catalog, snapshot: Snapshot) {
    || HasLostReference(pk, before.models, before.prices, snapshot)
    || HasDriftingListing(pk, before.listings, before.models, snapshot, LatestReferences(before.runs, BASELINE_RUNS))
  }

  /** The price row of a model after the run. */
  function SyncedRow(pk: Id, before: Catalog, snapshot: Snapshot): Option<PriceRow> {
    match PatchedRow(pk, before.models, before.prices, snapshot)
    case None => None
    case Some(row) =>
      if FindModel(before.models, pk) == None then Some(row)
      else Some(row.(driftStatus := Drift(if IsChanged(pk, before, snapshot) then CostChanged else CostOk)))
  }

  /** One run of `syncCatalogPricingFromSnapshot`. */
  ghost predicate IsSync(before: Catalog, snapshot: Snapshot, after: Catalog, report: Report) {
    var previous := LatestReferences(before.runs, BASELINE_RUNS);
    && after.models == before.models && after.listings == before.listings
    && (forall pk :: Get(after.prices, pk) == SyncedRow(pk, before, snapshot))
    && |after.runs| == |before.runs| + 1 && after.runs[..|before.runs|] == before.runs
    && after.runs[|before.runs|].status == report.status
    && after.runs[|before.runs|].references.Some?
    && AreReferences(after.runs[|before.runs|].references.value, before.listings, before.models, snapshot)
    && report.conflicts == Conflicts(before.listings, before.models, snapshot, previous)
    && report.driftCount == |Drifting(before.listings, before.models, snapshot, previous)|
    && report.missingGroupCount == |Lacking(before.listings, before.models, snapshot)|
    && report.remoteModelCount == |snapshot.models|
    && report.matchedModelCount == |Matched(before.models, snapshot)|
    && report.fixedPriceCount == |FixedPriced(before.models, snapshot)|
    && report.status == if report.driftCount > 0 || report.missingGroupCount > 0 then Partial else Success
  }

  // ----- one step of each loop -----

  lemma FindModelStep(models: seq<Model>, i: nat, pk: Id)
    requires i < |models| && forall k :: 0 <= k < i ==> models[k].id != models[i].id
    ensures FindModel(models[..i + 1], pk) == if pk == models[i].id then Some(models[i]) else FindModel(models[..i], pk)
  {
    assert models[..i + 1][..i] == models[..i];
    if FindModel(models[..i], pk).Some? {
      var k :| 0 <= k < i && models[..i][k] == FindModel(models[..i], pk).value;
    }
  }

  lemma LostReferenceStep(models: seq<Model>, i: nat, pk: Id, prices: map<Id, PriceRow>, snapshot: Snapshot)
    requires i < |models|
    ensures HasLostReference(pk, models[..i + 1], prices, snapshot) <==>
      HasLostReference(pk, models[..i], prices, snapshot)
      || (pk in prices && pk == models[i].id && FindRemote(snapshot.models, models[i].modelId) == None)
  {
    hide FindRemote;
    assert models[..i + 1] == models[..i] + [models[i]];
    assert forall k :: 0 <= k < i ==> models[..i + 1][k] == models[..i][k];
    assert models[..i + 1][i] == models[i];
  }

  lemma MatchedStep(models: seq<Model>, i: nat, snapshot: Snapshot)
    requires i < |models|
    ensures var found := FindRemote(snapshot.models, models[i].modelId);
      && |Matched(models[..i + 1], snapshot)| == |Matched(models[..i], snapshot)| + (if found.Some? then 1 else 0)
      && |FixedPriced(models[..i + 1], snapshot)| ==
        |FixedPriced(models[..i], snapshot)| + (if found.Some? && found.value.derived.FixedPrice? then 1 else 0)
  {
    hide FindRemote;
    var found := FindRemote(snapshot.models, models[i].modelId);
    var was, now := Matched(models[..i], snapshot), Matched(models[..i + 1], snapshot);
    PrefixFound(models, i, snapshot);
    assert now == if found.Some? then was + {i} else was;
    var wasFixed, nowFixed := FixedPriced(models[..i], snapshot), FixedPriced(models[..i + 1], snapshot);
    assert nowFixed == if found.Some? && found.value.derived.FixedPrice? then wasFixed + {i} else wasFixed;
  }

  lemma PrefixFound(models: seq<Model>, i: nat, snapshot: Snapshot)
    requires i < |models|
    ensures forall k :: 0 <= k < i ==> models[..i + 1][k] == models[..i][k]
    ensures models[..i + 1][i] == models[i]
  {
  }

  lemma DriftStep(listings: seq<Listing>, i: nat, pk: Id, models: seq<Model>, snapshot: Snapshot, previous: map<Id,
    CostReference>)
    requires i < |listings|
    ensures HasDriftingListing(pk, listings[..i + 1], models, snapshot, previous) <==>
      HasDriftingListing(pk, listings[..i], models, snapshot, previous)
      || (pk == listings[i].modelPk && ListingConflict(listings[i], models, snapshot, previous).Some?)
  {
    hide ListingConflict;
    assert forall k :: 0 <= k < i ==> listings[..i + 1][k] == listings[..i][k];
    assert listings[..i + 1][i] == listings[i];
  }

  lemma DriftCountStep(listings: seq<Listing>, i: nat, models: seq<Model>, snapshot: Snapshot, previous: map<Id,
    CostReference>)
    requires i < |listings|
    ensures |Drifting(listings[..i + 1], models, snapshot, previous)|
      == |Drifting(listings[..i], models, snapshot, previous)|
      + (if ListingConflict(listings[i], models, snapshot, previous).Some? then 1 else 0)
  {
    hide ListingConflict;
    var was, now :=
      Drifting(listings[..i], models, snapshot, previous), Drifting(listings[..i + 1], models, snapshot, previous);
    assert forall k :: 0 <= k < i ==> listings[..i + 1][k] == listings[..i][k];
    assert listings[..i + 1][i] == listings[i];
    assert now == if ListingConflict(listings[i], models, snapshot, previous).Some? then was + {i} else was;
  }

  lemma LackCountStep(listings: seq<Listing>, i: nat, models: seq<Model>, snapshot: Snapshot)
    requires i < |listings|
    ensures |Lacking(listings[..i + 1], models, snapshot)| == |Lacking(listings[..i], models, snapshot)|
      + (if LacksGroup(listings[i], models, snapshot) then 1 else 0)
  {
    hide LacksGroup;
    var was, now := Lacking(listings[..i], models, snapshot), Lacking(listings[..i + 1], models, snapshot);
    assert forall k :: 0 <= k < i ==> listings[..i + 1][k] == listings[..i][k];
    assert listings[..i + 1][i] == listings[i];
    assert now == if LacksGroup(listings[i], models, snapshot) then was + {i} else was;
  }

  lemma ReferencesStep(references: map<Id, CostReference>, listings: seq<Listing>, i: nat, models: seq<Model>,
    snapshot: Snapshot)
    requires i < |listings| && forall k :: 0 <= k < i ==> listings[k].id != listings[i].id
    requires AreReferences(references, listings[..i], models, snapshot)
    ensures AreReferences(
      match ListingCost(listings[i], models, snapshot) case None => references case Some(cost) =>
        references[listings[i].id := cost],
      listings[..i + 1], models, snapshot)
  {
    hide ListingCost;
    assert forall k :: 0 <= k < i ==> listings[..i + 1][k] == listings[..i][k] == listings[k];
    assert listings[..i + 1][i] == listings[i];
  }

  /** `aggregateCostStatus` */
  function Aggregate(current: Option<Status>, next: Status): Status {
    if current == Some(CostChanged) || next == CostChanged then CostChanged else CostOk
  }

  function WithDrift(row: Option<PriceRow>, status: Option<Status>): Option<PriceRow> {
    if row == None then None
    else Some(row.value.(driftStatus := Drift(if status.Some? then status.value else CostOk)))
  }

  function DriftedRow(pk: Id, models: seq<Model>, prices: map<Id, PriceRow>, statuses: map<Id,
    Status>): Option<PriceRow> {
    if FindModel(models, pk) == None then Get(prices, pk) else WithDrift(Get(prices, pk), Get(statuses, pk))
  }

  lemma NothingListed(listings: seq<Listing>, models: seq<Model>, snapshot: Snapshot, previous: map<Id, CostReference>)
    requires listings == []
    ensures Conflicts(listings, models, snapshot, previous) == [] && AreReferences(map[], listings, models, snapshot)
    ensures forall pk :: !HasDriftingListing(pk, listings, models, snapshot, previous)
    ensures |Drifting(listings, models, snapshot, previous)| == 0 == |Lacking(listings, models, snapshot)|
  {
  }

  lemma NothingDrifted(models: seq<Model>, prices: map<Id, PriceRow>, statuses: map<Id, Status>)
    requires models == []
    ensures forall pk :: DriftedRow(pk, models, prices, statuses) == Get(prices, pk)
  {
  }

  lemma NotYetDrifted(models: seq<Model>, i: nat, prices: map<Id, PriceRow>, before: map<Id, PriceRow>,
    statuses: map<Id, Status>)
    requires i < |models| && forall k :: 0 <= k < i ==> models[k].id != models[i].id
    requires forall pk :: Get(prices, pk) == DriftedRow(pk, models[..i], before, statuses)
    ensures Get(prices, models[i].id) == Get(before, models[i].id)
  {
    assert Get(prices, models[i].id) == DriftedRow(models[i].id, models[..i], before, statuses);
  }

  lemma NothingMatched(models: seq<Model>, prices: map<Id, PriceRow>, snapshot: Snapshot)
    requires models == []
    ensures forall pk ::
      PatchedRow(pk, models, prices, snapshot) == Get(prices, pk) && !HasLostReference(pk, models, prices, snapshot)
    ensures Matched(models, snapshot) == {} == FixedPriced(models, snapshot)
  {
  }

  lemma NotYetPatched(models: seq<Model>, i: nat, prices: map<Id, PriceRow>, before: map<Id, PriceRow>,
    snapshot: Snapshot)
    requires i < |models| && forall k :: 0 <= k < i ==> models[k].id != models[i].id
    requires forall pk :: Get(prices, pk) == PatchedRow(pk, models[..i], before, snapshot)
    ensures Get(prices, models[i].id) == Get(before, models[i].id)
  {
    assert Get(prices, models[i].id) == PatchedRow(models[i].id, models[..i], before, snapshot);
  }

  // ----- the tables -----

  class PriceTables {
    var models: seq<Model>
    var listings: seq<Listing>
    var prices: map<Id, PriceRow>
    var runs: seq<Run>

    function View(): Catalog
      reads this
    {
      Catalog(models, listings, prices, runs)
    }

    method GetLatestCostReferences() returns (r: map<Id, CostReference>)
      ensures r == LatestReferences(runs, BASELINE_RUNS)
    {
      var k, left := |runs|, BASELINE_RUNS;
      assert runs[..k] == runs;
      while k > 0 && left > 0
        invariant 0 <= k <= |runs| && 0 <= left
        invariant LatestReferences(runs, BASELINE_RUNS) == LatestReferences(runs[..k], left)
        decreases k
      {
        k := k - 1;
        assert runs[..k + 1][..k] == runs[..k];
        if runs[k].status == Failed {
          continue;
        }
        if runs[k].references.Some? {
          return runs[k].references.value;
        }
        left := left - 1;
      }
      return map[];
    }

    /** The loop that matches the models. */
    method SyncModels(snapshot: Snapshot) returns (matched: nat, fixed: nat, statuses: map<Id, Status>)
      requires Keyed(models, listings)
      modifies this`prices
      ensures forall pk :: Get(prices, pk) == PatchedRow(pk, models, old(prices), snapshot)
      ensures forall pk :: pk in statuses <==> HasLostReference(pk, models, old(prices), snapshot)
      ensures forall pk :: pk in statuses ==> statuses[pk] == CostChanged
      ensures matched == |Matched(models, snapshot)| && fixed == |FixedPriced(models, snapshot)|
    {
      hide FindRemote, FindModel, HasLostReference, Matched, FixedPriced;
      ghost var before := prices;
      matched, fixed, statuses := 0, 0, map[];
      NothingMatched(models[..0], prices, snapshot);
      for i := 0 to |models|
        invariant forall pk :: Get(prices, pk) == PatchedRow(pk, models[..i], before, snapshot)
        invariant forall pk :: pk in statuses <==> HasLostReference(pk, models[..i], before, snapshot)
        invariant forall pk :: pk in statuses ==> statuses[pk] == CostChanged
        invariant matched == |Matched(models[..i], snapshot)| && fixed == |FixedPriced(models[..i], snapshot)|
      {
        var model := models[i];
        MatchedStep(models, i, snapshot);
        forall pk ensures PatchedRow(pk, models[..i + 1], before, snapshot) ==
          if pk == model.id then Patched(Get(before, pk), FindRemote(snapshot.models, model.modelId))
          else PatchedRow(pk, models[..i], before, snapshot)
        {
          FindModelStep(models, i, pk);
        }
        forall pk ensures HasLostReference(pk, models[..i + 1], before, snapshot) <==>
          HasLostReference(pk, models[..i], before, snapshot)
          || (pk in before && pk == model.id && FindRemote(snapshot.models, model.modelId) == None)
        {
          LostReferenceStep(models, i, pk, before, snapshot);
        }
        NotYetPatched(models, i, prices, before, snapshot);
        assert model.id in prices <==> model.id in before;
        var remote := FindRemote(snapshot.models, model.modelId);
        if remote == None {
          if model.id in prices {
            prices := prices[model.id :=
              prices[model.id].(syncStatus := ReferenceMissing, driftStatus := Drift(CostChanged))];
            statuses := statuses[model.id := CostChanged];
          }
          continue;
        }
        if remote.value.derived.FixedPrice? {
          fixed := fixed + 1;
        }
        matched := matched + 1;
        if model.id in prices {
          prices := prices[model.id :=
            prices[model.id].(reference := Some(remote.value.derived), syncStatus := ReferenceCurrent)];
        } else {
          prices := prices[model.id := PriceRow(Some(remote.value.derived), ReferenceCurrent, Unset)];
        }
      }
      assert models[..|models|] == models;
    }

    /** The body of the listing loop: what the listing costs now, and how that differs from the baseline. */
    method CompareListing(listing: Listing, snapshot: Snapshot, previous: map<Id, CostReference>)
      returns (cost: Option<CostReference>, costReferenceStatus: Status, reportType: Option<ConflictKind>,
        lacksGroup: bool)
      ensures cost == ListingCost(listing, models, snapshot)
      ensures reportType == ListingConflict(listing, models, snapshot, previous)
      ensures costReferenceStatus == CostChanged <==> reportType.Some?
      ensures lacksGroup <==> LacksGroup(listing, models, snapshot)
    {
      hide FindRemote, FindModel, CostOf, Trim;
      var model := FindModel(models, listing.modelPk);
      var remote := if model.Some? then FindRemote(snapshot.models, model.value.modelId) else None;
      var newapiGroup := Trim(listing.newapiGroup);
      var enabled := remote.Some? && newapiGroup != [] && newapiGroup in remote.value.enabledGroups;
      var groupRatio := if newapiGroup != [] then Get(snapshot.groupRatios, newapiGroup) else None;
      lacksGroup := newapiGroup == [] || (remote.Some? && (!enabled || groupRatio == None));
      cost := None;
      if remote.Some? && enabled && groupRatio.Some? {
        cost := BuildCostReference(remote.value, newapiGroup, groupRatio.value);
      }
      costReferenceStatus, reportType := CostOk, None;
      if cost == None {
        costReferenceStatus := CostChanged;
        reportType := Some(
          if newapiGroup == [] then MappingMissing
          else if remote.Some? then (if enabled then MissingGroupRatio else GroupUnavailable)
          else ModelMissing);
      } else if listing.id in previous && previous[listing.id] != cost.value {
        costReferenceStatus, reportType := CostChanged, Some(PriceChanged);
      }
    }

    /** The loop that compares the listings with the baseline. */
    method SyncListings(snapshot: Snapshot, previous: map<Id, CostReference>, lost: map<Id, Status>)
      returns (conflicts: seq<Conflict>, costReferences: map<Id, CostReference>, statuses: map<Id, Status>, drifts: nat,
        missing: nat)
      requires Keyed(models, listings)
      requires forall pk :: pk in lost ==> lost[pk] == CostChanged
      ensures conflicts == Conflicts(listings, models, snapshot, previous)
      ensures AreReferences(costReferences, listings, models, snapshot)
      ensures forall pk :: pk in statuses && statuses[pk] == CostChanged <==>
        pk in lost || HasDriftingListing(pk, listings, models, snapshot, previous)
      ensures drifts == |Drifting(listings, models, snapshot, previous)|
        && missing == |Lacking(listings, models, snapshot)|
    {
      hide FindRemote, FindModel, HasDriftingListing, AreReferences, Drifting, Lacking, ListingCost,
           ListingConflict, LacksGroup, Trim;
      conflicts, costReferences, statuses, drifts, missing := [], map[], lost, 0, 0;
      NothingListed(listings[..0], models, snapshot, previous);
      for i := 0 to |listings|
        invariant conflicts == Conflicts(listings[..i], models, snapshot, previous)
        invariant AreReferences(costReferences, listings[..i], models, snapshot)
        invariant forall pk :: pk in statuses && statuses[pk] == CostChanged <==>
          pk in lost || HasDriftingListing(pk, listings[..i], models, snapshot, previous)
        invariant drifts == |Drifting(listings[..i], models, snapshot, previous)|
          && missing == |Lacking(listings[..i], models, snapshot)|
      {
        var listing := listings[i];
        DriftCountStep(listings, i, models, snapshot, previous);
        LackCountStep(listings, i, models, snapshot);
        ReferencesStep(costReferences, listings, i, models, snapshot);
        assert listings[..i + 1][..i] == listings[..i];
        forall pk ensures HasDriftingListing(pk, listings[..i + 1], models, snapshot, previous) <==>
          HasDriftingListing(pk, listings[..i], models, snapshot, previous)
          || (pk == listing.modelPk && ListingConflict(listing, models, snapshot, previous).Some?)
        {
          DriftStep(listings, i, pk, models, snapshot, previous);
        }
        var cost, costReferenceStatus, reportType, lacksGroup := CompareListing(listing, snapshot, previous);
        if lacksGroup {
          missing := missing + 1;
        }
        if cost.Some? {
          costReferences := costReferences[listing.id := cost.value];
        }
        if costReferenceStatus != CostOk {
          drifts := drifts + 1;
        }
        statuses := statuses[listing.modelPk := Aggregate(Get(statuses, listing.modelPk), costReferenceStatus)];
        if reportType.Some? {
          var model := FindModel(models, listing.modelPk);
          conflicts := conflicts +
            [Conflict(reportType.value, if model.Some? then Some(model.value.modelId)
              else None, listing.id, Trim(listing.newapiGroup))];
        }
      }
      assert listings[..|listings|] == listings;
    }

    /** The loop that writes the drift status of every model. */
    method RecordDrift(statuses: map<Id, Status>)
      requires Keyed(models, listings)
      modifies this`prices
      ensures forall pk :: Get(prices, pk) == DriftedRow(pk, models, old(prices), statuses)
    {
      hide FindModel;
      ghost var before := prices;
      NothingDrifted(models[..0], prices, statuses);
      for i := 0 to |models|
        invariant forall pk :: Get(prices, pk) == DriftedRow(pk, models[..i], before, statuses)
      {
        var model := models[i];
        forall pk ensures DriftedRow(pk, models[..i + 1], before, statuses) ==
          if pk == model.id then WithDrift(Get(before, pk), Get(statuses, pk))
            else DriftedRow(pk, models[..i], before, statuses)
        {
          FindModelStep(models, i, pk);
        }
        NotYetDrifted(models, i, prices, before, statuses);
        if model.id in prices {
          prices := prices[model.id := prices[model.id].(driftStatus :=
            Drift(if model.id in statuses then statuses[model.id] else CostOk))];
        }
      }
      assert models[..|models|] == models;
    }

    method SyncCatalogPricingFromSnapshot(snapshot: Snapshot) returns (report: Report)
      requires Keyed(models, listings)
      modifies this`prices, this`runs
      ensures IsSync(old(View()), snapshot, View(), report)
    {
      hide LatestReferences, FindModel, HasLostReference, HasDriftingListing, AreReferences, Conflicts, Matched,
           FixedPriced, Drifting, Lacking;
      ghost var before := View();
      var previousReferences := GetLatestCostReferences();
      var matched, fixed, lost := SyncModels(snapshot);
      ghost var patched := prices;
      var conflicts, costReferences, statuses, drifts, missing := SyncListings(snapshot, previousReferences, lost);
      RecordDrift(statuses);
      forall pk ensures Get(prices, pk) == SyncedRow(pk, before, snapshot) {
        assert Get(prices, pk) == DriftedRow(pk, models, patched, statuses);
        assert Get(patched, pk) == PatchedRow(pk, models, before.prices, snapshot);
        assert pk in lost <==> HasLostReference(pk, models, before.prices, snapshot);
      }
      var status := if drifts > 0 || missing > 0 then Partial else Success;
      runs := runs + [Run(status, Some(costReferences))];
      report := Report(status, |snapshot.models|, matched, drifts, fixed, missing, conflicts);
    }

    /** `recordCatalogPriceSyncFailure`: the failed run is no baseline for any later run. */
    method RecordCatalogPriceSyncFailure()
      modifies this`runs
      ensures View() == old(View()).(runs := runs) && OnlyFailuresAfter(runs, old(runs)) && |runs| == |old(runs)| + 1
      ensures forall limit :: LatestReferences(runs, limit) == LatestReferences(old(runs), limit)
    {
      runs := runs + [Run(Failed, None)];
      assert runs[..|runs| - 1] == old(runs);
    }
  }
}
