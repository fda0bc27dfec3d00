/** What a sync run reports and writes, stated on the rows, the snapshot and the recorded runs as they stand. */
module PriceSyncMeaning {
  import opened Wrappers
  import opened CodeUnits
  import opened WhiteSpace
  import PricingSpecs
  import opened PriceSync
  import opened PriceSyncProofs

  // ----- what a listing costs -----

  ghost predicate IsLastEntry(remotes: seq<Remote>, k: int, modelId: Text, remote: Remote) {
    && 0 <= k < |remotes| && remotes[k] == remote && remote.modelId == modelId
    && forall j :: k < j < |remotes| ==> remotes[j].modelId != modelId
  }

  /** `remote` is the last entry of the snapshot with this model id. */
  ghost predicate IsRemote(snapshot: Snapshot, modelId: Text, remote: Remote) {
    exists k :: IsLastEntry(snapshot.models, k, modelId, remote)
  }

  /** The listing belongs to a model of the catalog. */
  ghost predicate BelongsTo(models: seq<Model>, listing: Listing, model: Model) {
    model.id == listing.modelPk && exists k :: 0 <= k < |models| && models[k] == model
  }

  /** The snapshot entry of the model that the listing belongs to. */
  ghost predicate SuppliedBy(models: seq<Model>, listing: Listing, snapshot: Snapshot, remote: Remote) {
    exists model :: BelongsTo(models, listing, model) && IsRemote(snapshot, model.modelId, remote)
  }

  /** `price * bps / 10000`, with one half added and the rest cut off toward zero: a price that is not negative is
      rounded half up. */
  ghost predicate IsScaled(price: int, bps: nat, scaled: int)
    ensures IsScaled(price, bps, scaled) && price >= 0 ==>
      10_000 * scaled - 5_000 <= price * bps < 10_000 * scaled + 5_000
  {
    var n := price * bps + 5_000;
    if n >= 0 then 10_000 * scaled <= n < 10_000 * scaled + 10_000
    else 10_000 * scaled - 10_000 < n <= 10_000 * scaled
  }

  /** Every derived price of the model times the ratio of the group; no cost without a price. */
  ghost predicate IsCost(remote: Remote, group: Text, bps: nat, cost: CostReference) {
    match remote.derived
    case FixedPrice(price) =>
      price.Some? && cost.PerCall? && cost.newapiGroup == group && IsScaled(price.value, bps, cost.defaultTier)
    case RatioPrice(prices) =>
      && prices.Keys != {} && cost.PerToken? && cost.newapiGroup == group && cost.rates.Keys == prices.Keys
      && forall key :: key in prices ==> IsScaled(prices[key], bps, cost.rates[key])
  }

  /** The listing names a group that is enabled for its model and has a ratio, and this is what it costs. */
  ghost predicate Costs(models: seq<Model>, listing: Listing, snapshot: Snapshot, cost: CostReference) {
    exists remote, group ::
      && SuppliedBy(models, listing, snapshot, remote) && IsTrimOf(listing.newapiGroup, group)
      && group != [] && group in remote.enabledGroups && group in snapshot.groupRatios
      && IsCost(remote, group, snapshot.groupRatios[group], cost)
  }

  lemma LastRemote(remotes: seq<Remote>, ratios: map<Text, nat>, modelId: Text, remote: Remote)
    requires remotes != [] && remotes[|remotes| - 1].modelId == modelId
    ensures IsRemote(Snapshot(remotes, ratios), modelId, remote) <==> remote == remotes[|remotes| - 1]
  {
    var n := |remotes| - 1;
    assert IsLastEntry(remotes, n, modelId, remotes[n]);
    if IsRemote(Snapshot(remotes, ratios), modelId, remote) {
      var k :| IsLastEntry(remotes, k, modelId, remote);
      assert k == n;
    }
  }

  lemma EarlierEntry(remotes: seq<Remote>, k: int, modelId: Text, remote: Remote)
    requires remotes != [] && remotes[|remotes| - 1].modelId != modelId
    ensures IsLastEntry(remotes, k, modelId, remote) <==> IsLastEntry(remotes[..|remotes| - 1], k, modelId, remote)
  {
    var rest := remotes[..|remotes| - 1];
    assert forall j :: 0 <= j < |rest| ==> rest[j] == remotes[j];
    if IsLastEntry(rest, k, modelId, remote) {
      assert forall j :: k < j < |rest| ==> remotes[j] == rest[j];
    }
  }

  lemma EarlierRemote(remotes: seq<Remote>, ratios: map<Text, nat>, modelId: Text, remote: Remote)
    requires remotes != [] && remotes[|remotes| - 1].modelId != modelId
    ensures IsRemote(Snapshot(remotes, ratios), modelId, remote)
       <==> IsRemote(Snapshot(remotes[..|remotes| - 1], ratios), modelId, remote)
  {
    hide IsLastEntry;
    var rest := remotes[..|remotes| - 1];
    if k :| IsLastEntry(remotes, k, modelId, remote) {
      EarlierEntry(remotes, k, modelId, remote);
    }
    if k :| IsLastEntry(rest, k, modelId, remote) {
      EarlierEntry(remotes, k, modelId, remote);
    }
  }

  lemma {:induction false} RemoteExactly(remotes: seq<Remote>, ratios: map<Text, nat>, modelId: Text, remote: Remote)
    ensures FindRemote(remotes, modelId) == Some(remote) <==> IsRemote(Snapshot(remotes, ratios), modelId, remote)
  {
    hide IsRemote;
    if remotes == [] {
      NoRemotes(ratios, modelId, remote);
    } else if remotes[|remotes| - 1].modelId == modelId {
      LastRemote(remotes, ratios, modelId, remote);
    } else {
      EarlierRemote(remotes, ratios, modelId, remote);
      RemoteExactly(remotes[..|remotes| - 1], ratios, modelId, remote);
    }
  }

  lemma NoRemotes(ratios: map<Text, nat>, modelId: Text, remote: Remote)
    ensures !IsRemote(Snapshot([], ratios), modelId, remote)
  {
  }

  ghost predicate DistinctIds(models: seq<Model>) {
    forall i, j :: 0 <= i < j < |models| ==> models[i].id != models[j].id
  }

  lemma ModelExactly(models: seq<Model>, listing: Listing, model: Model)
    requires DistinctIds(models)
    ensures FindModel(models, listing.modelPk) == Some(model) <==> BelongsTo(models, listing, model)
  {
    hide FindModel;
    if BelongsTo(models, listing, model) {
      var k :| 0 <= k < |models| && models[k] == model;
      assert model in models;
    }
  }

  lemma SupplierExactly(models: seq<Model>, listing: Listing, snapshot: Snapshot, remote: Remote)
    requires DistinctIds(models)
    ensures RemoteOf(listing, models, snapshot) == Some(remote) <==> SuppliedBy(models, listing, snapshot, remote)
  {
    hide FindModel, FindRemote, BelongsTo, IsRemote;
    assert snapshot == Snapshot(snapshot.models, snapshot.groupRatios);
    var found := FindModel(models, listing.modelPk);
    if found.Some? {
      ModelExactly(models, listing, found.value);
      RemoteExactly(snapshot.models, snapshot.groupRatios, found.value.modelId, remote);
    }
    if model :| BelongsTo(models, listing, model) && IsRemote(snapshot, model.modelId, remote) {
      ModelExactly(models, listing, model);
    }
  }

  lemma ScaleExactly(price: int, bps: nat, scaled: int)
    ensures Scale(price, bps) == scaled <==> IsScaled(price, bps, scaled)
  {
    ScaledBounds(price, bps);
    ScaledUnique(price * bps + 5_000, Scale(price, bps), scaled);
  }

  ghost predicate IsCutOff(n: int, scaled: int) {
    if n >= 0 then 10_000 * scaled <= n < 10_000 * scaled + 10_000
    else 10_000 * scaled - 10_000 < n <= 10_000 * scaled
  }

  lemma ScaledUnique(n: int, a: int, b: int)
    requires IsCutOff(n, a)
    ensures IsCutOff(n, b) <==> a == b
  {
  }

  lemma ScaledBounds(price: int, bps: nat)
    ensures IsCutOff(price * bps + 5_000, Scale(price, bps))
  {
    var n := price * bps + 5_000;
    if price >= 0 {
      NatProduct(price, bps);
      assert Scale(price, bps) == n / 10_000;
    } else if n < 0 {
      assert Scale(price, bps) == -((-n) / 10_000);
    } else {
      NatProduct(-price, bps);
      assert price * bps == -((-price) * bps);
      assert n <= 5_000;
    }
  }

  lemma NatProduct(a: nat, b: nat)
    ensures a * b >= 0
  {
  }

  lemma CostOfExactly(remote: Remote, group: Text, bps: nat, cost: CostReference)
    ensures CostOf(remote, group, bps) == Some(cost) <==> IsCost(remote, group, bps, cost)
  {
    hide Scale, IsScaled;
    match remote.derived
    case FixedPrice(price) =>
      if price.Some? && cost.PerCall? {
        ScaleExactly(price.value, bps, cost.defaultTier);
      }
    case RatioPrice(prices) =>
      assert prices.Keys == {} <==> prices == map[];
      if cost.PerToken? {
        RatesExactly(prices, bps, cost.rates);
      }
  }

  lemma RatesExactly(prices: map<RateKey, int>, bps: nat, rates: map<RateKey, int>)
    ensures rates == (map key | key in prices :: Scale(prices[key], bps))
       <==> rates.Keys == prices.Keys && forall key :: key in prices ==> IsScaled(prices[key], bps, rates[key])
  {
    hide Scale, IsScaled;
    var scaled := map key | key in prices :: Scale(prices[key], bps);
    forall key | key in prices && key in rates
      ensures rates[key] == scaled[key] <==> IsScaled(prices[key], bps, rates[key])
    {
      ScaleExactly(prices[key], bps, rates[key]);
    }
    if rates.Keys == prices.Keys && forall key :: key in prices ==> IsScaled(prices[key], bps, rates[key]) {
      assert rates.Keys == scaled.Keys;
      assert forall key :: key in scaled ==> rates[key] == scaled[key];
    }
    if rates == scaled {
      assert rates.Keys == prices.Keys;
    }
  }

  lemma CostExactly(models: seq<Model>, listing: Listing, snapshot: Snapshot, cost: CostReference)
    requires DistinctIds(models)
    ensures ListingCost(listing, models, snapshot) == Some(cost) <==> Costs(models, listing, snapshot, cost)
  {
    hide RemoteOf, CostOf, SuppliedBy, IsCost, Trim, IsTrimOf, DistinctIds;
    var found, group := RemoteOf(listing, models, snapshot), Trim(listing.newapiGroup);
    TrimExactly(listing.newapiGroup, group);
    if found.Some? {
      SupplierExactly(models, listing, snapshot, found.value);
      if group in snapshot.groupRatios {
        CostOfExactly(found.value, group, snapshot.groupRatios[group], cost);
      }
    }
    if remote, other :|
      && SuppliedBy(models, listing, snapshot, remote) && IsTrimOf(listing.newapiGroup, other)
      && other != [] && other in remote.enabledGroups && other in snapshot.groupRatios
      && IsCost(remote, other, snapshot.groupRatios[other], cost) {
      SupplierExactly(models, listing, snapshot, remote);
      TrimExactly(listing.newapiGroup, other);
    }
  }

  // ----- the baseline -----

  /** The recorded runs after position `k` that did not fail. */
  ghost function Usable(runs: seq<Run>, k: int): set<int> {
    set j | k < j < |runs| && j >= 0 && runs[j].status != Failed
  }

  /** The cost references of the newest run that has any, among the last twenty that did not fail; none if there is
      no such run. */
  ghost predicate IsBaseline(runs: seq<Run>, limit: nat, baseline: map<Id, CostReference>) {
    || (exists k :: && 0 <= k < |runs| && runs[k].status != Failed && runs[k].references == Some(baseline)
                    && |Usable(runs, k)| < limit
                    && forall j :: k < j < |runs| && runs[j].status != Failed ==> runs[j].references == None)
    || ((forall k :: 0 <= k < |runs| && runs[k].status != Failed && |Usable(runs, k)| < limit ==>
           runs[k].references == None)
        && baseline == map[])
  }

  lemma UsableStep(runs: seq<Run>, k: int)
    requires runs != [] && k < |runs| - 1
    ensures Usable(runs, k) == Usable(runs[..|runs| - 1], k)
      + if |runs| - 1 >= 0 && runs[|runs| - 1].status != Failed then {|runs| - 1} else {}
    ensures |Usable(runs, k)| == |Usable(runs[..|runs| - 1], k)| + if runs[|runs| - 1].status != Failed then 1 else 0
  {
    var n := |runs| - 1;
    assert forall j :: 0 <= j < n ==> runs[..n][j] == runs[j];
    assert n !in Usable(runs[..n], k);
  }

  lemma UsableNone(runs: seq<Run>)
    ensures Usable(runs, |runs| - 1) == {}
  {
  }

  lemma {:induction false} BaselineHolds(runs: seq<Run>, limit: nat)
    ensures IsBaseline(runs, limit, LatestReferences(runs, limit))
    decreases |runs|
  {
    hide Usable;
    var baseline := LatestReferences(runs, limit);
    if runs != [] && limit > 0 {
      var n := |runs| - 1;
      UsableNone(runs);
      if runs[n].status != Failed && runs[n].references.Some? {
        assert runs[n].references == Some(baseline);
      } else {
        var rest := if runs[n].status == Failed then limit else limit - 1;
        BaselineHolds(runs[..n], rest);
        assert baseline == LatestReferences(runs[..n], rest);
        forall k | 0 <= k < n
          ensures |Usable(runs, k)| < limit <==> |Usable(runs[..n], k)| < rest
        {
          UsableStep(runs, k);
        }
        BaselineGrows(runs, limit, rest, baseline);
      }
    }
  }

  lemma BaselineGrows(runs: seq<Run>, limit: nat, rest: nat, baseline: map<Id, CostReference>)
    requires runs != [] && limit > 0 && IsBaseline(runs[..|runs| - 1], rest, baseline)
    requires var n := |runs| - 1; runs[n].status == Failed || runs[n].references == None
    requires var n := |runs| - 1; forall k :: 0 <= k < n ==>
      (|Usable(runs, k)| < limit <==> |Usable(runs[..n], k)| < rest)
    ensures IsBaseline(runs, limit, baseline)
  {
    hide Usable;
    var n := |runs| - 1;
    var before := runs[..n];
    assert forall k :: 0 <= k < n ==> before[k] == runs[k];
    if k :| && 0 <= k < n && before[k].status != Failed && before[k].references == Some(baseline)
            && |Usable(before, k)| < rest
            && forall j :: k < j < n && before[j].status != Failed ==> before[j].references == None {
      assert runs[k].references == Some(baseline);
      assert forall j :: k < j < n ==> runs[j] == before[j];
    }
  }

  lemma BaselineUnique(runs: seq<Run>, limit: nat, a: map<Id, CostReference>, b: map<Id, CostReference>)
    requires IsBaseline(runs, limit, a) && IsBaseline(runs, limit, b)
    ensures a == b
  {
    hide Usable;
  }

  /** The baseline of a run is the one that the recorded runs leave. */
  lemma BaselineExactly(runs: seq<Run>, baseline: map<Id, CostReference>)
    ensures LatestReferences(runs, BASELINE_RUNS) == baseline <==> IsBaseline(runs, 20, baseline)
  {
    hide IsBaseline, LatestReferences;
    BaselineHolds(runs, 20);
    if IsBaseline(runs, 20, baseline) {
      BaselineUnique(runs, 20, baseline, LatestReferences(runs, 20));
    }
  }

  // ----- what conflicts -----

  /** The group that the listing names, for a model that the snapshot has. */
  ghost predicate NamesGroup(models: seq<Model>, listing: Listing, snapshot: Snapshot, remote: Remote, group: Text) {
    SuppliedBy(models, listing, snapshot, remote) && IsTrimOf(listing.newapiGroup, group) && group != []
  }

  /** Why a listing is in conflict with the snapshot or the baseline. */
  ghost predicate IsConflict(kind: ConflictKind, listing: Listing, models: seq<Model>, snapshot: Snapshot,
    baseline: map<Id, CostReference>) {
    match kind
    case MappingMissing => Blanks(listing.newapiGroup)
    case ModelMissing =>
      !Blanks(listing.newapiGroup) && forall remote :: !SuppliedBy(models, listing, snapshot, remote)
    case GroupUnavailable =>
      exists remote, group :: NamesGroup(models, listing, snapshot, remote, group) && group !in remote.enabledGroups
    case MissingGroupRatio =>
      (exists remote, group :: NamesGroup(models, listing, snapshot, remote, group) && group in remote.enabledGroups)
      && forall cost :: !Costs(models, listing, snapshot, cost)
    case PriceChanged =>
      exists cost ::
        Costs(models, listing, snapshot, cost) && listing.id in baseline && baseline[listing.id] != cost
  }

  lemma SupplierUnique(models: seq<Model>, listing: Listing, snapshot: Snapshot)
    requires DistinctIds(models)
    ensures RemoteOf(listing, models, snapshot) == None <==>
      forall remote :: !SuppliedBy(models, listing, snapshot, remote)
    ensures forall remote :: SuppliedBy(models, listing, snapshot, remote) ==>
      RemoteOf(listing, models, snapshot) == Some(remote)
    ensures RemoteOf(listing, models, snapshot).Some? ==>
      SuppliedBy(models, listing, snapshot, RemoteOf(listing, models, snapshot).value)
  {
    hide RemoteOf, SuppliedBy, DistinctIds;
    forall remote
      ensures SuppliedBy(models, listing, snapshot, remote) <==> RemoteOf(listing, models, snapshot) == Some(remote)
    {
      SupplierExactly(models, listing, snapshot, remote);
    }
  }

  lemma CostUnique(models: seq<Model>, listing: Listing, snapshot: Snapshot)
    requires DistinctIds(models)
    ensures forall cost :: Costs(models, listing, snapshot, cost) <==>
      ListingCost(listing, models, snapshot) == Some(cost)
  {
    hide ListingCost, Costs, DistinctIds;
    forall cost
      ensures Costs(models, listing, snapshot, cost) <==> ListingCost(listing, models, snapshot) == Some(cost)
    {
      CostExactly(models, listing, snapshot, cost);
    }
  }

  lemma GroupUnique(listing: Listing)
    ensures forall group :: IsTrimOf(listing.newapiGroup, group) <==> group == Trim(listing.newapiGroup)
    ensures Blanks(listing.newapiGroup) <==> Trim(listing.newapiGroup) == []
  {
    hide Trim, IsTrimOf, Blanks;
    BlankTrims(listing.newapiGroup);
    forall group
      ensures IsTrimOf(listing.newapiGroup, group) <==> group == Trim(listing.newapiGroup)
    {
      TrimExactly(listing.newapiGroup, group);
    }
  }

  lemma EnabledCost(listing: Listing, models: seq<Model>, snapshot: Snapshot)
    ensures ListingCost(listing, models, snapshot).Some? ==>
      IsEnabled(RemoteOf(listing, models, snapshot), Trim(listing.newapiGroup))
  {
    hide RemoteOf, CostOf, Trim, IsEnabled;
  }

  /** The listing loop finds exactly these conflicts. */
  lemma ConflictExactly(kind: ConflictKind, listing: Listing, models: seq<Model>, snapshot: Snapshot,
    baseline: map<Id, CostReference>)
    requires DistinctIds(models)
    ensures ListingConflict(listing, models, snapshot, baseline) == Some(kind)
       <==> IsConflict(kind, listing, models, snapshot, baseline)
  {
    hide RemoteOf, ListingCost, SuppliedBy, Costs, Trim, IsTrimOf, Blanks, DistinctIds;
    SupplierUnique(models, listing, snapshot);
    CostUnique(models, listing, snapshot);
    GroupUnique(listing);
    EnabledCost(listing, models, snapshot);
    var remote, group := RemoteOf(listing, models, snapshot), Trim(listing.newapiGroup);
    if remote.Some? {
      assert NamesGroup(models, listing, snapshot, remote.value, group) <==> group != [];
    }
    var cost := ListingCost(listing, models, snapshot);
    if cost.Some? {
      assert Costs(models, listing, snapshot, cost.value);
    }
  }

  // ----- the report -----

  /** The conflict is one of this listing, under its model and its group. */
  ghost predicate Describes(c: Conflict, listing: Listing, models: seq<Model>, snapshot: Snapshot,
    baseline: map<Id, CostReference>) {
    && IsConflict(c.kind, listing, models, snapshot, baseline)
    && c.listingId == listing.id && IsTrimOf(listing.newapiGroup, c.newapiGroup)
    && match c.modelId
       case Some(modelId) => exists model :: BelongsTo(models, listing, model) && model.modelId == modelId
       case None => forall model :: !BelongsTo(models, listing, model)
  }

  /** The conflicts are those of the listings at these positions. */
  ghost predicate AreConflictsAt(conflicts: seq<Conflict>, at: seq<int>, listings: seq<Listing>, models: seq<Model>,
    snapshot: Snapshot, baseline: map<Id, CostReference>) {
    && |at| == |conflicts|
    && (forall j, k :: 0 <= j < k < |at| ==> at[j] < at[k])
    && (forall k :: 0 <= k < |at| ==>
          0 <= at[k] < |listings| && Describes(conflicts[k], listings[at[k]], models, snapshot, baseline))
    && (forall i, kind :: 0 <= i < |listings| && IsConflict(kind, listings[i], models, snapshot, baseline) ==> i in at)
  }

  lemma DescribedConflict(listing: Listing, kind: ConflictKind, models: seq<Model>, snapshot: Snapshot,
    baseline: map<Id, CostReference>)
    requires DistinctIds(models) && ListingConflict(listing, models, snapshot, baseline) == Some(kind)
    ensures var model := FindModel(models, listing.modelPk);
      Describes(Conflict(kind, if model.Some? then Some(model.value.modelId) else None, listing.id,
                         Trim(listing.newapiGroup)), listing, models, snapshot, baseline)
  {
    hide ListingConflict, IsConflict, BelongsTo, IsTrimOf, Trim, FindModel, DistinctIds;
    ConflictExactly(kind, listing, models, snapshot, baseline);
    GroupUnique(listing);
    var found := FindModel(models, listing.modelPk);
    if found.Some? {
      ModelExactly(models, listing, found.value);
    }
    forall model
      ensures BelongsTo(models, listing, model) ==> found == Some(model)
    {
      ModelExactly(models, listing, model);
    }
  }

  lemma {:induction false} ConflictsAt(listings: seq<Listing>, models: seq<Model>, snapshot: Snapshot,
    baseline: map<Id, CostReference>) returns (at: seq<int>)
    requires DistinctIds(models)
    ensures AreConflictsAt(Conflicts(listings, models, snapshot, baseline), at, listings, models, snapshot, baseline)
  {
    hide ListingConflict, Describes, IsConflict, Trim, FindModel, DistinctIds;
    at := [];
    if listings != [] {
      var n := |listings| - 1;
      var before := ConflictsAt(listings[..n], models, snapshot, baseline);
      assert forall i :: 0 <= i < n ==> listings[..n][i] == listings[i];
      forall kind
        ensures IsConflict(kind, listings[n], models, snapshot, baseline)
           <==> ListingConflict(listings[n], models, snapshot, baseline) == Some(kind)
      {
        ConflictExactly(kind, listings[n], models, snapshot, baseline);
      }
      var conflict := ListingConflict(listings[n], models, snapshot, baseline);
      at := before;
      if conflict.Some? {
        DescribedConflict(listings[n], conflict.value, models, snapshot, baseline);
        at := before + [n];
      }
      ConflictsGrow(listings, before, at, models, snapshot, baseline);
    }
  }

  lemma ConflictsGrow(listings: seq<Listing>, before: seq<int>, at: seq<int>, models: seq<Model>, snapshot: Snapshot,
    baseline: map<Id, CostReference>)
    requires listings != []
    requires AreConflictsAt(Conflicts(listings[..|listings| - 1], models, snapshot, baseline), before,
      listings[..|listings| - 1], models, snapshot, baseline)
    requires var n := |listings| - 1;
      var all, some :=
        Conflicts(listings, models, snapshot, baseline), Conflicts(listings[..n], models, snapshot, baseline);
      if ListingConflict(listings[n], models, snapshot, baseline) == None then
        at == before && all == some && forall kind :: !IsConflict(kind, listings[n], models, snapshot, baseline)
      else
        && at == before + [n] && |all| == |some| + 1 && all[..|some|] == some
        && Describes(all[|some|], listings[n], models, snapshot, baseline)
    ensures AreConflictsAt(Conflicts(listings, models, snapshot, baseline), at, listings, models, snapshot, baseline)
  {
    hide ListingConflict, Describes, IsConflict, Conflicts;
    var n := |listings| - 1;
    var all, some :=
      Conflicts(listings, models, snapshot, baseline), Conflicts(listings[..n], models, snapshot, baseline);
    assert forall i :: 0 <= i < n ==> listings[..n][i] == listings[i];
    assert forall k :: 0 <= k < |some| ==> all[k] == some[k];
    forall i, kind | 0 <= i < |listings| && IsConflict(kind, listings[i], models, snapshot, baseline)
      ensures i in at
    {
      if i < n {
        assert IsConflict(kind, listings[..n][i], models, snapshot, baseline);
        assert i in before;
      } else {
        assert at[|at| - 1] == n;
      }
    }
  }

  /** Every run reports exactly the conflicts of the listings with the snapshot and the baseline, in listing order. */
  lemma ReportExactly(before: Catalog, snapshot: Snapshot, after: Catalog, report: Report) returns (
    baseline: map<Id, CostReference>, at: seq<int>)
    requires IsSync(before, snapshot, after, report) && DistinctIds(before.models)
    ensures IsBaseline(before.runs, 20, baseline)
    ensures AreConflictsAt(report.conflicts, at, before.listings, before.models, snapshot, baseline)
  {
    hide LatestReferences, IsBaseline, AreConflictsAt, Conflicts, Drifting, Lacking, Matched, FixedPriced,
         AreReferences,
         SyncedRow, DistinctIds;
    baseline := LatestReferences(before.runs, BASELINE_RUNS);
    BaselineExactly(before.runs, baseline);
    at := ConflictsAt(before.listings, before.models, snapshot, baseline);
  }

  /** The report says that the price of this listing changed. */
  ghost predicate ReportsPriceChange(report: Report, listing: Listing) {
    exists k :: 0 <= k < |report.conflicts| && report.conflicts[k].kind == PriceChanged
                && report.conflicts[k].listingId == listing.id
  }

  /** A changed price is reported for a listing exactly when the listing has a cost now, the baseline has one for
      it, and the two differ. */
  lemma PriceChangeExactly(before: Catalog, snapshot: Snapshot, after: Catalog, report: Report, i: nat,
    baseline: map<Id, CostReference>)
    requires IsSync(before, snapshot, after, report) && Keyed(before.models, before.listings) && i < |before.listings|
    requires IsBaseline(before.runs, 20, baseline)
    ensures var listing := before.listings[i];
      ReportsPriceChange(report, listing)
      <==> listing.id in baseline
           && exists cost :: Costs(before.models, listing, snapshot, cost) && baseline[listing.id] != cost
  {
    hide IsSync, IsBaseline, Costs, IsTrimOf, BelongsTo;
    var listing := before.listings[i];
    var other, at := ReportExactly(before, snapshot, after, report);
    BaselineUnique(before.runs, 20, baseline, other);
    if k :| 0 <= k < |report.conflicts| && report.conflicts[k].kind == PriceChanged
            && report.conflicts[k].listingId == listing.id {
      assert Describes(report.conflicts[k], before.listings[at[k]], before.models, snapshot, baseline);
      assert at[k] == i;
    }
    if listing.id in baseline && exists cost ::
         Costs(before.models, listing, snapshot, cost) && baseline[listing.id] != cost {
      assert IsConflict(PriceChanged, listing, before.models, snapshot, baseline);
      var k :| 0 <= k < |at| && at[k] == i;
      assert Describes(report.conflicts[k], listing, before.models, snapshot, baseline);
      OneKind(report.conflicts[k].kind, PriceChanged, listing, before.models, snapshot, baseline);
    }
  }

  /** A listing has one conflict at most. */
  lemma OneKind(a: ConflictKind, b: ConflictKind, listing: Listing, models: seq<Model>, snapshot: Snapshot,
    baseline: map<Id, CostReference>)
    requires DistinctIds(models)
    requires IsConflict(a, listing, models, snapshot, baseline) && IsConflict(b, listing, models, snapshot, baseline)
    ensures a == b
  {
    hide IsConflict, ListingConflict, DistinctIds;
    ConflictExactly(a, listing, models, snapshot, baseline);
    ConflictExactly(b, listing, models, snapshot, baseline);
  }

  // ----- the rows -----

  ghost predicate IsOffered(snapshot: Snapshot, modelId: Text) {
    exists remote :: IsRemote(snapshot, modelId, remote)
  }

  /** A priced model is gone from the snapshot, or one of its listings is in conflict. */
  ghost predicate HasDrifted(before: Catalog, model: Model, snapshot: Snapshot, baseline: map<Id, CostReference>) {
    || (model.id in before.prices && !IsOffered(snapshot, model.modelId))
    || exists i, kind :: 0 <= i < |before.listings| && before.listings[i].modelPk == model.id
                         && IsConflict(kind, before.listings[i], before.models, snapshot, baseline)
  }

  /** What the run leaves in the row of a model. */
  ghost predicate IsSyncedRow(before: Catalog, after: Catalog, model: Model, snapshot: Snapshot,
    baseline: map<Id, CostReference>) {
    && (model.id in after.prices <==> model.id in before.prices || IsOffered(snapshot, model.modelId))
    && (model.id in after.prices ==>
          var row := after.prices[model.id];
          && row.driftStatus == Drift(if HasDrifted(before, model, snapshot, baseline) then CostChanged else CostOk)
          && (forall remote :: IsRemote(snapshot, model.modelId, remote) ==>
                row.reference == Some(remote.derived) && row.syncStatus == ReferenceCurrent)
          && (!IsOffered(snapshot, model.modelId) ==>
                row.reference == before.prices[model.id].reference && row.syncStatus == ReferenceMissing))
  }

  lemma OfferedExactly(snapshot: Snapshot, modelId: Text)
    ensures FindRemote(snapshot.models, modelId).Some? <==> IsOffered(snapshot, modelId)
    ensures forall remote :: IsRemote(snapshot, modelId, remote) <==>
      FindRemote(snapshot.models, modelId) == Some(remote)
  {
    hide FindRemote, IsRemote;
    assert snapshot == Snapshot(snapshot.models, snapshot.groupRatios);
    forall remote
      ensures IsRemote(snapshot, modelId, remote) <==> FindRemote(snapshot.models, modelId) == Some(remote)
    {
      RemoteExactly(snapshot.models, snapshot.groupRatios, modelId, remote);
    }
    var found := FindRemote(snapshot.models, modelId);
    if found.Some? {
      assert IsRemote(snapshot, modelId, found.value);
    }
  }

  lemma DriftingExactly(before: Catalog, pk: Id, snapshot: Snapshot, baseline: map<Id, CostReference>)
    requires DistinctIds(before.models)
    ensures HasDriftingListing(pk, before.listings, before.models, snapshot, baseline)
       <==> exists i, kind :: 0 <= i < |before.listings| && before.listings[i].modelPk == pk
                              && IsConflict(kind, before.listings[i], before.models, snapshot, baseline)
  {
    hide ListingConflict, IsConflict, DistinctIds;
    forall i, kind | 0 <= i < |before.listings|
      ensures ListingConflict(before.listings[i], before.models, snapshot, baseline) == Some(kind)
         <==> IsConflict(kind, before.listings[i], before.models, snapshot, baseline)
    {
      ConflictExactly(kind, before.listings[i], before.models, snapshot, baseline);
    }
    if i :| 0 <= i < |before.listings| && before.listings[i].modelPk == pk
            && ListingConflict(before.listings[i], before.models, snapshot, baseline).Some? {
      var kind := ListingConflict(before.listings[i], before.models, snapshot, baseline).value;
      assert IsConflict(kind, before.listings[i], before.models, snapshot, baseline);
    }
    if i, kind :| 0 <= i < |before.listings| && before.listings[i].modelPk == pk
                  && IsConflict(kind, before.listings[i], before.models, snapshot, baseline) {
      assert ListingConflict(before.listings[i], before.models, snapshot, baseline) == Some(kind);
    }
  }

  lemma FindsIt(models: seq<Model>, k: nat)
    requires DistinctIds(models) && k < |models|
    ensures FindModel(models, models[k].id) == Some(models[k])
  {
    hide FindModel;
    assert models[k] in models;
  }

  /** The run writes the reference, the sync status and the drift status of every model, and no other row. */
  lemma RowsExactly(before: Catalog, snapshot: Snapshot, after: Catalog, report: Report,
    baseline: map<Id, CostReference>)
    requires IsSync(before, snapshot, after, report) && Keyed(before.models, before.listings)
    requires IsBaseline(before.runs, 20, baseline)
    ensures forall k :: 0 <= k < |before.models| ==> IsSyncedRow(before, after, before.models[k], snapshot, baseline)
    ensures forall pk :: (forall k :: 0 <= k < |before.models| ==> before.models[k].id != pk) ==>
      (pk in after.prices <==> pk in before.prices) && (pk in after.prices ==> after.prices[pk] == before.prices[pk])
  {
    hide LatestReferences, IsBaseline, Conflicts, Drifting, Lacking, Matched, FixedPriced, AreReferences, SyncedRow,
         DistinctIds, Keyed, IsSyncedRow;
    KeyedModels(before);
    BaselineExactly(before.runs, baseline);
    forall k | 0 <= k < |before.models|
      ensures IsSyncedRow(before, after, before.models[k], snapshot, baseline)
    {
      assert Get(after.prices, before.models[k].id) == SyncedRow(before.models[k].id, before, snapshot);
      RowExactly(before, after, k, snapshot, baseline);
    }
    forall pk | forall k :: 0 <= k < |before.models| ==> before.models[k].id != pk
      ensures Get(after.prices, pk) == Get(before.prices, pk)
    {
      assert Get(after.prices, pk) == SyncedRow(pk, before, snapshot);
      UnknownRow(before, pk, snapshot);
    }
    assert forall pk :: Get(after.prices, pk).Some? <==> pk in after.prices;
  }

  lemma KeyedModels(before: Catalog)
    requires Keyed(before.models, before.listings)
    ensures DistinctIds(before.models)
  {
  }

  lemma UnknownRow(before: Catalog, pk: Id, snapshot: Snapshot)
    requires forall k :: 0 <= k < |before.models| ==> before.models[k].id != pk
    ensures SyncedRow(pk, before, snapshot) == Get(before.prices, pk)
  {
    hide FindModel, FindRemote, HasLostReference, HasDriftingListing, LatestReferences;
    if FindModel(before.models, pk).Some? {
      FoundInTable(before.models, pk);
    }
  }

  lemma FoundInTable(models: seq<Model>, pk: Id)
    requires FindModel(models, pk).Some?
    ensures exists k :: 0 <= k < |models| && models[k].id == pk
  {
    hide FindModel;
    var model := FindModel(models, pk).value;
    var k :| 0 <= k < |models| && models[k] == model;
  }

  lemma RowExactly(before: Catalog, after: Catalog, k: nat, snapshot: Snapshot, baseline: map<Id, CostReference>)
    requires Keyed(before.models, before.listings) && k < |before.models|
    requires LatestReferences(before.runs, BASELINE_RUNS) == baseline
    requires Get(after.prices, before.models[k].id) == SyncedRow(before.models[k].id, before, snapshot)
    ensures IsSyncedRow(before, after, before.models[k], snapshot, baseline)
  {
    hide LatestReferences, FindModel, FindRemote, HasLostReference, HasDriftingListing, IsRemote, IsConflict, Keyed,
         DistinctIds, IsOffered;
    var model := before.models[k];
    KeyedModels(before);
    FindsIt(before.models, k);
    OfferedExactly(snapshot, model.modelId);
    DriftingExactly(before, model.id, snapshot, baseline);
    LostIffUnmatched(model.id, before.models, before.listings, before.prices, snapshot);
  }

  // ----- the counts -----

  /** The listing names no group, or one that its model in the snapshot does not enable or that has no ratio. */
  ghost predicate LacksNamedGroup(listing: Listing, models: seq<Model>, snapshot: Snapshot) {
    || Blanks(listing.newapiGroup)
    || exists remote, group :: NamesGroup(models, listing, snapshot, remote, group)
                               && (group !in remote.enabledGroups || group !in snapshot.groupRatios)
  }

  lemma LackExactly(listing: Listing, models: seq<Model>, snapshot: Snapshot)
    requires DistinctIds(models)
    ensures LacksGroup(listing, models, snapshot) <==> LacksNamedGroup(listing, models, snapshot)
  {
    hide RemoteOf, SuppliedBy, Trim, IsTrimOf, Blanks, DistinctIds;
    SupplierUnique(models, listing, snapshot);
    GroupUnique(listing);
    var remote, group := RemoteOf(listing, models, snapshot), Trim(listing.newapiGroup);
    if remote.Some? {
      assert NamesGroup(models, listing, snapshot, remote.value, group) <==> group != [];
    }
  }

  ghost predicate IsFixedPriced(snapshot: Snapshot, modelId: Text) {
    exists remote :: IsRemote(snapshot, modelId, remote) && remote.derived.FixedPrice?
  }

  /** Every count of the report, and its status. */
  lemma ReportCountsExactly(before: Catalog, snapshot: Snapshot, after: Catalog, report: Report)
    requires IsSync(before, snapshot, after, report) && DistinctIds(before.models)
    ensures report.driftCount == |report.conflicts|
    ensures report.status == if report.conflicts == [] then Success else Partial
    ensures report.remoteModelCount == |snapshot.models|
    ensures report.missingGroupCount
         == |set i | 0 <= i < |before.listings| && LacksNamedGroup(before.listings[i], before.models, snapshot)|
    ensures report.matchedModelCount
         == |set i | 0 <= i < |before.models| && IsOffered(snapshot, before.models[i].modelId)|
    ensures report.fixedPriceCount
         == |set i | 0 <= i < |before.models| && IsFixedPriced(snapshot, before.models[i].modelId)|
  {
    hide LacksGroup, LacksNamedGroup, FindRemote, IsRemote, SyncedRow, AreReferences, Conflicts, LatestReferences,
         DistinctIds;
    CountsAgree(before, snapshot, after, report);
    forall i | 0 <= i < |before.listings|
      ensures LacksGroup(before.listings[i], before.models, snapshot)
         <==> LacksNamedGroup(before.listings[i], before.models, snapshot)
    {
      LackExactly(before.listings[i], before.models, snapshot);
    }
    forall i | 0 <= i < |before.models|
      ensures FindRemote(snapshot.models, before.models[i].modelId).Some? <==>
        IsOffered(snapshot, before.models[i].modelId)
      ensures i in FixedPriced(before.models, snapshot) <==> IsFixedPriced(snapshot, before.models[i].modelId)
    {
      OfferedExactly(snapshot, before.models[i].modelId);
    }
    assert Lacking(before.listings, before.models, snapshot)
        == set i | 0 <= i < |before.listings| && LacksNamedGroup(before.listings[i], before.models, snapshot);
    assert Matched(before.models, snapshot)
        == set i | 0 <= i < |before.models| && IsOffered(snapshot, before.models[i].modelId);
    assert FixedPriced(before.models, snapshot)
        == set i | 0 <= i < |before.models| && IsFixedPriced(snapshot, before.models[i].modelId);
  }

  /** The recorded run keeps the cost of every listing that has one, and nothing else. */
  lemma RecordedCostsExactly(before: Catalog, snapshot: Snapshot, after: Catalog, report: Report)
    requires IsSync(before, snapshot, after, report) && Keyed(before.models, before.listings)
    ensures |after.runs| == |before.runs| + 1 && after.runs[..|before.runs|] == before.runs
    ensures var run := after.runs[|before.runs|];
      && run.status == report.status && run.references.Some?
      && (forall i, cost :: 0 <= i < |before.listings| ==>
            (before.listings[i].id in run.references.value && run.references.value[before.listings[i].id] == cost
             <==> Costs(before.models, before.listings[i], snapshot, cost)))
      && (forall id :: id in run.references.value ==>
            exists i :: 0 <= i < |before.listings| && before.listings[i].id == id)
  {
    hide Conflicts, Drifting, Lacking, Matched, FixedPriced, SyncedRow, LatestReferences, Costs, ListingCost,
         DistinctIds;
    KeyedModels(before);
    var references := after.runs[|before.runs|].references.value;
    forall i, cost | 0 <= i < |before.listings|
      ensures before.listings[i].id in references && references[before.listings[i].id] == cost
         <==> Costs(before.models, before.listings[i], snapshot, cost)
    {
      CostUnique(before.models, before.listings[i], snapshot);
      assert Get(references, before.listings[i].id) == ListingCost(before.listings[i], before.models, snapshot);
    }
  }

  // ----- two runs -----

  lemma ReferenceOf(references: map<Id, CostReference>, listings: seq<Listing>, i: nat, models: seq<Model>,
    snapshot: Snapshot, cost: CostReference)
    requires AreReferences(references, listings, models, snapshot) && i < |listings| && DistinctIds(models)
    requires Costs(models, listings[i], snapshot, cost)
    ensures listings[i].id in references && references[listings[i].id] == cost
  {
    hide ListingCost, Costs, DistinctIds;
    CostUnique(models, listings[i], snapshot);
    assert Get(references, listings[i].id) == ListingCost(listings[i], models, snapshot);
  }

  lemma SuppliedIsOffered(models: seq<Model>, listing: Listing, snapshot: Snapshot, cost: CostReference)
    returns (k: nat)
    requires Costs(models, listing, snapshot, cost)
    ensures k < |models| && models[k].id == listing.modelPk && IsOffered(snapshot, models[k].modelId)
  {
    hide IsRemote, IsTrimOf, IsCost;
    var remote, group :|
      && SuppliedBy(models, listing, snapshot, remote) && IsTrimOf(listing.newapiGroup, group)
      && group != [] && group in remote.enabledGroups && group in snapshot.groupRatios
      && IsCost(remote, group, snapshot.groupRatios[group], cost);
    var model :| BelongsTo(models, listing, model) && IsRemote(snapshot, model.modelId, remote);
    k :| 0 <= k < |models| && models[k] == model;
  }

  lemma BaselineHasCost(first: Catalog, earlier: Snapshot, after: Catalog, report: Report, second: Catalog, i: nat,
    was: CostReference) returns (baseline: map<Id, CostReference>)
    requires Keyed(first.models, first.listings) && i < |first.listings|
    requires IsSync(first, earlier, after, report) && Rests(after, second)
    requires Costs(first.models, first.listings[i], earlier, was)
    ensures second.models == first.models && second.listings == first.listings
    ensures IsBaseline(second.runs, 20, baseline)
    ensures first.listings[i].id in baseline && baseline[first.listings[i].id] == was
  {
    hide IsSync, IsBaseline, AreReferences, Costs, LatestReferences, Keyed, DistinctIds, OnlyFailuresAfter;
    SyncKeepsCatalog(first, earlier, after, report);
    KeyedModels(first);
    baseline := LatestReferences(second.runs, BASELINE_RUNS);
    BaselineIsCurrent(first, earlier, after, report, second);
    BaselineExactly(second.runs, baseline);
    ReferenceOf(baseline, second.listings, i, second.models, earlier, was);
  }

  lemma ChangedRowSays(second: Catalog, snapshot: Snapshot, again: Catalog, report: Report, i: nat,
    baseline: map<Id, CostReference>, cost: CostReference)
    requires Keyed(second.models, second.listings) && i < |second.listings|
    requires IsSync(second, snapshot, again, report) && IsBaseline(second.runs, 20, baseline)
    requires Costs(second.models, second.listings[i], snapshot, cost)
    requires second.listings[i].id in baseline && baseline[second.listings[i].id] != cost
    ensures second.listings[i].modelPk in again.prices
    ensures again.prices[second.listings[i].modelPk].driftStatus == Drift(CostChanged)
  {
    hide IsSync, IsBaseline, Costs, IsSyncedRow, Keyed;
    RowsExactly(second, snapshot, again, report, baseline);
    var k := SuppliedIsOffered(second.models, second.listings[i], snapshot, cost);
    assert IsConflict(PriceChanged, second.listings[i], second.models, snapshot, baseline);
    DriftedRowSays(second, again, k, i, PriceChanged, snapshot, baseline);
  }

  /** A listing that had a cost in one run and has one in the next is reported exactly when the two differ, and
      then the row of its model says so. */
  lemma MovedPriceIsReported(first: Catalog, earlier: Snapshot, after: Catalog, report: Report, second: Catalog,
    later: Snapshot, again: Catalog, report2: Report, i: nat, was: CostReference, cost: CostReference)
    requires Keyed(first.models, first.listings) && i < |first.listings|
    requires IsSync(first, earlier, after, report) && Rests(after, second) && IsSync(second, later, again, report2)
    requires Costs(first.models, first.listings[i], earlier, was) && Costs(first.models, first.listings[i], later, cost)
    ensures var listing := first.listings[i];
      && (ReportsPriceChange(report2, listing) <==> was != cost)
      && (was != cost ==> listing.modelPk in again.prices
                          && again.prices[listing.modelPk].driftStatus == Drift(CostChanged))
  {
    hide IsSync, IsBaseline, Costs, ReportsPriceChange, Keyed, Rests;
    var baseline := BaselineHasCost(first, earlier, after, report, second, i, was);
    CostsOnce(second, i, later, cost);
    PriceChangeExactly(second, later, again, report2, i, baseline);
    if was != cost {
      ChangedRowSays(second, later, again, report2, i, baseline, cost);
    }
  }

  lemma CostsOnce(catalog: Catalog, i: nat, snapshot: Snapshot, cost: CostReference)
    requires Keyed(catalog.models, catalog.listings) && i < |catalog.listings|
    requires Costs(catalog.models, catalog.listings[i], snapshot, cost)
    ensures forall other :: Costs(catalog.models, catalog.listings[i], snapshot, other) ==> other == cost
  {
    hide Costs, Keyed, ListingCost, DistinctIds;
    KeyedModels(catalog);
    CostUnique(catalog.models, catalog.listings[i], snapshot);
  }

  lemma SyncKeepsCatalog(before: Catalog, snapshot: Snapshot, after: Catalog, report: Report)
    requires IsSync(before, snapshot, after, report)
    ensures after.models == before.models && after.listings == before.listings
  {
  }

  lemma DriftedRowSays(before: Catalog, after: Catalog, k: nat, i: nat, kind: ConflictKind, snapshot: Snapshot,
    baseline: map<Id, CostReference>)
    requires k < |before.models| && i < |before.listings| && before.listings[i].modelPk == before.models[k].id
    requires IsSyncedRow(before, after, before.models[k], snapshot, baseline)
    requires IsOffered(snapshot, before.models[k].modelId)
    requires IsConflict(kind, before.listings[i], before.models, snapshot, baseline)
    ensures before.models[k].id in after.prices
      && after.prices[before.models[k].id].driftStatus == Drift(CostChanged)
  {
    hide IsConflict, IsRemote, IsOffered;
    assert HasDrifted(before, before.models[k], snapshot, baseline);
  }
}
