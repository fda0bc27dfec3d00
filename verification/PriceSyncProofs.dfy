/** What every sync run reports and what repeating it does: the counts agree with the conflicts, the drift of a
    model does not depend on the order of the listings, and from the second run on the same snapshot nothing changes. */
module PriceSyncProofs {
  import opened Wrappers
  import opened CodeUnits
  import opened PriceSync

  // ----- the counts -----

  lemma {:induction false} ConflictsCounted(listings: seq<Listing>, models: seq<Model>, snapshot: Snapshot,
    previous: map<Id, CostReference>)
    ensures |Conflicts(listings, models, snapshot, previous)| == |Drifting(listings, models, snapshot, previous)|
  {
    hide ListingConflict, Drifting, Trim, FindModel;
    if listings == [] {
      NothingListed(listings, models, snapshot, previous);
    } else {
      var n := |listings| - 1;
      ConflictsCounted(listings[..n], models, snapshot, previous);
      DriftCountStep(listings, n, models, snapshot, previous);
      assert listings[..n + 1] == listings;
    }
  }

  lemma LackingDrifts(listing: Listing, models: seq<Model>, snapshot: Snapshot, previous: map<Id, CostReference>)
    requires LacksGroup(listing, models, snapshot)
    ensures ListingConflict(listing, models, snapshot, previous).Some?
  {
    hide FindModel, FindRemote, CostOf, Trim;
  }

  lemma SubsetCount(a: set<int>, b: set<int>)
    requires a <= b
    ensures |a| <= |b|
  {
    assert b == a + (b - a);
  }

  /** Every drifting listing is one conflict, a missing group always drifts, and a run succeeds exactly without
      conflicts. */
  lemma CountsAgree(before: Catalog, snapshot: Snapshot, after: Catalog, report: Report)
    requires IsSync(before, snapshot, after, report)
    ensures report.driftCount == |report.conflicts|
    ensures report.missingGroupCount <= report.driftCount
    ensures report.status == Success <==> report.conflicts == []
    ensures report.fixedPriceCount <= report.matchedModelCount
  {
    hide ListingConflict, LacksGroup, LatestReferences, FindRemote, SyncedRow, AreReferences, Conflicts;
    var previous := LatestReferences(before.runs, BASELINE_RUNS);
    ConflictsCounted(before.listings, before.models, snapshot, previous);
    forall i | i in Lacking(before.listings, before.models, snapshot)
      ensures i in Drifting(before.listings, before.models, snapshot, previous)
    {
      LackingDrifts(before.listings[i], before.models, snapshot, previous);
    }
    SubsetCount(Lacking(before.listings, before.models, snapshot),
      Drifting(before.listings, before.models, snapshot, previous));
    SubsetCount(FixedPriced(before.models, snapshot), Matched(before.models, snapshot));
  }

  // ----- the order of the listings -----

  lemma DriftIgnoresOrder(pk: Id, a: seq<Listing>, b: seq<Listing>, models: seq<Model>, snapshot: Snapshot,
    previous: map<Id, CostReference>)
    requires forall listing :: listing in a ==> listing in b
    ensures HasDriftingListing(pk, a, models, snapshot, previous) ==>
      HasDriftingListing(pk, b, models, snapshot, previous)
  {
    hide ListingConflict;
    if i :| 0 <= i < |a| && a[i].modelPk == pk && ListingConflict(a[i], models, snapshot, previous).Some? {
      assert a[i] in b;
    }
  }

  /** Reordering the listings changes no price row and no drift status. */
  lemma StatusIgnoresListingOrder(
    a: Catalog, b: Catalog, snapshot: Snapshot, afterA: Catalog, afterB: Catalog, reportA: Report, reportB: Report)
    requires IsSync(a, snapshot, afterA, reportA) && IsSync(b, snapshot, afterB, reportB)
    requires b == a.(listings := b.listings) && forall listing :: listing in a.listings <==> listing in b.listings
    ensures afterA.prices == afterB.prices
  {
    hide ListingConflict, HasLostReference, HasDriftingListing, LatestReferences, FindRemote, FindModel, PatchedRow,
         Drifting, Lacking,
      AreReferences, Conflicts;
    var previous := LatestReferences(a.runs, BASELINE_RUNS);
    forall pk ensures Get(afterA.prices, pk) == Get(afterB.prices, pk) {
      DriftIgnoresOrder(pk, a.listings, b.listings, a.models, snapshot, previous);
      DriftIgnoresOrder(pk, b.listings, a.listings, a.models, snapshot, previous);
    }
    SameRows(afterA.prices, afterB.prices);
  }

  lemma SameRows(a: map<Id, PriceRow>, b: map<Id, PriceRow>)
    requires forall pk :: Get(a, pk) == Get(b, pk)
    ensures a == b
  {
    assert forall pk :: Get(a, pk) == Get(b, pk) && (pk in a <==> pk in b);
  }

  // ----- the baseline -----

  /** Failed runs in between do not change the baseline. */
  lemma {:induction false} BaselineSurvivesFailures(runs: seq<Run>, earlier: seq<Run>)
    requires OnlyFailuresAfter(runs, earlier) && earlier != []
    requires earlier[|earlier| - 1].status != Failed && earlier[|earlier| - 1].references.Some?
    ensures LatestReferences(runs, BASELINE_RUNS) == earlier[|earlier| - 1].references.value
  {
    if |runs| > |earlier| {
      var n := |runs| - 1;
      assert runs[..n][..|earlier|] == runs[..|earlier|];
      BaselineSurvivesFailures(runs[..n], earlier);
    } else {
      assert runs == earlier;
    }
  }

  /** The catalog after a run, with only failed runs since. */
  ghost predicate Rests(after: Catalog, next: Catalog) {
    next == after.(runs := next.runs) && OnlyFailuresAfter(next.runs, after.runs)
  }

  lemma BaselineIsCurrent(before: Catalog, snapshot: Snapshot, after: Catalog, report: Report, next: Catalog)
    requires IsSync(before, snapshot, after, report) && Rests(after, next)
    ensures AreReferences(LatestReferences(next.runs, BASELINE_RUNS), next.listings, next.models, snapshot)
  {
    hide ListingConflict, Drifting, Lacking, AreReferences, Conflicts, LatestReferences, SyncedRow, Matched,
         FixedPriced;
    BaselineSurvivesFailures(next.runs, after.runs);
  }

  // ----- repeating a run -----

  /** Against a current baseline no listing has changed its price, and conflicts do not depend on the baseline. */
  lemma CurrentBaseline(listings: seq<Listing>, i: nat, models: seq<Model>, snapshot: Snapshot,
                        p: map<Id, CostReference>, q: map<Id, CostReference>)
    requires i < |listings| && AreReferences(p, listings, models, snapshot)
      && AreReferences(q, listings, models, snapshot)
    ensures ListingConflict(listings[i], models, snapshot, p)
      == ListingConflict(listings[i], models, snapshot, q) != Some(PriceChanged)
  {
    hide ListingCost, IsEnabled, RemoteOf, Trim;
  }

  lemma {:induction false} SameConflicts(listings: seq<Listing>, n: nat, models: seq<Model>, snapshot: Snapshot,
                                         p: map<Id, CostReference>, q: map<Id, CostReference>)
    requires n <= |listings| && AreReferences(p, listings, models, snapshot)
      && AreReferences(q, listings, models, snapshot)
    ensures Conflicts(listings[..n], models, snapshot, p) == Conflicts(listings[..n], models, snapshot, q)
    ensures forall c :: c in Conflicts(listings[..n], models, snapshot, p) ==> c.kind != PriceChanged
  {
    hide ListingConflict, AreReferences, Trim, FindModel;
    if n > 0 {
      SameConflicts(listings, n - 1, models, snapshot, p, q);
      CurrentBaseline(listings, n - 1, models, snapshot, p, q);
      assert listings[..n][..n - 1] == listings[..n - 1];
    }
  }

  lemma SameDrift(listings: seq<Listing>, models: seq<Model>, snapshot: Snapshot, p: map<Id, CostReference>, q: map<Id,
    CostReference>)
    requires AreReferences(p, listings, models, snapshot) && AreReferences(q, listings, models, snapshot)
    ensures Conflicts(listings, models, snapshot, p) == Conflicts(listings, models, snapshot, q)
    ensures forall c :: c in Conflicts(listings, models, snapshot, p) ==> c.kind != PriceChanged
    ensures Drifting(listings, models, snapshot, p) == Drifting(listings, models, snapshot, q)
    ensures forall pk :: HasDriftingListing(pk, listings, models, snapshot, p) <==>
      HasDriftingListing(pk, listings, models, snapshot, q)
  {
    hide ListingConflict, AreReferences, Conflicts;
    forall i | 0 <= i < |listings|
      ensures ListingConflict(listings[i], models, snapshot, p) == ListingConflict(listings[i], models, snapshot, q)
    {
      CurrentBaseline(listings, i, models, snapshot, p, q);
    }
    SameConflicts(listings, |listings|, models, snapshot, p, q);
    assert listings[..|listings|] == listings;
  }

  /** A second run on the same snapshot reports no changed price, whatever the first one met. */
  lemma RerunHasNoPriceChange(first: Catalog, snapshot: Snapshot, after: Catalog, report: Report, second: Catalog,
    again: Catalog, report2: Report)
    requires IsSync(first, snapshot, after, report) && Rests(after, second) && IsSync(second, snapshot, again, report2)
    ensures forall c :: c in report2.conflicts ==> c.kind != PriceChanged
  {
    hide ListingConflict, Drifting, Lacking, AreReferences, Conflicts, LatestReferences, SyncedRow, Matched,
         FixedPriced;
    BaselineIsCurrent(first, snapshot, after, report, second);
    var previous := LatestReferences(second.runs, BASELINE_RUNS);
    SameDrift(second.listings, second.models, snapshot, previous, previous);
  }

  lemma LostIffUnmatched(pk: Id, models: seq<Model>, listings: seq<Listing>, prices: map<Id, PriceRow>,
    snapshot: Snapshot)
    requires Keyed(models, listings)
    ensures HasLostReference(pk, models, prices, snapshot) <==>
      var model := FindModel(models, pk);
      pk in prices && model.Some? && FindRemote(snapshot.models, model.value.modelId) == None
  {
    hide FindRemote, FindModel;
    var model := FindModel(models, pk);
    if model.Some? {
      var k :| 0 <= k < |models| && models[k] == model.value;
      assert forall i :: 0 <= i < |models| && models[i].id == pk ==> i == k;
    } else {
      assert forall i :: 0 <= i < |models| ==> models[i] in models;
    }
  }

  lemma SyncedTwice(pk: Id, second: Catalog, again: Catalog, snapshot: Snapshot, report: Report, third: Catalog)
    requires Keyed(second.models, second.listings) && IsSync(second, snapshot, again, report) && Rests(again, third)
    requires HasDriftingListing(pk, second.listings, second.models, snapshot,
      LatestReferences(second.runs, BASELINE_RUNS)) <==>
      HasDriftingListing(pk, second.listings, second.models, snapshot, LatestReferences(third.runs, BASELINE_RUNS))
    ensures SyncedRow(pk, third, snapshot) == SyncedRow(pk, second, snapshot)
  {
    hide FindRemote, FindModel, HasDriftingListing, HasLostReference, LatestReferences, Drifting, Lacking, Matched,
         FixedPriced, AreReferences,
      Conflicts;
    LostIffUnmatched(pk, second.models, second.listings, second.prices, snapshot);
    LostIffUnmatched(pk, second.models, second.listings, again.prices, snapshot);
    assert Get(again.prices, pk) == SyncedRow(pk, second, snapshot);
  }

  /** From the second run on the same snapshot every run gives the same report and leaves the same rows,
      also when failed runs come in between. */
  lemma SyncReachesFixpoint(first: Catalog, snapshot: Snapshot, after: Catalog, report: Report,
                            second: Catalog, again: Catalog, report2: Report, third: Catalog, last: Catalog,
                              report3: Report)
    requires Keyed(first.models, first.listings)
    requires IsSync(first, snapshot, after, report) && Rests(after, second)
    requires IsSync(second, snapshot, again, report2) && Rests(again, third)
    requires IsSync(third, snapshot, last, report3)
    ensures report3 == report2 && last.prices == again.prices
  {
    hide ListingConflict, Drifting, Lacking, AreReferences, Conflicts, LatestReferences, SyncedRow, Matched,
         FixedPriced, HasDriftingListing;
    BaselineIsCurrent(first, snapshot, after, report, second);
    BaselineIsCurrent(second, snapshot, again, report2, third);
    SameDrift(second.listings, second.models, snapshot,
              LatestReferences(second.runs, BASELINE_RUNS), LatestReferences(third.runs, BASELINE_RUNS));
    forall pk ensures Get(last.prices, pk) == Get(again.prices, pk) {
      SyncedTwice(pk, second, again, snapshot, report2, third);
    }
    SameRows(last.prices, again.prices);
  }
}
