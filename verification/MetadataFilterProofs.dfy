/** What one filtering run guarantees: an order-preserving filter with unique names and exactly the used
    vendors, or the conflicts whatever the order of the map; running it on its own result changes nothing. */
module MetadataFilterProofs {
  import opened Wrappers
  import opened MetadataFilter

  // ----- the filter keeps the order -----

  /** The positions of the kept models. */
  function KeptPositions(models: seq<Model>, policy: Policy): (r: seq<nat>)
    ensures forall i :: 0 <= i < |r| ==> r[i] < |models| && Keeps(policy, models[r[i]])
    ensures forall k :: 0 <= k < |models| && Keeps(policy, models[k]) ==> k in r
    ensures forall i, j :: 0 <= i < j < |r| ==> r[i] < r[j]
  {
    if models == [] then []
    else
      var n := |models| - 1;
      var before := KeptPositions(models[..n], policy);
      assert forall k :: 0 <= k < n ==> models[..n][k] == models[k];
      if Keeps(policy, models[n]) then before + [n] else before
  }

  lemma {:induction false} FilteredKeepsOrder(models: seq<Model>, policy: Policy)
    ensures |Filtered(models, policy)| == |KeptPositions(models, policy)|
    ensures forall i :: 0 <= i < |Filtered(models, policy)| ==>
      Filtered(models, policy)[i] == models[KeptPositions(models, policy)[i]]
  {
    hide Keeps;
    if models != [] {
      FilteredKeepsOrder(models[..|models| - 1], policy);
    }
  }

  lemma {:induction false} FilteredTwice(models: seq<Model>, policy: Policy)
    requires forall i :: 0 <= i < |models| ==> Keeps(policy, models[i])
    ensures Filtered(models, policy) == models
  {
    hide Keeps;
    if models != [] {
      FilteredTwice(models[..|models| - 1], policy);
      assert models == models[..|models| - 1] + [models[|models| - 1]];
    }
  }

  // ----- names -----

  predicate NamesDistinct(models: seq<Model>) {
    forall i, j :: 0 <= i < j < |models| ==> models[i].modelName != models[j].modelName
  }

  lemma {:induction false} NamedOnce(models: seq<Model>, name: Name)
    ensures VendorsOf(models, name) == [] <==> forall i :: 0 <= i < |models| ==> models[i].modelName != name
    ensures |VendorsOf(models, name)| > 1 <==>
      exists i, j :: 0 <= i < j < |models| && models[i].modelName == models[j].modelName == name
  {
    if models != [] {
      var n := |models| - 1;
      NamedOnce(models[..n], name);
      assert forall i :: 0 <= i < n ==> models[..n][i] == models[i];
      if models[n].modelName == name && VendorsOf(models[..n], name) != [] {
        var i :| 0 <= i < n && models[..n][i].modelName == name;
        assert models[i].modelName == models[n].modelName == name;
      }
      if |VendorsOf(models[..n], name)| > 1 {
        var i, j :| 0 <= i < j < n && models[..n][i].modelName == models[..n][j].modelName == name;
        assert models[i].modelName == models[j].modelName == name;
      }
    }
  }

  lemma NoConflictIffDistinct(models: seq<Model>)
    ensures (exists name :: |VendorsOf(models, name)| > 1) <==> !NamesDistinct(models)
  {
    hide VendorsOf;
    if name :| |VendorsOf(models, name)| > 1 {
      NamedOnce(models, name);
    }
    if i, j :| 0 <= i < j < |models| && models[i].modelName == models[j].modelName {
      NamedOnce(models, models[i].modelName);
    }
  }

  // ----- the conflicts do not depend on the order of the map -----

  lemma FirstIsLeast(a: seq<Conflict>, c: Conflict)
    requires IsSortedByName(a) && c in a
    ensures c == a[0] || Less(a[0].modelName, c.modelName)
  {
  }

  lemma {:induction false} SortedListsAgree(a: seq<Conflict>, b: seq<Conflict>)
    requires IsSortedByName(a) && IsSortedByName(b)
    requires forall c :: c in a <==> c in b
    ensures a == b
  {
    hide Less, IsSortedByName;
    assert (forall i :: 0 <= i < |a| ==> a[i] in b) && (forall i :: 0 <= i < |b| ==> b[i] in a);
    if a != [] && b != [] {
      FirstIsLeast(a, b[0]);
      FirstIsLeast(b, a[0]);
      LessTrichotomy(a[0].modelName, b[0].modelName);
      SortedTail(a);
      SortedTail(b);
      SortedListsAgree(a[1..], b[1..]);
      assert a == [a[0]] + a[1..] && b == [b[0]] + b[1..];
    }
  }

  lemma SortedTail(a: seq<Conflict>)
    requires a != [] && IsSortedByName(a)
    ensures IsSortedByName(a[1..]) && a[0] !in a[1..]
    ensures forall c :: c in a[1..] <==> c in a && c != a[0]
  {
    hide Less;
    forall i | 0 < i < |a| ensures a[i] != a[0] {
      LessTrichotomy(a[0].modelName, a[i].modelName);
    }
    assert a == [a[0]] + a[1..];
  }

  /** Whatever order the maps are visited in, `Build` has one outcome. */
  lemma OutcomeDetermined(r: Outcome, q: Outcome, models: seq<Model>, vendors: seq<Vendor>, policy: Policy)
    requires IsOutcome(r, models, vendors, policy) && IsOutcome(q, models, vendors, policy)
    ensures r == q
  {
    hide Filtered, VendorsOf, UsedVendors, VendorsNamedOnce, FindVendor, AreComplete, IsSortedByName;
    if r.Duplicates? && q.Duplicates? {
      SortedListsAgree(r.conflicts, q.conflicts);
    }
  }

  // ----- the vendors -----

  /** The vendors of `Build`: the used ones, once each, in the order of their first use. */
  ghost predicate AreTheUsedVendors(used: seq<Vendor>, models: seq<Model>, vendors: seq<Vendor>) {
    && (forall i :: 0 <= i < |used| ==> used[i] in vendors && FirstUse(models, used[i].name) < |models|)
    && (forall j :: 0 <= j < |models| ==> exists i :: 0 <= i < |used| && used[i].name == models[j].vendorName)
    && (forall i, j :: 0 <= i < j < |used| ==> FirstUse(models, used[i].name) < FirstUse(models, used[j].name))
  }

  lemma FirstUseGrows(models: seq<Model>, n: nat)
    requires n + 1 == |models|
    ensures forall name :: FirstUse(models[..n], name) < n ==> FirstUse(models, name) == FirstUse(models[..n], name)
    ensures FirstUse(models[..n], models[n].vendorName) >= n ==> FirstUse(models, models[n].vendorName) == n
  {
  }

  lemma OldVendor(models: seq<Model>, vendors: seq<Vendor>, n: nat, used: seq<Vendor>)
    requires n + 1 == |models| && AreTheUsedVendors(used, models[..n], vendors)
    requires FirstUse(models[..n], models[n].vendorName) < n
    ensures AreTheUsedVendors(used, models, vendors)
  {
    hide FirstUse;
    var k := FirstUse(models[..n], models[n].vendorName);
    assert models[..n][k].vendorName == models[n].vendorName;
    FirstUseGrows(models, n);
    forall j | 0 <= j < |models| ensures exists i :: 0 <= i < |used| && used[i].name == models[j].vendorName {
      var earlier := if j < n then j else k;
      assert models[..n][earlier].vendorName == models[j].vendorName;
    }
  }

  lemma NewVendor(models: seq<Model>, vendors: seq<Vendor>, n: nat, before: seq<Vendor>, vendor: Vendor)
    requires n + 1 == |models| && AreTheUsedVendors(before, models[..n], vendors)
    requires FirstUse(models[..n], models[n].vendorName) >= n
    requires vendor in vendors && vendor.name == models[n].vendorName
    ensures AreTheUsedVendors(before + [vendor], models, vendors)
  {
    hide FirstUse;
    var used := before + [vendor];
    FirstUseGrows(models, n);
    forall j | 0 <= j < |models| ensures exists i :: 0 <= i < |used| && used[i].name == models[j].vendorName {
      if j < n {
        assert models[..n][j] == models[j];
        var i :| 0 <= i < |before| && before[i].name == models[j].vendorName;
        assert used[i] == before[i];
      } else {
        assert used[|before|] == vendor;
      }
    }
    assert forall i :: 0 <= i < |before| ==> used[i] == before[i];
  }

  lemma {:induction false} UsedVendorsExactly(models: seq<Model>, vendors: seq<Vendor>)
    requires AreComplete(models, vendors)
    ensures AreTheUsedVendors(UsedVendors(models, vendors), models, vendors)
  {
    hide FindVendor, FirstUse, IsBlank, AreTheUsedVendors;
    if models == [] {
      NoUsedVendors(models, vendors);
    } else {
      var n := |models| - 1;
      CompleteInPrefix(models[..n], models, vendors);
      UsedVendorsExactly(models[..n], vendors);
      assert IsComplete(models[n], vendors);
      var before, vendor := UsedVendors(models[..n], vendors), FindVendor(vendors, models[n].vendorName).value;
      if FirstUse(models[..n], models[n].vendorName) < n {
        OldVendor(models, vendors, n, before);
      } else {
        NewVendor(models, vendors, n, before, vendor);
      }
    }
  }

  lemma NoUsedVendors(models: seq<Model>, vendors: seq<Vendor>)
    requires models == []
    ensures AreTheUsedVendors([], models, vendors)
  {
  }

  lemma {:induction false} FindTheVendor(vendors: seq<Vendor>, i: nat)
    requires VendorsNamedOnce(vendors) && i < |vendors|
    ensures FindVendor(vendors, vendors[i].name) == Some(vendors[i])
  {
    if i < |vendors| - 1 {
      assert vendors[..|vendors| - 1][i] == vendors[i];
      FindTheVendor(vendors[..|vendors| - 1], i);
    }
  }

  /** What a successful run returns. */
  lemma BuiltIsConsistent(models: seq<Model>, vendors: seq<Vendor>, policy: Policy, built: Outcome)
    requires IsOutcome(built, models, vendors, policy) && built.Built?
    ensures built.models == Filtered(models, policy) && NamesDistinct(built.models)
    ensures AreTheUsedVendors(built.vendors, built.models, vendors)
    ensures VendorsNamedOnce(vendors) && VendorsNamedOnce(built.vendors)
  {
    hide Filtered, VendorsOf, UsedVendors, FindVendor, AreComplete;
    NoConflictIffDistinct(built.models);
    UsedVendorsExactly(built.models, vendors);
  }

  /** A run succeeds exactly when the vendors are named once and the kept models are complete with distinct names. */
  lemma BuiltExactly(models: seq<Model>, vendors: seq<Vendor>, policy: Policy, r: Outcome)
    requires IsOutcome(r, models, vendors, policy)
    ensures r.Built? <==>
      VendorsNamedOnce(vendors) && AreComplete(Filtered(models, policy), vendors)
        && NamesDistinct(Filtered(models, policy))
    ensures r.Duplicates? ==> r.conflicts != []
  {
    hide Filtered, VendorsOf, UsedVendors, VendorsNamedOnce, FindVendor, AreComplete;
    NoConflictIffDistinct(Filtered(models, policy));
    if r.Duplicates? {
      var name :| |VendorsOf(Filtered(models, policy), name)| > 1;
      assert Conflict(name, VendorsOf(Filtered(models, policy), name)) in r.conflicts;
    }
  }

  // ----- idempotence -----

  lemma UsedVendorFound(models: seq<Model>, vendors: seq<Vendor>, used: seq<Vendor>, name: Name)
    requires AreTheUsedVendors(used, models, vendors) && VendorsNamedOnce(vendors) && VendorsNamedOnce(used)
    requires exists j :: 0 <= j < |models| && models[j].vendorName == name
    ensures FindVendor(used, name) == FindVendor(vendors, name)
  {
    hide FindVendor;
    var j :| 0 <= j < |models| && models[j].vendorName == name;
    var i :| 0 <= i < |used| && used[i].name == models[j].vendorName;
    FindTheVendor(used, i);
    assert used[i] in vendors;
    var k :| 0 <= k < |vendors| && vendors[k] == used[i];
    FindTheVendor(vendors, k);
  }

  lemma {:induction false} UsedVendorsSame(models: seq<Model>, vendors: seq<Vendor>, used: seq<Vendor>)
    requires forall i :: 0 <= i < |models| ==>
      FindVendor(used, models[i].vendorName) == FindVendor(vendors, models[i].vendorName)
    ensures UsedVendors(models, used) == UsedVendors(models, vendors)
  {
    hide FindVendor, FirstUse;
    if models != [] {
      UsedVendorsSame(models[..|models| - 1], vendors, used);
    }
  }

  /** Filtering the result again, with its own vendors, returns it. */
  lemma BuildIdempotent(models: seq<Model>, vendors: seq<Vendor>, policy: Policy, built: Outcome, again: Outcome)
    requires IsOutcome(built, models, vendors, policy) && built.Built?
    requires IsOutcome(again, built.models, built.vendors, policy)
    ensures again == built
  {
    hide Filtered, VendorsOf, UsedVendors, VendorsNamedOnce, FindVendor, FirstUse, IsBlank, Keeps;
    BuiltIsConsistent(models, vendors, policy, built);
    FilteredTwice(built.models, policy);
    forall i | 0 <= i < |built.models|
      ensures FindVendor(built.vendors, built.models[i].vendorName) == FindVendor(vendors, built.models[i].vendorName)
    {
      UsedVendorFound(built.models, vendors, built.vendors, built.models[i].vendorName);
    }
    assert AreComplete(built.models, built.vendors) by {
      forall i | 0 <= i < |built.models| ensures IsComplete(built.models[i], built.vendors) {
        assert IsComplete(built.models[i], vendors);
      }
    }
    UsedVendorsSame(built.models, vendors, built.vendors);
  }

  // ----- the ratio maps -----

  lemma {:induction false} LastRatioIsOwn(models: seq<Model>, i: nat, kind: Ratio)
    requires NamesDistinct(models) && i < |models|
    ensures LastRatio(models, models[i].modelName, kind) == RatioOf(models[i], kind)
  {
    var n := |models| - 1;
    if i < n {
      assert models[..n][i] == models[i];
      LastRatioIsOwn(models[..n], i, kind);
    } else {
      NoRatio(models[..n], models[n].modelName, kind);
    }
  }

  lemma {:induction false} NoRatio(models: seq<Model>, name: Name, kind: Ratio)
    ensures (forall i :: 0 <= i < |models| ==> models[i].modelName != name) ==> LastRatio(models, name, kind) == None
    ensures LastRatio(models, name, kind).Some? ==> exists i :: 0 <= i < |models| && models[i].modelName == name
  {
    if models != [] {
      NoRatio(models[..|models| - 1], name, kind);
    }
  }

  /** On a built result each map holds each model's own ratio, and nothing else. */
  lemma RatiosAreOwn(models: seq<Model>, vendors: seq<Vendor>, policy: Policy, built: Outcome, config: RatioConfig,
    kind: Ratio)
    requires IsOutcome(built, models, vendors, policy) && built.Built? && IsRatioConfig(config, built.models)
    ensures forall i :: 0 <= i < |built.models| ==>
      var name := built.models[i].modelName;
      (if name in RatioMap(config, kind) then Some(RatioMap(config, kind)[name]) else None)
        == RatioOf(built.models[i], kind)
    ensures forall name :: name in RatioMap(config, kind) ==>
      exists i :: 0 <= i < |built.models| && built.models[i].modelName == name
  {
    hide IsOutcome, LastRatio, RatioOf, RatioMap;
    assert IsRatioMap(RatioMap(config, kind), built.models, kind);
    BuiltIsConsistent(models, vendors, policy, built);
    forall i | 0 <= i < |built.models|
      ensures LastRatio(built.models, built.models[i].modelName, kind) == RatioOf(built.models[i], kind) {
      LastRatioIsOwn(built.models, i, kind);
    }
    forall name | name in RatioMap(config, kind)
      ensures exists i :: 0 <= i < |built.models| && built.models[i].modelName == name
    {
      NoRatio(built.models, name, kind);
    }
  }
}
