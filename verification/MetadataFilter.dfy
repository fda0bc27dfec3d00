/** The metadata filter service: loading the supplier policy, filtering models and vendors by it, and
    deriving the ratio maps. Strings are sequences of code points, which Go's byte order compares alike. */
module MetadataFilter {
  import opened Wrappers

  type Rune = r: int | 0 <= r < 0x11_0000
  type Name = seq<Rune>

  // ----- strings -----

  predicate IsGoSpace(r: Rune) {
    || 0x09 <= r <= 0x0D || r == 0x20 || r == 0x85 || r == 0xA0 || r == 0x1680 || 0x2000 <= r <= 0x200A
    || r == 0x2028 || r == 0x2029 || r == 0x202F || r == 0x205F || r == 0x3000
  }

  /** `strings.TrimSpace(s) == ""` */
  predicate IsBlank(s: Name) {
    forall i :: 0 <= i < |s| ==> IsGoSpace(s[i])
  }

  /** `s != strings.TrimSpace(s) || s == ""` */
  predicate IsUntidy(s: Name) {
    s == [] || IsGoSpace(s[0]) || IsGoSpace(s[|s| - 1])
  }

  predicate Less(a: Name, b: Name) {
    if b == [] then false
    else if a == [] then true
    else if a[0] != b[0] then a[0] < b[0]
    else Less(a[1..], b[1..])
  }

  lemma {:induction false} LessTrichotomy(a: Name, b: Name)
    ensures Less(a, b) || a == b || Less(b, a)
    ensures !(Less(a, b) && Less(b, a)) && (a == b ==> !Less(a, b))
  {
    if a != [] && b != [] && a[0] == b[0] {
      LessTrichotomy(a[1..], b[1..]);
      assert a == [a[0]] + a[1..] && b == [b[0]] + b[1..];
    }
  }

  lemma {:induction false} LessTransitive(a: Name, b: Name, c: Name)
    requires Less(a, b) && Less(b, c)
    ensures Less(a, c)
  {
    if a != [] && a[0] == b[0] == c[0] {
      LessTransitive(a[1..], b[1..], c[1..]);
    }
  }

  // ----- the policy -----

  datatype FilePolicy = FilePolicy(officialVendors: seq<Name>, excludeModelsByVendor: map<Name, seq<Name>>)
  datatype Policy = Policy(officialVendors: set<Name>, excludeModelsByVendor: map<Name, set<Name>>)

  function Elements(names: seq<Name>): set<Name> {
    set i | 0 <= i < |names| :: names[i]
  }

  predicate IsTidyList(names: seq<Name>) {
    && (forall i :: 0 <= i < |names| ==> !IsUntidy(names[i]))
    && (forall i, j :: 0 <= i < j < |names| ==> names[i] != names[j])
  }

  predicate IsAcceptedPolicy(parsed: FilePolicy) {
    && parsed.officialVendors != [] && IsTidyList(parsed.officialVendors)
    && forall v :: v in parsed.excludeModelsByVendor ==>
      !IsUntidy(v) && v in Elements(parsed.officialVendors) && IsTidyList(parsed.excludeModelsByVendor[v])
  }

  function LoadedPolicy(parsed: FilePolicy): Policy {
    Policy(Elements(parsed.officialVendors),
           map v | v in parsed.excludeModelsByVendor :: Elements(parsed.excludeModelsByVendor[v]))
  }

  /** The loop that both lists go through: no blank and no repeated value. */
  method LoadNames(names: seq<Name>) returns (r: Option<set<Name>>)
    ensures r == if IsTidyList(names) then Some(Elements(names)) else None
  {
    var seen: set<Name> := {};
    for i := 0 to |names|
      invariant IsTidyList(names[..i]) && seen == Elements(names[..i])
    {
      var name := names[i];
      assert names[..i + 1] == names[..i] + [name];
      if IsUntidy(name) {
        return None;
      }
      if name in seen {
        return None;
      }
      assert forall j :: 0 <= j < i ==> names[..i][j] in seen;
      assert Elements(names[..i + 1]) == Elements(names[..i]) + {name} by {
        assert names[..i + 1][i] == name;
        assert forall j :: 0 <= j < i ==> names[..i + 1][j] == names[..i][j];
      }
      seen := seen + {name};
    }
    assert names[..|names|] == names;
    return Some(seen);
  }

  /** `Load`, on the parsed file: the map is visited in any order. */
  method Load(parsed: FilePolicy) returns (r: Option<Policy>)
    ensures r == if IsAcceptedPolicy(parsed) then Some(LoadedPolicy(parsed)) else None
  {
    if parsed.officialVendors == [] {
      return None;
    }
    var vendors := LoadNames(parsed.officialVendors);
    if vendors == None {
      return None;
    }
    var excluded: map<Name, set<Name>> := map[];
    var rest := parsed.excludeModelsByVendor.Keys;
    while rest != {}
      invariant rest <= parsed.excludeModelsByVendor.Keys
      invariant excluded == map v | v in parsed.excludeModelsByVendor.Keys - rest ::
        Elements(parsed.excludeModelsByVendor[v])
      invariant forall v :: v in parsed.excludeModelsByVendor.Keys - rest ==>
        !IsUntidy(v) && v in vendors.value && IsTidyList(parsed.excludeModelsByVendor[v])
      decreases |rest|
    {
      var vendor :| vendor in rest;
      if IsUntidy(vendor) || vendor !in vendors.value {
        return None;
      }
      var models := LoadNames(parsed.excludeModelsByVendor[vendor]);
      if models == None {
        return None;
      }
      excluded := excluded[vendor := models.value];
      rest := rest - {vendor};
    }
    assert parsed.excludeModelsByVendor.Keys - rest == parsed.excludeModelsByVendor.Keys;
    assert excluded == LoadedPolicy(parsed).excludeModelsByVendor;
    return Some(Policy(vendors.value, excluded));
  }

  predicate AllowsVendor(policy: Policy, vendor: Name) {
    vendor in policy.officialVendors
  }

  predicate ExcludesModel(policy: Policy, vendor: Name, model: Name) {
    vendor in policy.excludeModelsByVendor && model in policy.excludeModelsByVendor[vendor]
  }

  // ----- filtering -----

  datatype Model = Model(modelName: Name, vendorName: Name, ratioModel: Option<real>, ratioCompletion: Option<real>,
    ratioCache: Option<real>)
  datatype Vendor = Vendor(name: Name, icon: Name)
  datatype Conflict = Conflict(modelName: Name, vendors: seq<Name>)
  datatype Outcome = Built(models: seq<Model>, vendors: seq<Vendor>) | Invalid | Duplicates(conflicts: seq<Conflict>)

  predicate Keeps(policy: Policy, model: Model) {
    AllowsVendor(policy, model.vendorName) && !ExcludesModel(policy, model.vendorName, model.modelName)
  }

  /** The kept models, in their order. */
  function Filtered(models: seq<Model>, policy: Policy): (r: seq<Model>)
    ensures forall i :: 0 <= i < |r| ==> r[i] in models && Keeps(policy, r[i])
  {
    if models == [] then []
    else
      var n := |models| - 1;
      var before := Filtered(models[..n], policy);
      if Keeps(policy, models[n]) then before + [models[n]] else before
  }

  predicate VendorsNamedOnce(vendors: seq<Vendor>) {
    && (forall i :: 0 <= i < |vendors| ==> vendors[i].name != [])
    && (forall i, j :: 0 <= i < j < |vendors| ==> vendors[i].name != vendors[j].name)
  }

  function FindVendor(vendors: seq<Vendor>, name: Name): (r: Option<Vendor>)
    ensures r.Some? ==> r.value in vendors && r.value.name == name
    ensures r == None ==> forall i :: 0 <= i < |vendors| ==> vendors[i].name != name
  {
    if vendors == [] then None
    else if vendors[|vendors| - 1].name == name then Some(vendors[|vendors| - 1])
    else FindVendor(vendors[..|vendors| - 1], name)
  }

  /** A kept model is named and has a vendor with an icon. */
  predicate IsComplete(model: Model, vendors: seq<Vendor>) {
    model.modelName != [] && FindVendor(vendors, model.vendorName).Some?
      && !IsBlank(FindVendor(vendors, model.vendorName).value.icon)
  }

  /** The vendors of the models with one name, in model order. */
  function VendorsOf(models: seq<Model>, name: Name): seq<Name> {
    if models == [] then []
    else
      var n := |models| - 1;
      VendorsOf(models[..n], name) + (if models[n].modelName == name then [models[n].vendorName] else [])
  }

  predicate IsSortedByName(conflicts: seq<Conflict>) {
    forall i, j :: 0 <= i < j < |conflicts| ==> Less(conflicts[i].modelName, conflicts[j].modelName)
  }

  /** Exactly the conflicts among `models`: names with several vendors, each with all of its vendors. */
  ghost predicate AreTheConflicts(conflicts: seq<Conflict>, models: seq<Model>) {
    && (forall c :: c in conflicts ==> |c.vendors| > 1 && c.vendors == VendorsOf(models, c.modelName))
    && (forall name :: |VendorsOf(models, name)| > 1 ==> Conflict(name, VendorsOf(models, name)) in conflicts)
  }

  /** The position of the first model of a vendor, or the number of models. */
  function FirstUse(models: seq<Model>, vendorName: Name): (r: nat)
    ensures r <= |models| && (r < |models| ==> models[r].vendorName == vendorName)
    ensures forall j :: 0 <= j < r ==> models[j].vendorName != vendorName
  {
    if models == [] then 0
    else
      var n := |models| - 1;
      var before := FirstUse(models[..n], vendorName);
      if before < n || models[n].vendorName == vendorName then before else n + 1
  }

  /** The vendors in use, in the order of their first model. */
  function UsedVendors(models: seq<Model>, vendors: seq<Vendor>): seq<Vendor> {
    if models == [] then []
    else
      var n := |models| - 1;
      var before := UsedVendors(models[..n], vendors);
      match FindVendor(vendors, models[n].vendorName)
      case Some(vendor) => if FirstUse(models[..n], models[n].vendorName) < n then before else before + [vendor]
      case None => before
  }

  predicate AreComplete(models: seq<Model>, vendors: seq<Vendor>) {
    forall i :: 0 <= i < |models| ==> IsComplete(models[i], vendors)
  }

  /** What `Build` returns. */
  ghost predicate IsOutcome(r: Outcome, models: seq<Model>, vendors: seq<Vendor>, policy: Policy) {
    var kept := Filtered(models, policy);
    if !VendorsNamedOnce(vendors) || !AreComplete(kept, vendors) then r == Invalid
    else if exists name :: |VendorsOf(kept, name)| > 1 then
      r.Duplicates? && IsSortedByName(r.conflicts) && AreTheConflicts(r.conflicts, kept)
    else r == Built(kept, UsedVendors(kept, vendors))
  }

  // ----- the loops -----

  ghost predicate IsIndex(vendorsByName: map<Name, Vendor>, vendors: seq<Vendor>) {
    forall name ::
      FindVendor(vendors, name) == if name in vendorsByName then Some(vendorsByName[name]) else None
  }

  method IndexVendors(vendors: seq<Vendor>) returns (r: Option<map<Name, Vendor>>)
    ensures r.Some? <==> VendorsNamedOnce(vendors)
    ensures r.Some? ==> IsIndex(r.value, vendors)
  {
    var vendorsByName: map<Name, Vendor> := map[];
    for i := 0 to |vendors|
      invariant VendorsNamedOnce(vendors[..i]) && IsIndex(vendorsByName, vendors[..i])
    {
      var vendor := vendors[i];
      if vendor.name == [] {
        return None;
      }
      if vendor.name in vendorsByName {
        assert FindVendor(vendors[..i], vendor.name).Some?;
        return None;
      }
      assert vendors[..i + 1][..i] == vendors[..i];
      assert FindVendor(vendors[..i], vendor.name) == None;
      vendorsByName := vendorsByName[vendor.name := vendor];
    }
    assert vendors[..|vendors|] == vendors;
    return Some(vendorsByName);
  }

  ghost predicate AreGroups(modelVendors: map<Name, seq<Name>>, models: seq<Model>) {
    forall name :: VendorsOf(models, name) == if name in modelVendors then modelVendors[name] else []
  }

  lemma FilteredStep(models: seq<Model>, policy: Policy, i: nat)
    requires i < |models|
    ensures Filtered(models[..i + 1], policy) ==
      Filtered(models[..i], policy) + (if Keeps(policy, models[i]) then [models[i]] else [])
  {
    assert models[..i + 1][..i] == models[..i];
  }

  lemma {:induction false} FilteredPrefix(models: seq<Model>, policy: Policy, i: nat)
    requires i <= |models|
    ensures Filtered(models[..i], policy) <= Filtered(models, policy)
    decreases |models| - i
  {
    if i < |models| {
      FilteredStep(models, policy, i);
      FilteredPrefix(models, policy, i + 1);
    } else {
      assert models[..i] == models;
    }
  }

  lemma FilteredEmpty(models: seq<Model>, vendors: seq<Vendor>, policy: Policy)
    requires models == []
    ensures Filtered(models, policy) == [] && AreComplete([], vendors) && AreGroups(map[], [])
  {
  }

  lemma GroupsStep(modelVendors: map<Name, seq<Name>>, models: seq<Model>, model: Model)
    requires AreGroups(modelVendors, models)
    ensures AreGroups(
      modelVendors[model.modelName :=
        (if model.modelName in modelVendors then modelVendors[model.modelName] else []) + [model.vendorName]],
      models + [model])
  {
    assert (models + [model])[..|models|] == models;
  }

  lemma CompleteInPrefix(prefix: seq<Model>, models: seq<Model>, vendors: seq<Vendor>)
    requires prefix <= models
    ensures AreComplete(models, vendors) ==> AreComplete(prefix, vendors)
  {
    hide IsComplete;
    assert forall i :: 0 <= i < |prefix| ==> prefix[i] == models[i];
  }

  lemma CompleteStep(models: seq<Model>, vendors: seq<Vendor>, model: Model)
    ensures AreComplete(models + [model], vendors) <==> AreComplete(models, vendors) && IsComplete(model, vendors)
  {
    hide IsComplete;
    assert (models + [model])[|models|] == model;
    assert forall i :: 0 <= i < |models| ==> (models + [model])[i] == models[i];
  }

  method FilterModels(models: seq<Model>, vendorsByName: map<Name, Vendor>, policy: Policy, ghost vendors: seq<Vendor>)
    returns (r: Option<(seq<Model>, map<Name, seq<Name>>)>)
    requires IsIndex(vendorsByName, vendors)
    ensures r.Some? <==> AreComplete(Filtered(models, policy), vendors)
    ensures r.Some? ==> r.value.0 == Filtered(models, policy) && AreGroups(r.value.1, r.value.0)
  {
    hide FindVendor, IsBlank, Keeps, Filtered, AreGroups, AreComplete, VendorsOf;
    var filteredModels: seq<Model> := [];
    var modelVendors: map<Name, seq<Name>> := map[];
    FilteredEmpty(models[..0], vendors, policy);
    for i := 0 to |models|
      invariant filteredModels == Filtered(models[..i], policy)
      invariant AreComplete(filteredModels, vendors) && AreGroups(modelVendors, filteredModels)
    {
      var model := models[i];
      FilteredStep(models, policy, i);
      if !Keeps(policy, model) {
        continue;
      }
      FilteredPrefix(models, policy, i + 1);
      CompleteStep(filteredModels, vendors, model);
      CompleteInPrefix(filteredModels + [model], Filtered(models, policy), vendors);
      GroupsStep(modelVendors, filteredModels, model);
      if model.modelName == [] {
        return None;
      }
      if model.vendorName !in vendorsByName {
        return None;
      }
      if IsBlank(vendorsByName[model.vendorName].icon) {
        return None;
      }
      filteredModels := filteredModels + [model];
      modelVendors := modelVendors[model.modelName :=
        (if model.modelName in modelVendors then modelVendors[model.modelName] else []) + [model.vendorName]];
    }
    assert models[..|models|] == models;
    return Some((filteredModels, modelVendors));
  }

  /** The loop over the groups, which Go visits in an arbitrary order. */
  method CollectConflicts(modelVendors: map<Name, seq<Name>>, ghost models: seq<Model>)
    returns (duplicates: seq<Conflict>)
    requires AreGroups(modelVendors, models)
    ensures AreTheConflicts(duplicates, models)
    ensures forall i, j :: 0 <= i < j < |duplicates| ==> duplicates[i].modelName != duplicates[j].modelName
  {
    hide VendorsOf;
    duplicates := [];
    var rest := modelVendors.Keys;
    while rest != {}
      invariant rest <= modelVendors.Keys
      invariant forall c :: c in duplicates ==>
        c.modelName in modelVendors.Keys - rest && |c.vendors| > 1 && c.vendors == modelVendors[c.modelName]
      invariant forall name :: name in modelVendors.Keys - rest && |modelVendors[name]| > 1 ==>
        Conflict(name, modelVendors[name]) in duplicates
      invariant forall i, j :: 0 <= i < j < |duplicates| ==> duplicates[i].modelName != duplicates[j].modelName
      decreases |rest|
    {
      var modelName :| modelName in rest;
      rest := rest - {modelName};
      if |modelVendors[modelName]| > 1 {
        assert forall i :: 0 <= i < |duplicates| ==> duplicates[i] in duplicates;
        duplicates := duplicates + [Conflict(modelName, modelVendors[modelName])];
        assert duplicates[|duplicates| - 1] == Conflict(modelName, modelVendors[modelName]);
      }
    }
  }

  /** Inserts a conflict into a list sorted by name. */
  function Insert(conflicts: seq<Conflict>, c: Conflict): (r: seq<Conflict>)
    requires IsSortedByName(conflicts) && forall i :: 0 <= i < |conflicts| ==> conflicts[i].modelName != c.modelName
    ensures IsSortedByName(r)
    ensures forall x :: x in r <==> x == c || x in conflicts
  {
    if conflicts == [] then [c]
    else
      var n := |conflicts| - 1;
      LessTrichotomy(conflicts[n].modelName, c.modelName);
      assert conflicts == conflicts[..n] + [conflicts[n]];
      if Less(conflicts[n].modelName, c.modelName) then
        assert forall i :: 0 <= i < n ==> Less(conflicts[i].modelName, c.modelName) by {
          forall i | 0 <= i < n ensures Less(conflicts[i].modelName, c.modelName) {
            LessTransitive(conflicts[i].modelName, conflicts[n].modelName, c.modelName);
          }
        }
        conflicts + [c]
      else
        var r := Insert(conflicts[..n], c) + [conflicts[n]];
        assert forall i :: 0 <= i < |r| - 1 ==> r[i] in Insert(conflicts[..n], c);
        assert forall i :: 0 <= i < n ==> conflicts[..n][i] == conflicts[i];
        r
  }

  /** `sort.Slice` by name, as an insertion sort. */
  method SortByName(duplicates: seq<Conflict>) returns (sorted: seq<Conflict>)
    requires forall i, j :: 0 <= i < j < |duplicates| ==> duplicates[i].modelName != duplicates[j].modelName
    ensures IsSortedByName(sorted) && forall c :: c in sorted <==> c in duplicates
  {
    sorted := [];
    for i := 0 to |duplicates|
      invariant IsSortedByName(sorted) && forall c :: c in sorted <==> c in duplicates[..i]
    {
      assert forall j :: 0 <= j < |sorted| ==> sorted[j] in duplicates[..i];
      sorted := Insert(sorted, duplicates[i]);
      assert duplicates[..i + 1] == duplicates[..i] + [duplicates[i]];
    }
    assert duplicates[..|duplicates|] == duplicates;
  }

  method CollectVendors(models: seq<Model>, vendorsByName: map<Name, Vendor>, ghost vendors: seq<Vendor>)
    returns (filteredVendors: seq<Vendor>)
    requires IsIndex(vendorsByName, vendors) && AreComplete(models, vendors)
    ensures filteredVendors == UsedVendors(models, vendors)
  {
    hide FindVendor, IsBlank, FirstUse;
    filteredVendors := [];
    var usedVendors: set<Name> := {};
    for i := 0 to |models|
      invariant filteredVendors == UsedVendors(models[..i], vendors)
      invariant forall name :: name in usedVendors <==> FirstUse(models[..i], name) < i
    {
      var model := models[i];
      assert IsComplete(models[i], vendors);
      assert models[..i + 1][..i] == models[..i];
      FirstUseStep(models, i);
      if model.vendorName in usedVendors {
        continue;
      }
      filteredVendors := filteredVendors + [vendorsByName[model.vendorName]];
      usedVendors := usedVendors + {model.vendorName};
    }
    assert models[..|models|] == models;
  }

  lemma FirstUseStep(models: seq<Model>, i: nat)
    requires i < |models|
    ensures forall name :: FirstUse(models[..i + 1], name) < i + 1 <==>
      FirstUse(models[..i], name) < i || name == models[i].vendorName
  {
    assert models[..i + 1][..i] == models[..i];
  }

  method Build(models: seq<Model>, vendors: seq<Vendor>, policy: Policy) returns (r: Outcome)
    ensures IsOutcome(r, models, vendors, policy)
  {
    hide Filtered, VendorsOf, UsedVendors, VendorsNamedOnce, FindVendor, AreComplete;
    var vendorsByName := IndexVendors(vendors);
    if vendorsByName == None {
      return Invalid;
    }
    var filtered := FilterModels(models, vendorsByName.value, policy, vendors);
    if filtered == None {
      return Invalid;
    }
    var (filteredModels, modelVendors) := filtered.value;
    var duplicates := CollectConflicts(modelVendors, filteredModels);
    if |duplicates| > 0 {
      assert duplicates[0] in duplicates;
      var sorted := SortByName(duplicates);
      return Duplicates(sorted);
    }
    var filteredVendors := CollectVendors(filteredModels, vendorsByName.value, vendors);
    return Built(filteredModels, filteredVendors);
  }

  // ----- the ratio maps -----

  datatype Ratio = ModelRatio | CompletionRatio | CacheRatio

  function RatioOf(model: Model, kind: Ratio): Option<real> {
    match kind
    case ModelRatio => model.ratioModel
    case CompletionRatio => model.ratioCompletion
    case CacheRatio => model.ratioCache
  }

  datatype RatioConfig = RatioConfig(modelRatio: map<Name, real>, completionRatio: map<Name, real>,
                                     cacheRatio: map<Name, real>, modelPrice: map<Name, real>)

  function RatioMap(config: RatioConfig, kind: Ratio): map<Name, real> {
    match kind
    case ModelRatio => config.modelRatio
    case CompletionRatio => config.completionRatio
    case CacheRatio => config.cacheRatio
  }

  /** The ratio of the last model with that name that has one. */
  function LastRatio(models: seq<Model>, name: Name, kind: Ratio): Option<real> {
    if models == [] then None
    else
      var n := |models| - 1;
      if models[n].modelName == name && RatioOf(models[n], kind).Some? then RatioOf(models[n], kind)
      else LastRatio(models[..n], name, kind)
  }

  /** The map holds, for each name, the last ratio of that kind. */
  ghost predicate IsRatioMap(ratios: map<Name, real>, models: seq<Model>, kind: Ratio) {
    forall name :: LastRatio(models, name, kind) == if name in ratios then Some(ratios[name]) else None
  }

  ghost predicate IsRatioConfig(config: RatioConfig, models: seq<Model>) {
    config.modelPrice == map[] && forall kind :: IsRatioMap(RatioMap(config, kind), models, kind)
  }

  function WithRatio(ratios: map<Name, real>, name: Name, ratio: Option<real>): map<Name, real> {
    match ratio
    case None => ratios
    case Some(value) => ratios[name := value]
  }

  lemma RatioMapStep(ratios: map<Name, real>, models: seq<Model>, i: nat, kind: Ratio)
    requires i < |models| && IsRatioMap(ratios, models[..i], kind)
    ensures IsRatioMap(WithRatio(ratios, models[i].modelName, RatioOf(models[i], kind)), models[..i + 1], kind)
  {
    hide RatioOf;
    assert models[..i + 1][..i] == models[..i];
  }

  lemma RatioStep(config: RatioConfig, models: seq<Model>, i: nat)
    requires i < |models| && IsRatioConfig(config, models[..i])
    ensures IsRatioConfig(
      RatioConfig(WithRatio(config.modelRatio, models[i].modelName, models[i].ratioModel),
                  WithRatio(config.completionRatio, models[i].modelName, models[i].ratioCompletion),
                  WithRatio(config.cacheRatio, models[i].modelName, models[i].ratioCache), config.modelPrice),
      models[..i + 1])
  {
    hide IsRatioMap, WithRatio;
    RatioMapStep(RatioMap(config, ModelRatio), models, i, ModelRatio);
    RatioMapStep(RatioMap(config, CompletionRatio), models, i, CompletionRatio);
    RatioMapStep(RatioMap(config, CacheRatio), models, i, CacheRatio);
  }

  method BuildTokenRatioConfig(models: seq<Model>) returns (config: RatioConfig)
    ensures IsRatioConfig(config, models)
  {
    hide IsRatioConfig;
    config := RatioConfig(map[], map[], map[], map[]);
    NoRatios();
    assert models[..0] == [];
    for i := 0 to |models|
      invariant IsRatioConfig(config, models[..i])
    {
      var model := models[i];
      RatioStep(config, models, i);
      if model.ratioModel.Some? {
        config := config.(modelRatio := config.modelRatio[model.modelName := model.ratioModel.value]);
      }
      if model.ratioCompletion.Some? {
        config := config.(completionRatio := config.completionRatio[model.modelName := model.ratioCompletion.value]);
      }
      if model.ratioCache.Some? {
        config := config.(cacheRatio := config.cacheRatio[model.modelName := model.ratioCache.value]);
      }
    }
    assert models[..|models|] == models;
  }

  lemma NoRatios()
    ensures IsRatioConfig(RatioConfig(map[], map[], map[], map[]), [])
  {
  }
}
