/** What the metadata filter answers, stated on the policy file, the models and the vendors as they stand. */
module MetadataFilterMeaning {
  import opened Wrappers
  import opened MetadataFilter
  import opened MetadataFilterProofs

  // ----- the policy file -----

  /** The white space of Go's `unicode.IsSpace`. */
  ghost const GO_SPACES: set<Rune> :=
    {0x09, 0x0A, 0x0B, 0x0C, 0x0D, 0x20, 0x85, 0xA0, 0x1680, 0x2000, 0x2001, 0x2002, 0x2003, 0x2004, 0x2005, 0x2006,
     0x2007, 0x2008, 0x2009, 0x200A, 0x2028, 0x2029, 0x202F, 0x205F, 0x3000}

  /** Not empty, and no white space at either end. */
  ghost predicate IsTidy(name: Name) {
    name != [] && name[0] !in GO_SPACES && name[|name| - 1] !in GO_SPACES
  }

  ghost predicate AreTidy(names: seq<Name>) {
    && (forall i :: 0 <= i < |names| ==> IsTidy(names[i]))
    && forall i, j :: 0 <= i < j < |names| ==> names[i] != names[j]
  }

  /** The file names vendors, and excludes models of these vendors alone. */
  ghost predicate IsPolicyFile(parsed: FilePolicy) {
    && parsed.officialVendors != [] && AreTidy(parsed.officialVendors)
    && forall vendor :: vendor in parsed.excludeModelsByVendor ==>
      IsTidy(vendor) && vendor in parsed.officialVendors && AreTidy(parsed.excludeModelsByVendor[vendor])
  }

  /** The file names the vendor of the model and does not exclude the model under this vendor. */
  ghost predicate MayStay(parsed: FilePolicy, model: Model) {
    && model.vendorName in parsed.officialVendors
    && !(model.vendorName in parsed.excludeModelsByVendor
         && model.modelName in parsed.excludeModelsByVendor[model.vendorName])
  }

  lemma TidyExactly(name: Name)
    ensures IsUntidy(name) <==> !IsTidy(name)
  {
    if name != [] {
      SpaceExactly(name[0]);
      SpaceExactly(name[|name| - 1]);
    }
  }

  lemma SpaceExactly(r: Rune)
    ensures IsGoSpace(r) <==> r in GO_SPACES
  {
  }

  lemma TidyListExactly(names: seq<Name>)
    ensures IsTidyList(names) <==> AreTidy(names)
  {
    hide IsUntidy, IsTidy;
    forall i | 0 <= i < |names|
      ensures IsUntidy(names[i]) <==> !IsTidy(names[i])
    {
      TidyExactly(names[i]);
    }
  }

  lemma ElementsExactly(names: seq<Name>)
    ensures forall name :: name in Elements(names) <==> name in names
  {
  }

  lemma FileExactly(parsed: FilePolicy)
    ensures IsAcceptedPolicy(parsed) <==> IsPolicyFile(parsed)
  {
    hide IsTidyList, AreTidy, IsUntidy, IsTidy, Elements;
    TidyListExactly(parsed.officialVendors);
    ElementsExactly(parsed.officialVendors);
    forall vendor | vendor in parsed.excludeModelsByVendor
      ensures IsTidyList(parsed.excludeModelsByVendor[vendor]) <==> AreTidy(parsed.excludeModelsByVendor[vendor])
      ensures IsUntidy(vendor) <==> !IsTidy(vendor)
    {
      TidyExactly(vendor);
      TidyListExactly(parsed.excludeModelsByVendor[vendor]);
    }
  }

  lemma StayExactly(parsed: FilePolicy, model: Model)
    ensures Keeps(LoadedPolicy(parsed), model) <==> MayStay(parsed, model)
  {
    hide Elements;
    ElementsExactly(parsed.officialVendors);
    if model.vendorName in parsed.excludeModelsByVendor {
      ElementsExactly(parsed.excludeModelsByVendor[model.vendorName]);
    }
  }

  // ----- the kept models -----

  /** The models at these positions are those that may stay. */
  ghost predicate AreKeptAt(kept: seq<Model>, at: seq<int>, models: seq<Model>, parsed: FilePolicy) {
    && |at| == |kept|
    && (forall j, k :: 0 <= j < k < |at| ==> at[j] < at[k])
    && (forall k :: 0 <= k < |at| ==> 0 <= at[k] < |models| && kept[k] == models[at[k]])
    && forall i :: 0 <= i < |models| ==> (i in at <==> MayStay(parsed, models[i]))
  }

  /** `kept` are the models that may stay, in their order. */
  ghost predicate AreKept(kept: seq<Model>, models: seq<Model>, parsed: FilePolicy) {
    exists at :: AreKeptAt(kept, at, models, parsed)
  }

  lemma KeptExactly(models: seq<Model>, parsed: FilePolicy)
    ensures AreKept(Filtered(models, LoadedPolicy(parsed)), models, parsed)
  {
    hide Keeps, MayStay, LoadedPolicy, Filtered, KeptPositions;
    var policy := LoadedPolicy(parsed);
    var kept := KeptPositions(models, policy);
    var at: seq<int> := seq(|kept|, k requires 0 <= k < |kept| => kept[k]);
    FilteredKeepsOrder(models, policy);
    forall i | 0 <= i < |models|
      ensures i in at <==> MayStay(parsed, models[i])
    {
      StayExactly(parsed, models[i]);
      PositionKept(models, policy, kept, at, i);
    }
    assert AreKeptAt(Filtered(models, policy), at, models, parsed);
  }

  lemma PositionKept(models: seq<Model>, policy: Policy, kept: seq<nat>, at: seq<int>, i: nat)
    requires i < |models| && kept == KeptPositions(models, policy)
    requires |at| == |kept| && forall k :: 0 <= k < |kept| ==> at[k] == kept[k]
    ensures i in at <==> Keeps(policy, models[i])
  {
    hide Keeps;
    if i in at {
      var k :| 0 <= k < |at| && at[k] == i;
      assert kept[k] == i;
    }
    if Keeps(policy, models[i]) {
      assert i in kept;
      var k :| 0 <= k < |kept| && kept[k] == i;
      assert at[k] == i;
    }
  }

  lemma KeptAre(kept: seq<Model>, models: seq<Model>, parsed: FilePolicy, model: Model)
    requires AreKept(kept, models, parsed)
    ensures model in kept <==> model in models && MayStay(parsed, model)
  {
    hide MayStay;
    var at :| AreKeptAt(kept, at, models, parsed);
    if model in kept {
      var k :| 0 <= k < |kept| && kept[k] == model;
      assert at[k] in at;
    }
    if model in models && MayStay(parsed, model) {
      var i :| 0 <= i < |models| && models[i] == model;
      var k :| 0 <= k < |at| && at[k] == i;
      assert kept[k] == model;
    }
  }

  // ----- complete models -----

  ghost predicate AreNamedOnce(vendors: seq<Vendor>) {
    && (forall i :: 0 <= i < |vendors| ==> vendors[i].name != [])
    && forall i, j :: 0 <= i < j < |vendors| ==> vendors[i].name != vendors[j].name
  }

  /** Some vendor of that name has an icon that is more than white space. */
  ghost predicate HasIcon(vendors: seq<Vendor>, name: Name) {
    exists i, j :: 0 <= i < |vendors| && vendors[i].name == name && 0 <= j < |vendors[i].icon|
                   && vendors[i].icon[j] !in GO_SPACES
  }

  ghost predicate AllHaveIcons(kept: seq<Model>, vendors: seq<Vendor>) {
    forall k :: 0 <= k < |kept| ==> kept[k].modelName != [] && HasIcon(vendors, kept[k].vendorName)
  }

  lemma BlankExactly(icon: Name)
    ensures IsBlank(icon) <==> forall j :: 0 <= j < |icon| ==> icon[j] in GO_SPACES
  {
    forall j | 0 <= j < |icon|
      ensures IsGoSpace(icon[j]) <==> icon[j] in GO_SPACES
    {
      SpaceExactly(icon[j]);
    }
  }

  lemma IconExactly(vendors: seq<Vendor>, name: Name)
    requires AreNamedOnce(vendors)
    ensures FindVendor(vendors, name).Some? && !IsBlank(FindVendor(vendors, name).value.icon) <==>
      HasIcon(vendors, name)
  {
    hide FindVendor, IsBlank;
    var found := FindVendor(vendors, name);
    if found.Some? {
      BlankExactly(found.value.icon);
      var i :| 0 <= i < |vendors| && vendors[i] == found.value;
      if !IsBlank(found.value.icon) {
        var j :| 0 <= j < |found.value.icon| && found.value.icon[j] !in GO_SPACES;
        assert vendors[i].icon[j] !in GO_SPACES;
      }
    }
    if i, j :| 0 <= i < |vendors| && vendors[i].name == name && 0 <= j < |vendors[i].icon|
               && vendors[i].icon[j] !in GO_SPACES {
      FindTheVendor(vendors, i);
    }
  }

  lemma CompleteExactly(kept: seq<Model>, vendors: seq<Vendor>)
    requires AreNamedOnce(vendors)
    ensures AreComplete(kept, vendors) <==> AllHaveIcons(kept, vendors)
  {
    hide FindVendor, IsBlank, HasIcon, AreNamedOnce;
    forall k | 0 <= k < |kept|
      ensures IsComplete(kept[k], vendors) <==> kept[k].modelName != [] && HasIcon(vendors, kept[k].vendorName)
    {
      IconExactly(vendors, kept[k].vendorName);
    }
  }

  // ----- conflicts -----

  /** The first position at which the two differ holds the smaller code point in `a`, or `a` ends there. */
  ghost predicate Precedes(a: Name, b: Name) {
    exists k :: 0 <= k <= |a| && k < |b| && a[..k] == b[..k] && (k == |a| || a[k] < b[k])
  }

  lemma {:induction false} LessExactly(a: Name, b: Name)
    ensures Less(a, b) <==> Precedes(a, b)
  {
    if a != [] && b != [] && a[0] == b[0] {
      LessExactly(a[1..], b[1..]);
      var c, d := a[1..], b[1..];
      if k :| 0 <= k <= |c| && k < |d| && c[..k] == d[..k] && (k == |c| || c[k] < d[k]) {
        assert a[..k + 1] == [a[0]] + c[..k] && b[..k + 1] == [b[0]] + d[..k];
      }
      if k :| 0 <= k <= |a| && k < |b| && a[..k] == b[..k] && (k == |a| || a[k] < b[k]) {
        PrefixTail(a, b, k);
      }
    } else {
      FirstDiffers(a, b);
    }
  }

  lemma PrefixTail(a: Name, b: Name, k: nat)
    requires a != [] && b != [] && a[0] == b[0]
    requires k <= |a| && k < |b| && a[..k] == b[..k] && (k == |a| || a[k] < b[k])
    ensures Precedes(a[1..], b[1..])
  {
    assert k > 0;
    var c, d := a[1..], b[1..];
    assert c[..k - 1] == a[..k][1..] && d[..k - 1] == b[..k][1..];
    assert k - 1 == |c| || c[k - 1] < d[k - 1];
  }

  lemma SharedStart(a: Name, b: Name, k: nat)
    requires 0 < k <= |a| && k <= |b| && a[..k] == b[..k]
    ensures a[0] == b[0]
  {
    assert a[..k][0] == b[..k][0];
  }

  lemma FirstDiffers(a: Name, b: Name)
    requires a == [] || b == [] || a[0] != b[0]
    ensures Less(a, b) <==> Precedes(a, b)
  {
    if k :| 0 <= k <= |a| && k < |b| && a[..k] == b[..k] && (k == |a| || a[k] < b[k]) {
      if k > 0 {
        SharedStart(a, b, k);
      }
    }
    if Less(a, b) {
      assert a[..0] == b[..0];
    }
  }

  /** The positions of the models of one name. */
  ghost predicate AreNamedAt(at: seq<int>, kept: seq<Model>, name: Name) {
    && (forall j, k :: 0 <= j < k < |at| ==> at[j] < at[k])
    && (forall k :: 0 <= k < |at| ==> 0 <= at[k] < |kept|)
    && forall i :: 0 <= i < |kept| ==> (i in at <==> kept[i].modelName == name)
  }

  /** The vendors of the models of one name, in model order. */
  ghost predicate AreVendorsOf(names: seq<Name>, kept: seq<Model>, name: Name) {
    exists at :: AreNamedAt(at, kept, name) && |at| == |names|
                 && forall k :: 0 <= k < |at| ==> names[k] == kept[at[k]].vendorName
  }

  lemma NamedGrows(before: seq<int>, at: seq<int>, kept: seq<Model>, name: Name)
    requires kept != [] && AreNamedAt(before, kept[..|kept| - 1], name)
    requires at == if kept[|kept| - 1].modelName == name then before + [|kept| - 1] else before
    ensures AreNamedAt(at, kept, name)
  {
    var n := |kept| - 1;
    assert forall i :: 0 <= i < n ==> kept[..n][i] == kept[i];
    forall i | 0 <= i < |kept|
      ensures i in at <==> kept[i].modelName == name
    {
      assert i < n ==> (i in before <==> kept[..n][i].modelName == name);
    }
  }

  lemma {:induction false} VendorsExactly(kept: seq<Model>, name: Name) returns (at: seq<int>)
    ensures AreNamedAt(at, kept, name) && |at| == |VendorsOf(kept, name)|
    ensures forall k :: 0 <= k < |at| ==> 0 <= at[k] < |kept| && VendorsOf(kept, name)[k] == kept[at[k]].vendorName
  {
    hide AreNamedAt;
    if kept == [] {
      at := [];
      NoneNamed(name);
    } else {
      var n := |kept| - 1;
      var before := VendorsExactly(kept[..n], name);
      at := if kept[n].modelName == name then before + [n] else before;
      NamedGrows(before, at, kept, name);
    }
  }

  lemma NoneNamed(name: Name)
    ensures AreNamedAt([], [], name)
  {
  }

  ghost predicate AreReported(conflicts: seq<Conflict>, kept: seq<Model>) {
    && (forall j, k :: 0 <= j < k < |conflicts| ==> Precedes(conflicts[j].modelName, conflicts[k].modelName))
    && (forall k :: 0 <= k < |conflicts| ==>
          |conflicts[k].vendors| > 1 && AreVendorsOf(conflicts[k].vendors, kept, conflicts[k].modelName))
    && forall i, j :: 0 <= i < j < |kept| && kept[i].modelName == kept[j].modelName ==>
      exists k :: 0 <= k < |conflicts| && conflicts[k].modelName == kept[i].modelName
  }

  lemma ReportedExactly(conflicts: seq<Conflict>, kept: seq<Model>)
    requires IsSortedByName(conflicts) && AreTheConflicts(conflicts, kept)
    ensures AreReported(conflicts, kept)
  {
    hide VendorsOf, Less, Precedes, AreNamedAt;
    forall j, k | 0 <= j < k < |conflicts|
      ensures Precedes(conflicts[j].modelName, conflicts[k].modelName)
    {
      LessExactly(conflicts[j].modelName, conflicts[k].modelName);
    }
    forall k | 0 <= k < |conflicts|
      ensures |conflicts[k].vendors| > 1 && AreVendorsOf(conflicts[k].vendors, kept, conflicts[k].modelName)
    {
      assert conflicts[k] in conflicts;
      var at := VendorsExactly(kept, conflicts[k].modelName);
    }
    forall i, j | 0 <= i < j < |kept| && kept[i].modelName == kept[j].modelName
      ensures exists k :: 0 <= k < |conflicts| && conflicts[k].modelName == kept[i].modelName
    {
      var name := kept[i].modelName;
      NamedOnce(kept, name);
      var k :| 0 <= k < |conflicts| && conflicts[k] == Conflict(name, VendorsOf(kept, name));
    }
  }

  // ----- vendors -----

  ghost predicate IsFirstUse(i: int, kept: seq<Model>) {
    0 <= i < |kept| && forall j :: 0 <= j < i ==> kept[j].vendorName != kept[i].vendorName
  }

  /** The vendors of the models at these positions, which are the first uses. */
  ghost predicate AreUsedAt(at: seq<int>, used: seq<Vendor>, kept: seq<Model>, vendors: seq<Vendor>) {
    && |at| == |used|
    && (forall j, k :: 0 <= j < k < |at| ==> at[j] < at[k])
    && (forall i :: i in at <==> IsFirstUse(i, kept))
    && forall k :: 0 <= k < |at| ==> used[k] in vendors && 0 <= at[k] < |kept| && used[k].name == kept[at[k]].vendorName
  }

  /** The vendors of the kept models, once each, in the order of their first use. */
  ghost predicate AreInUse(used: seq<Vendor>, kept: seq<Model>, vendors: seq<Vendor>) {
    exists at :: AreUsedAt(at, used, kept, vendors)
  }

  lemma UsedAt(kept: seq<Model>, vendors: seq<Vendor>, used: seq<Vendor>, i: nat) returns (k: nat)
    requires AreTheUsedVendors(used, kept, vendors) && i < |kept|
    ensures k < |used| && used[k].name == kept[i].vendorName
  {
    hide FirstUse;
    var name := kept[i].vendorName;
    assert exists j :: 0 <= j < |used| && used[j].name == name;
    var at: int :| 0 <= at < |used| && used[at].name == name;
    k := at;
  }

  lemma FirstUseIs(kept: seq<Model>, i: nat)
    requires IsFirstUse(i, kept)
    ensures FirstUse(kept, kept[i].vendorName) == i
  {
    hide FirstUse;
  }

  lemma FirstUseOf(kept: seq<Model>, name: Name)
    requires FirstUse(kept, name) < |kept|
    ensures IsFirstUse(FirstUse(kept, name), kept)
  {
    hide FirstUse;
  }

  ghost predicate ArePositions(at: seq<int>, kept: seq<Model>, used: seq<Vendor>) {
    |at| == |used| && forall k :: 0 <= k < |at| ==> at[k] == FirstUse(kept, used[k].name)
  }

  lemma FirstUsesExactly(kept: seq<Model>, vendors: seq<Vendor>, used: seq<Vendor>, at: seq<int>, i: int)
    requires AreTheUsedVendors(used, kept, vendors) && ArePositions(at, kept, used)
    ensures i in at <==> IsFirstUse(i, kept)
  {
    hide FirstUse, IsFirstUse;
    if i in at {
      var k :| 0 <= k < |at| && at[k] == i;
      FirstUseOf(kept, used[k].name);
    }
    if IsFirstUse(i, kept) {
      FirstUseInTable(i, kept);
      var k := UsedAt(kept, vendors, used, i);
      FirstUseIs(kept, i);
      assert at[k] == i;
    }
  }

  lemma FirstUseInTable(i: int, kept: seq<Model>)
    requires IsFirstUse(i, kept)
    ensures 0 <= i < |kept|
  {
  }

  lemma InUseExactly(kept: seq<Model>, vendors: seq<Vendor>, used: seq<Vendor>)
    requires AreTheUsedVendors(used, kept, vendors)
    ensures AreInUse(used, kept, vendors)
  {
    hide FirstUse, IsFirstUse;
    var at: seq<int> := seq(|used|, k requires 0 <= k < |used| => FirstUse(kept, used[k].name));
    forall i
      ensures i in at <==> IsFirstUse(i, kept)
    {
      FirstUsesExactly(kept, vendors, used, at, i);
    }
    assert AreUsedAt(at, used, kept, vendors);
  }

  // ----- the result -----

  ghost predicate HasDuplicates(kept: seq<Model>) {
    exists i, j :: 0 <= i < j < |kept| && kept[i].modelName == kept[j].modelName
  }

  /** Everything a run answers to a policy file. */
  ghost predicate Answers(r: Outcome, models: seq<Model>, vendors: seq<Vendor>, parsed: FilePolicy) {
    exists kept ::
      && AreKept(kept, models, parsed)
      && if !AreNamedOnce(vendors) || !AllHaveIcons(kept, vendors) then r == Invalid
         else if HasDuplicates(kept) then r.Duplicates? && AreReported(r.conflicts, kept)
         else r.Built? && r.models == kept && AreInUse(r.vendors, kept, vendors)
  }

  lemma AnswerExactly(r: Outcome, models: seq<Model>, vendors: seq<Vendor>, parsed: FilePolicy)
    requires IsOutcome(r, models, vendors, LoadedPolicy(parsed))
    ensures Answers(r, models, vendors, parsed)
  {
    hide Filtered, LoadedPolicy, AreComplete, AreReported, AreInUse, AllHaveIcons, AreKept, AreTheUsedVendors,
         IsOutcome;
    var policy := LoadedPolicy(parsed);
    var kept := Filtered(models, policy);
    KeptExactly(models, parsed);
    assert NamesDistinct(kept) <==> !HasDuplicates(kept);
    assert VendorsNamedOnce(vendors) <==> AreNamedOnce(vendors);
    if AreNamedOnce(vendors) {
      CompleteExactly(kept, vendors);
    }
    BuiltExactly(models, vendors, policy, r);
    if r.Built? {
      BuiltIsConsistent(models, vendors, policy, r);
      InUseExactly(kept, vendors, r.vendors);
    } else {
      FailureExactly(models, vendors, policy, r);
    }
  }

  lemma FailureExactly(models: seq<Model>, vendors: seq<Vendor>, policy: Policy, r: Outcome)
    requires IsOutcome(r, models, vendors, policy) && !r.Built?
    ensures var kept := Filtered(models, policy);
      if VendorsNamedOnce(vendors) && AreComplete(kept, vendors) then r.Duplicates? && AreReported(r.conflicts, kept)
      else r == Invalid
  {
    hide Filtered, VendorsOf, AreComplete, IsSortedByName, AreTheConflicts, AreReported, VendorsNamedOnce, UsedVendors;
    if r.Duplicates? {
      ReportedExactly(r.conflicts, Filtered(models, policy));
    }
  }

  /** From the policy file to the answer: the file is refused, or the models are filtered by it. */
  method FilterByFile(parsed: FilePolicy, models: seq<Model>, vendors: seq<Vendor>) returns (r: Option<Outcome>)
    ensures r.Some? <==> IsPolicyFile(parsed)
    ensures r.Some? ==> Answers(r.value, models, vendors, parsed)
    ensures r.Some? && r.value.Built? ==>
      forall model :: model in r.value.models <==> model in models && MayStay(parsed, model)
  {
    hide IsAcceptedPolicy, IsPolicyFile, LoadedPolicy, IsOutcome, Answers, MayStay, AreKept;
    FileExactly(parsed);
    var policy := Load(parsed);
    if policy == None {
      return None;
    }
    var outcome := Build(models, vendors, policy.value);
    AnswerExactly(outcome, models, vendors, parsed);
    if outcome.Built? {
      BuiltModels(outcome, models, vendors, parsed);
    }
    return Some(outcome);
  }

  /** The models of a result are those of the input whose vendor the file names and that the file does not exclude
      under their vendor. */
  lemma BuiltModels(r: Outcome, models: seq<Model>, vendors: seq<Vendor>, parsed: FilePolicy)
    requires Answers(r, models, vendors, parsed) && r.Built?
    ensures forall model :: model in r.models <==> model in models && MayStay(parsed, model)
  {
    hide AreKept, MayStay, AreInUse, AllHaveIcons, AreReported;
    forall model
      ensures model in r.models <==> model in models && MayStay(parsed, model)
    {
      KeptAre(r.models, models, parsed, model);
    }
  }

  // ----- the ratio maps -----

  ghost predicate IsLastRatioAt(i: int, ratios: seq<Option<real>>, models: seq<Model>, name: Name, ratio: real)
    requires |ratios| == |models|
  {
    && 0 <= i < |models| && models[i].modelName == name && ratios[i] == Some(ratio)
    && forall j :: i < j < |models| && models[j].modelName == name ==> ratios[j] == None
  }

  /** The ratio of the last model of that name that has one. */
  ghost predicate IsLastRatio(ratios: seq<Option<real>>, models: seq<Model>, name: Name, ratio: real)
    requires |ratios| == |models|
  {
    exists i :: IsLastRatioAt(i, ratios, models, name, ratio)
  }

  ghost predicate HoldsRatios(held: map<Name, real>, ratios: seq<Option<real>>, models: seq<Model>)
    requires |ratios| == |models|
  {
    forall name, ratio :: (name in held && held[name] == ratio) <==> IsLastRatio(ratios, models, name, ratio)
  }

  function RatiosOf(models: seq<Model>, kind: Ratio): (ratios: seq<Option<real>>)
    ensures |ratios| == |models| && forall i :: 0 <= i < |models| ==> ratios[i] == RatioOf(models[i], kind)
  {
    seq(|models|, i requires 0 <= i < |models| => RatioOf(models[i], kind))
  }

  lemma EarlierRatio(i: int, models: seq<Model>, kind: Ratio, name: Name, ratio: real)
    requires models != []
    ensures var n := |models| - 1;
      IsLastRatioAt(i, RatiosOf(models, kind), models, name, ratio)
      <==> if models[n].modelName == name && RatioOf(models[n], kind).Some?
           then i == n && RatioOf(models[n], kind) == Some(ratio)
           else IsLastRatioAt(i, RatiosOf(models[..n], kind), models[..n], name, ratio)
  {
    hide RatioOf, RatiosOf;
    var n := |models| - 1;
    var ratios, earlier := RatiosOf(models, kind), RatiosOf(models[..n], kind);
    assert forall j :: 0 <= j < n ==> models[..n][j] == models[j] && earlier[j] == ratios[j];
    if IsLastRatioAt(i, earlier, models[..n], name, ratio) {
      assert forall j :: i < j < n ==> models[j] == models[..n][j] && ratios[j] == earlier[j];
    }
  }

  lemma {:induction false} LastRatioExactly(models: seq<Model>, kind: Ratio, name: Name, ratio: real)
    ensures LastRatio(models, name, kind) == Some(ratio) <==> IsLastRatio(RatiosOf(models, kind), models, name, ratio)
  {
    hide RatioOf, RatiosOf, IsLastRatioAt;
    if models == [] {
      NoLastRatio(kind, name, ratio);
    } else {
      var n := |models| - 1;
      LastRatioExactly(models[..n], kind, name, ratio);
      EarlierRatio(n, models, kind, name, ratio);
      forall i
        ensures IsLastRatioAt(i, RatiosOf(models, kind), models, name, ratio)
           <==> if models[n].modelName == name && RatioOf(models[n], kind).Some?
                then i == n && RatioOf(models[n], kind) == Some(ratio)
                else IsLastRatioAt(i, RatiosOf(models[..n], kind), models[..n], name, ratio)
      {
        EarlierRatio(i, models, kind, name, ratio);
      }
    }
  }

  lemma NoLastRatio(kind: Ratio, name: Name, ratio: real)
    ensures !IsLastRatio(RatiosOf([], kind), [], name, ratio)
  {
  }

  ghost function ModelRatios(models: seq<Model>): (ratios: seq<Option<real>>)
    ensures |ratios| == |models|
  {
    seq(|models|, i requires 0 <= i < |models| => models[i].ratioModel)
  }

  ghost function CompletionRatios(models: seq<Model>): (ratios: seq<Option<real>>)
    ensures |ratios| == |models|
  {
    seq(|models|, i requires 0 <= i < |models| => models[i].ratioCompletion)
  }

  ghost function CacheRatios(models: seq<Model>): (ratios: seq<Option<real>>)
    ensures |ratios| == |models|
  {
    seq(|models|, i requires 0 <= i < |models| => models[i].ratioCache)
  }

  lemma HeldExactly(held: map<Name, real>, models: seq<Model>, kind: Ratio)
    requires IsRatioMap(held, models, kind)
    ensures HoldsRatios(held, RatiosOf(models, kind), models)
  {
    hide LastRatio, RatiosOf, IsLastRatio;
    forall name, ratio
      ensures (name in held && held[name] == ratio) <==> IsLastRatio(RatiosOf(models, kind), models, name, ratio)
    {
      LastRatioExactly(models, kind, name, ratio);
      assert LastRatio(models, name, kind) == if name in held then Some(held[name]) else None;
    }
  }

  /** Each map holds, for every name, the last ratio of its kind, and no price is set. */
  lemma RatioConfigExactly(config: RatioConfig, models: seq<Model>)
    requires IsRatioConfig(config, models)
    ensures HoldsRatios(config.modelRatio, ModelRatios(models), models)
    ensures HoldsRatios(config.completionRatio, CompletionRatios(models), models)
    ensures HoldsRatios(config.cacheRatio, CacheRatios(models), models)
    ensures config.modelPrice == map[]
  {
    hide IsRatioMap, HoldsRatios;
    assert RatiosOf(models, ModelRatio) == ModelRatios(models);
    assert RatiosOf(models, CompletionRatio) == CompletionRatios(models);
    assert RatiosOf(models, CacheRatio) == CacheRatios(models);
    assert IsRatioMap(RatioMap(config, ModelRatio), models, ModelRatio);
    assert IsRatioMap(RatioMap(config, CompletionRatio), models, CompletionRatio);
    assert IsRatioMap(RatioMap(config, CacheRatio), models, CacheRatio);
    HeldExactly(config.modelRatio, models, ModelRatio);
    HeldExactly(config.completionRatio, models, CompletionRatio);
    HeldExactly(config.cacheRatio, models, CacheRatio);
  }
}
