/** The conditions and outputs of SKU rules as a grammar over code units, and the proof that the condition
    and output readers accept exactly what it generates. */
module SkuConditionGrammar {
  import opened Wrappers
  import opened CodeUnits
  import opened WhiteSpace
  import opened JsonStrings
  import opened JsonGrammar
  import opened SkuTemplates
  import opened TemplateReadings
  import opened ConjunctionSplitter
  import opened SkuRules

  // ----- the grammar -----

  ghost predicate IsGap(s: Text) {
    s != [] && Blanks(s)
  }

  /** A field that is missing or present. */
  ghost predicate SpellsPresence(rest: Text, word: Text) {
    exists w, x :: IsGap(w) && IsGap(x) && rest == w + Ascii("is") + x + word
  }

  /** The increasing positions at which the values of `all` first occur. */
  ghost predicate FirstPositions(all: seq<Text>, values: seq<Text>, at: seq<int>) {
    && |at| == |values|
    && (forall k :: 0 <= k < |at| ==> 0 <= at[k] < |all| && all[at[k]] == values[k] && values[k] !in all[..at[k]])
    && (forall j, k :: 0 <= j < k < |at| ==> at[j] < at[k])
  }

  ghost predicate AllAmong(all: seq<Text>, values: seq<Text>) {
    forall i :: 0 <= i < |all| ==> all[i] in values
  }

  /** `values` are the values of `all` in the order of their first occurrences. */
  ghost predicate KeepsFirst(all: seq<Text>, values: seq<Text>) {
    AllAmong(all, values) && exists at :: FirstPositions(all, values, at)
  }

  ghost predicate SpellsListing(rest: Text, values: seq<Text>) {
    exists w, x, list, all ::
      && rest == w + Ascii("in") + x + list
      && IsGap(w) && IsGap(x) && SpellsArray(list, all)
      && 1 <= |all| <= 32 && KeepsFirst(all, values)
  }

  ghost predicate SpellsComparison(rest: Text, sign: Text, value: Text) {
    exists w, x, lit ::
      && rest == w + sign + x + lit
      && Blanks(w) && Blanks(x) && SpellsString(lit, value) && value != []
  }

  /** What stands behind the field of a condition. */
  ghost predicate SpellsTail(rest: Text, c: Condition) {
    match c
    case Missing(_) => SpellsPresence(rest, Ascii("missing"))
    case Present(_) => SpellsPresence(rest, Ascii("present"))
    case In(_, values) => SpellsListing(rest, values)
    case Eq(_, value) => SpellsComparison(rest, Ascii("=="), value)
    case Ne(_, value) => SpellsComparison(rest, Ascii("!="), value)
  }

  ghost predicate SpellsCondition(t: Text, c: Condition) {
    IsName(c.field) && exists rest :: t == c.field + rest && SpellsTail(rest, c)
  }

  /** The conditions with `&&` between them, and white space around each `&&`. */
  ghost predicate SpellsConditions(t: Text, cs: seq<Condition>)
    decreases |cs|
  {
    if cs == [] then false
    else if |cs| == 1 then SpellsCondition(t, cs[0])
    else exists first, w, x, rest ::
      && t == first + w + Ascii("&&") + x + rest
      && SpellsCondition(first, cs[0]) && Blanks(w) && Blanks(x) && SpellsConditions(rest, cs[1..])
  }

  /** All placeholders name allowed fields, and no `${` is left once they are gone. */
  ghost predicate IsTemplate(template: Text, allowed: set<Text>) {
    exists lits, names ::
      && IsReading(template, lits, names)
      && (forall k :: 0 <= k < |names| ==> names[k] in allowed)
      && lits != [] && !HoldsOpener(Bare(lits))
  }

  ghost predicate SpellsOutput(t: Text, output: Output, allowed: set<Text>) {
    match output
    case Reject => t == Ascii("reject")
    case Sku(template) => template != [] && SpellsString(t, template) && IsTemplate(template, allowed)
  }

  // ----- words -----

  lemma Words()
    ensures Ascii("is") == IS && Ascii("in") == IN && Ascii("missing") == MISSING && Ascii("present") == PRESENT
    ensures Ascii("==") == EQUAL_TO && Ascii("!=") == NOT_EQUAL_TO && Ascii("reject") == REJECT
    ensures Ascii("&&") == AND
  {
  }

  ghost predicate StartsSolid(s: Text) {
    s != [] && !IsSpace(s[0])
  }

  lemma SolidWords()
    ensures StartsSolid(IS) && StartsSolid(IN) && StartsSolid(MISSING) && StartsSolid(PRESENT)
    ensures StartsSolid(EQUAL_TO) && StartsSolid(NOT_EQUAL_TO)
  {
  }

  lemma WordFollows(w: Text, word: Text, rest: Text)
    requires IsGap(w) && StartsSolid(word)
    ensures AfterWord(w + word + rest, word) == Some(rest)
  {
    hide TrimLeft, Blanks;
    assert w + word + rest == w + (word + rest);
    TrimLeftSkips(w, word + rest);
    assert (word + rest)[..|word|] == word;
    assert (word + rest)[|word|..] == rest;
  }

  lemma OtherFollows(w: Text, t: Text, word: Text)
    requires Blanks(w) && StartsSolid(t) && !StartsWith(t, word)
    ensures AfterWord(w + t, word) == None
  {
    hide TrimLeft, Blanks;
    TrimLeftSkips(w, t);
  }

  lemma FollowingWord(s: Text, word: Text) returns (w: Text)
    requires AfterWord(s, word).Some?
    ensures s == w + word + AfterWord(s, word).value && IsGap(w)
  {
    hide TrimLeft, Blanks;
    w := TrimLeftSplits(s);
    var t := TrimLeft(s);
    assert t == t[..|word|] + t[|word|..];
  }

  // ----- the tails of conditions -----

  lemma WordsApart(rest: Text)
    ensures !StartsWith(IN + rest, IS) && !StartsWith(EQUAL_TO + rest, IS) && !StartsWith(NOT_EQUAL_TO + rest, IS)
    ensures !StartsWith(EQUAL_TO + rest, IN) && !StartsWith(NOT_EQUAL_TO + rest, IN)
    ensures !StartsWith(NOT_EQUAL_TO + rest, EQUAL_TO) && !StartsWith(PRESENT + rest, MISSING)
    ensures StartsWith(EQUAL_TO + rest, EQUAL_TO) && StartsWith(NOT_EQUAL_TO + rest, NOT_EQUAL_TO)
  {
    assert forall w: Text :: |w| == 2 ==> (w + rest)[..2] == w;
    assert (PRESENT + rest)[..7] == PRESENT;
    assert IN[1] != IS[1] && EQUAL_TO[0] != IS[0] && NOT_EQUAL_TO[0] != IS[0];
    assert EQUAL_TO[0] != IN[0] && NOT_EQUAL_TO[0] != IN[0] && NOT_EQUAL_TO[0] != EQUAL_TO[0]
      && PRESENT[0] != MISSING[0];
  }

  lemma PresenceReads(rest: Text, present: bool)
    requires SpellsPresence(rest, if present then PRESENT else MISSING)
    ensures PresenceTail(rest) == Some(present)
  {
    hide AfterWord, IsGap, StartsSolid, StartsWith;
    Words();
    SolidWords();
    var word := if present then PRESENT else MISSING;
    var w, x :| IsGap(w) && IsGap(x) && rest == w + Ascii("is") + x + word;
    assert rest == w + IS + (x + word);
    WordFollows(w, IS, x + word);
    assert x + word == x + word + [];
    WordFollows(x, word, []);
    if present {
      WordsApart([]);
      assert PRESENT + [] == PRESENT;
      GapBlanks(x);
      OtherFollows(x, PRESENT, MISSING);
    }
  }

  lemma GapBlanks(w: Text)
    requires IsGap(w)
    ensures Blanks(w) && w != []
  {
  }

  lemma ReadPresence(rest: Text)
    requires PresenceTail(rest).Some?
    ensures SpellsPresence(rest, if PresenceTail(rest).value then PRESENT else MISSING)
  {
    hide AfterWord, IsGap;
    Words();
    var w := FollowingWord(rest, IS);
    var r := AfterWord(rest, IS).value;
    var word := if PresenceTail(rest).value then PRESENT else MISSING;
    var x := FollowingWord(r, word);
    assert x + word + [] == x + word;
    assert rest == w + Ascii("is") + x + word;
  }

  lemma ArrayWrapped(list: Text, all: seq<Text>)
    requires SpellsArray(list, all)
    ensures IsWrappedIn(list, OPEN_BRACKET, CLOSE_BRACKET) && StartsSolid(list)
  {
    hide IsWhite, SpellsElements;
  }

  lemma ListingReads(rest: Text, w: Text, x: Text, list: Text)
    requires IsGap(w) && IsGap(x) && rest == w + IN + x + list
    requires IsWrappedIn(list, OPEN_BRACKET, CLOSE_BRACKET) && StartsSolid(list)
    ensures PresenceTail(rest) == None && ListTail(rest) == Some(list)
  {
    hide AfterWord, Blanks, TrimLeft;
    SolidWords();
    WordsApart(x + list);
    Regrouped(w, IN, x, list);
    OtherFollows(w, IN + (x + list), IS);
    WordFollows(w, IN, x + list);
    TrimLeftSkips(x, list);
  }

  lemma ReadListing(rest: Text) returns (w: Text, x: Text)
    requires ListTail(rest).Some?
    ensures IsGap(w) && IsGap(x) && rest == w + Ascii("in") + x + ListTail(rest).value
  {
    hide AfterWord, Blanks, TrimLeft;
    Words();
    w := FollowingWord(rest, IN);
    x := TrimLeftSplits(AfterWord(rest, IN).value);
    assert rest == w + Ascii("in") + x + ListTail(rest).value;
  }

  lemma NoWhiteAtEnd(t: Text, w: Text)
    requires IsWhite(w) && IsWrappedIn(t + w, OPEN_BRACKET, CLOSE_BRACKET)
    ensures w == []
  {
    assert (t + w)[|t|..] == w;
  }

  /** A list that ends in its bracket is read as the array it spells. */
  lemma ListExactly(list: Text, all: seq<Text>)
    requires IsWrappedIn(list, OPEN_BRACKET, CLOSE_BRACKET)
    ensures ParseStringArray(list) == Some(all) <==> SpellsArray(list, all)
  {
    hide ParseStringArray, SpellsArray;
    ArrayExactly(list, all);
    if ParseStringArray(list) == Some(all) {
      var t, w :| list == t + w && SpellsArray(t, all) && IsWhite(w);
      NoWhiteAtEnd(t, w);
      assert t + [] == t;
    }
    var nothing: Text := [];
    assert list == list + nothing && IsWhite(nothing);
  }

  lemma LiteralWrapped(lit: Text, v: Text)
    requires SpellsString(lit, v)
    ensures IsWrappedIn(lit, QUOTE, QUOTE) && StartsSolid(lit)
  {
    hide SpellsUnits;
  }

  lemma ComparisonReads(rest: Text, w: Text, equal: bool, x: Text, lit: Text)
    requires Blanks(w) && Blanks(x) && rest == w + (if equal then EQUAL_TO else NOT_EQUAL_TO) + x + lit
    requires IsWrappedIn(lit, QUOTE, QUOTE) && StartsSolid(lit)
    ensures PresenceTail(rest) == None && ListTail(rest) == None && ComparisonTail(rest) == Some((equal, lit))
  {
    hide AfterWord, Blanks, TrimLeft, StartsWith;
    SolidWords();
    var sign := if equal then EQUAL_TO else NOT_EQUAL_TO;
    var t := sign + (x + lit);
    WordsApart(x + lit);
    assert rest == w + t;
    OtherFollows(w, t, IS);
    OtherFollows(w, t, IN);
    TrimLeftSkips(w, t);
    assert t[2..] == x + lit;
    TrimLeftSkips(x, lit);
  }

  lemma ReadComparison(rest: Text, equal: bool, lit: Text) returns (w: Text, x: Text)
    requires ComparisonTail(rest) == Some((equal, lit))
    ensures Blanks(w) && Blanks(x) && rest == w + (if equal then EQUAL_TO else NOT_EQUAL_TO) + x + lit
  {
    hide Blanks, TrimLeft;
    w := TrimLeftSplits(rest);
    var t := TrimLeft(rest);
    x := TrimLeftSplits(t[2..]);
    Regrouped(w, t[..2], x, lit);
    assert t == t[..2] + t[2..];
  }

  lemma StringExactly(lit: Text, v: Text)
    ensures ParseJsonString(lit) == Ok(v) <==> SpellsString(lit, v) && v != []
  {
    hide SpellsString, ScanString;
    LiteralExactly(lit, v);
    if IsLiteral(lit, v) {
      LiteralExactly(lit, v);
    }
  }

  // ----- repeated values -----

  lemma {:induction false} DistinctPositions(all: seq<Text>) returns (at: seq<int>)
    ensures FirstPositions(all, Distinct(all), at)
  {
    if all == [] {
      at := [];
    } else {
      var n := |all| - 1;
      var before := DistinctPositions(all[..n]);
      assert forall k :: 0 <= k < |before| ==> all[..n][..before[k]] == all[..before[k]];
      at := if all[n] in Distinct(all[..n]) then before else before + [n];
    }
  }

  lemma {:induction false} KeptAreDistinct(all: seq<Text>, values: seq<Text>, at: seq<int>)
    requires FirstPositions(all, values, at) && AllAmong(all, values)
    ensures values == Distinct(all)
  {
    hide FirstPositions, AllAmong;
    if all == [] {
      NothingKept(values, at);
    } else {
      var n, m := |all| - 1, |values| - 1;
      assert all == all[..n] + [all[n]];
      if all[n] in all[..n] {
        KeptAllBefore(all, values, at);
        KeptAreDistinct(all[..n], values, at);
      } else {
        LastKept(all, values, at);
        KeptBefore(all, values, at);
        KeptAreDistinct(all[..n], values[..m], at[..m]);
        assert values == values[..m] + [values[m]];
      }
    }
  }

  lemma KeptFromSome(all: seq<Text>, values: seq<Text>, at: seq<int>)
    requires FirstPositions(all, values, at) && values != []
    ensures all != []
  {
    assert 0 <= at[0] < |all|;
  }

  lemma NothingKept(values: seq<Text>, at: seq<int>)
    requires FirstPositions([], values, at)
    ensures values == []
  {
    hide FirstPositions;
    if values != [] {
      KeptFromSome([], values, at);
    }
  }

  lemma KeptAllBefore(all: seq<Text>, values: seq<Text>, at: seq<int>)
    requires FirstPositions(all, values, at) && AllAmong(all, values)
    requires all != [] && all[|all| - 1] in all[..|all| - 1]
    ensures FirstPositions(all[..|all| - 1], values, at) && AllAmong(all[..|all| - 1], values)
  {
    var n := |all| - 1;
    assert forall k :: 0 <= k < |at| ==> at[k] != n;
    assert forall k :: 0 <= k < |at| ==> all[..n][..at[k]] == all[..at[k]];
  }

  lemma EarlierKept(all: seq<Text>, values: seq<Text>, at: seq<int>, j: nat)
    requires all != [] && FirstPositions(all, values, at) && j < |values| - 1
    ensures values[j] in all[..|all| - 1]
  {
    assert at[j] < at[|values| - 1];
    assert all[..|all| - 1][at[j]] == values[j];
  }

  /** A value that occurs in the last place only is the last one kept. */
  lemma LastKept(all: seq<Text>, values: seq<Text>, at: seq<int>)
    requires FirstPositions(all, values, at) && AllAmong(all, values)
    requires all != [] && all[|all| - 1] !in all[..|all| - 1]
    ensures values != [] && |at| == |values|
    ensures values[|values| - 1] == all[|all| - 1] && at[|values| - 1] == |all| - 1
  {
    var n := |all| - 1;
    var j :| 0 <= j < |values| && values[j] == all[n];
    if j < |values| - 1 {
      EarlierKept(all, values, at, j);
    }
    assert forall i :: 0 <= i < n ==> all[i] == all[..n][i];
  }

  lemma KeptBefore(all: seq<Text>, values: seq<Text>, at: seq<int>)
    requires FirstPositions(all, values, at) && values != [] && at[|values| - 1] == |all| - 1
    requires values[|values| - 1] == all[|all| - 1] && all[|all| - 1] !in all[..|all| - 1]
    requires AllAmong(all, values)
    ensures FirstPositions(all[..|all| - 1], values[..|values| - 1], at[..|values| - 1])
    ensures AllAmong(all[..|all| - 1], values[..|values| - 1])
  {
    var n, m := |all| - 1, |values| - 1;
    assert forall k :: 0 <= k < m ==> at[k] < at[m];
    assert forall k :: 0 <= k < m ==> all[..n][..at[k]] == all[..at[k]];
    forall i | 0 <= i < n
      ensures all[i] in values[..m]
    {
      var j :| 0 <= j < |values| && values[j] == all[i];
      assert all[..n][i] == all[i];
    }
  }

  /** Dropping repeated values keeps the first occurrences, in order. */
  lemma DistinctExactly(all: seq<Text>, values: seq<Text>)
    ensures values == Distinct(all) <==> KeepsFirst(all, values)
  {
    hide Distinct, FirstPositions;
    var at := DistinctPositions(all);
    if KeepsFirst(all, values) {
      var kept :| FirstPositions(all, values, kept);
      KeptAreDistinct(all, values, kept);
    }
  }

  // ----- one condition -----

  ghost predicate IsReadList(rest: Text, values: seq<Text>) {
    && PresenceTail(rest) == None && ListTail(rest).Some?
    && exists all :: ParseStringArray(ListTail(rest).value) == Some(all) && 1 <= |all| <= 32 && values == Distinct(all)
  }

  ghost predicate IsReadComparison(rest: Text, equal: bool, value: Text) {
    && PresenceTail(rest) == None && ListTail(rest) == None && ComparisonTail(rest).Some?
    && ComparisonTail(rest).value.0 == equal && ParseJsonString(ComparisonTail(rest).value.1) == Ok(value)
  }

  ghost predicate IsReadTail(rest: Text, c: Condition) {
    match c
    case Missing(_) => PresenceTail(rest) == Some(false)
    case Present(_) => PresenceTail(rest) == Some(true)
    case In(_, values) => IsReadList(rest, values)
    case Eq(_, value) => IsReadComparison(rest, true, value)
    case Ne(_, value) => IsReadComparison(rest, false, value)
  }

  lemma TailReads(rest: Text, c: Condition)
    requires SpellsTail(rest, c)
    ensures rest != [] && !IsNamePart(rest[0]) && IsReadTail(rest, c)
  {
    hide SpellsPresence, SpellsListing, SpellsComparison, PresenceTail, IsReadList, IsReadComparison, IsNamePart;
    Words();
    match c
    case Missing(_) =>
      PresenceReads(rest, false);
      PresenceStarts(rest, MISSING);
    case Present(_) =>
      PresenceReads(rest, true);
      PresenceStarts(rest, PRESENT);
    case In(_, values) => ListingTailReads(rest, values);
    case Eq(_, value) => ComparisonTailReads(rest, true, value);
    case Ne(_, value) => ComparisonTailReads(rest, false, value);
  }

  lemma PresenceStarts(rest: Text, word: Text)
    requires SpellsPresence(rest, word)
    ensures rest != [] && !IsNamePart(rest[0])
  {
    hide Blanks, IsSpace, IsNamePart;
    var w, x :| IsGap(w) && IsGap(x) && rest == w + Ascii("is") + x + word;
    assert rest[0] == w[0];
    SpaceIsNoNamePart(w[0]);
  }

  lemma SpaceIsNoNamePart(c: CodeUnit)
    ensures IsSpace(c) ==> !IsNamePart(c)
  {
  }

  lemma ListingTailReads(rest: Text, values: seq<Text>)
    requires SpellsListing(rest, values)
    ensures rest != [] && !IsNamePart(rest[0])
    ensures IsReadList(rest, values)
  {
    hide Blanks, IsSpace, IsNamePart, SpellsArray, KeepsFirst, ParseStringArray, Distinct, PresenceTail, ListTail;
    Words();
    var w, x, list, all :|
      && rest == w + Ascii("in") + x + list
      && IsGap(w) && IsGap(x) && SpellsArray(list, all)
      && 1 <= |all| <= 32 && KeepsFirst(all, values);
    assert rest[0] == w[0];
    SpaceIsNoNamePart(w[0]);
    ArrayWrapped(list, all);
    ListingReads(rest, w, x, list);
    ListExactly(list, all);
    DistinctExactly(all, values);
  }

  lemma ComparisonTailReads(rest: Text, equal: bool, value: Text)
    requires SpellsComparison(rest, if equal then EQUAL_TO else NOT_EQUAL_TO, value)
    ensures rest != [] && !IsNamePart(rest[0])
    ensures IsReadComparison(rest, equal, value)
  {
    hide Blanks, IsSpace, SpellsString, ParseJsonString, PresenceTail, ListTail, ComparisonTail;
    var sign := if equal then EQUAL_TO else NOT_EQUAL_TO;
    var w, x, lit :|
      && rest == w + sign + x + lit
      && Blanks(w) && Blanks(x) && SpellsString(lit, value) && value != [];
    assert w != [] ==> rest[0] == w[0];
    assert w == [] ==> rest[0] == sign[0];
    SpaceIsNoNamePart(rest[0]);
    LiteralWrapped(lit, value);
    ComparisonReads(rest, w, equal, x, lit);
    StringExactly(lit, value);
  }

  /** A spelled condition over an allowed field is read as it is spelled. */
  lemma ConditionReads(t: Text, c: Condition, allowed: set<Text>)
    requires SpellsCondition(t, c) && c.field in allowed
    ensures ParseCondition(t, allowed) == Ok(c)
  {
    hide SpellsTail, PresenceTail, ListTail, ComparisonTail, ParseStringArray, ParseJsonString, Distinct, NameLength,
         IsName, IsFieldName, IsNamePart;
    var rest :| t == c.field + rest && SpellsTail(rest, c);
    TailReads(rest, c);
    NameLengthStops(c.field, rest);
    assert t[..|c.field|] == c.field && t[|c.field|..] == rest;
    NotEmpty(c.field);
  }

  /** What is read is spelled, and its field is allowed. */
  lemma ReadCondition(t: Text, allowed: set<Text>)
    requires ParseCondition(t, allowed).Ok?
    ensures var c := ParseCondition(t, allowed).value; SpellsCondition(t, c) && c.field in allowed
  {
    hide SpellsPresence, SpellsListing, SpellsComparison, PresenceTail, ListTail, ComparisonTail, ParseStringArray,
         ParseJsonString, Distinct, NameLength, IsName, IsFieldName;
    var c := ParseCondition(t, allowed).value;
    var n := NameLength(t);
    var rest := t[n..];
    Words();
    assert t == c.field + rest;
    if PresenceTail(rest).Some? {
      ReadPresence(rest);
    } else if ListTail(rest).Some? {
      ReadListingTail(rest, ParseStringArray(ListTail(rest).value).value);
    } else {
      ReadComparisonTail(rest, c.value);
    }
    assert SpellsTail(rest, c);
  }

  lemma ReadListingTail(rest: Text, all: seq<Text>)
    requires ListTail(rest).Some? && ParseStringArray(ListTail(rest).value) == Some(all) && 1 <= |all| <= 32
    ensures SpellsListing(rest, Distinct(all))
  {
    hide Blanks, SpellsArray, KeepsFirst, ParseStringArray, Distinct, AfterWord;
    var w, x := ReadListing(rest);
    ListExactly(ListTail(rest).value, all);
    DistinctExactly(all, Distinct(all));
  }

  lemma ReadComparisonTail(rest: Text, value: Text)
    requires ComparisonTail(rest).Some? && ParseJsonString(ComparisonTail(rest).value.1) == Ok(value)
    ensures SpellsComparison(rest, if ComparisonTail(rest).value.0 then EQUAL_TO else NOT_EQUAL_TO, value)
  {
    hide Blanks, SpellsString, ParseJsonString, ComparisonTail;
    Words();
    var w, x := ReadComparison(rest, ComparisonTail(rest).value.0, ComparisonTail(rest).value.1);
    StringExactly(ComparisonTail(rest).value.1, value);
  }

  /** The condition reader accepts exactly the spelled conditions over allowed fields. */
  lemma ConditionExactly(t: Text, c: Condition, allowed: set<Text>)
    ensures ParseCondition(t, allowed) == Ok(c) <==> SpellsCondition(t, c) && c.field in allowed
  {
    hide ParseCondition, SpellsCondition;
    if ParseCondition(t, allowed) == Ok(c) {
      ReadCondition(t, allowed);
    }
    if SpellsCondition(t, c) && c.field in allowed {
      ConditionReads(t, c, allowed);
    }
  }

  // ----- outputs -----

  lemma TemplateAccepted(template: Text, allowed: set<Text>)
    ensures Fields(Tokens(template)) <= allowed && IsCleanTemplate(template) <==> IsTemplate(template, allowed)
  {
    hide IsReading, IsCleanTemplate, Fields, Tokens, HoldsOpener, Bare;
    if IsTemplate(template, allowed) {
      var lits, names :|
        && IsReading(template, lits, names)
        && (forall k :: 0 <= k < |names| ==> names[k] in allowed)
        && lits != [] && !HoldsOpener(Bare(lits));
      TemplateExactly(template, lits, names, allowed);
    }
    var lits, names := ReadingExists(template);
    ReadingShape(template, lits, names);
    TemplateExactly(template, lits, names, allowed);
  }

  /** The output reader accepts exactly `reject` and the literals of templates. */
  lemma OutputExactly(t: Text, output: Output, allowed: set<Text>)
    ensures ParseOutput(t, allowed) == Ok(output) <==> SpellsOutput(t, output, allowed)
  {
    hide SpellsString, IsTemplate, ParseJsonString, Fields, IsCleanTemplate, Tokens;
    Words();
    match output
    case Reject =>
    case Sku(template) =>
      StringExactly(t, template);
      TemplateAccepted(template, allowed);
      if t == REJECT {
        LiteralStart(t, template);
      }
      if ParseOutput(t, allowed) == Ok(output) {
        assert ParseJsonString(t) == Ok(template);
      }
      if SpellsOutput(t, output, allowed) {
        assert ParseJsonString(t).Extract() == template;
      }
  }

  lemma LiteralStart(t: Text, v: Text)
    ensures SpellsString(t, v) ==> t != [] && t[0] == 0x22
  {
  }
}
