/** The lines of SKU rules as a grammar over code units, and the proof that the line readers accept exactly
    what it generates. */
module SkuRuleGrammar {
  import opened Wrappers
  import opened CodeUnits
  import opened WhiteSpace
  import opened JsonStrings
  import opened JsonGrammar
  import opened SkuTemplates
  import opened TemplateReadings
  import opened ConjunctionSplitter
  import opened SkuRules
  import opened SkuConditionGrammar

  // ----- the grammar -----

  /** The text holds no `=>`. */
  ghost predicate HoldsNoArrow(s: Text) {
    forall i :: 0 <= i < |s| - 1 ==> !(s[i] == 0x3D && s[i + 1] == 0x3E)
  }

  /** A rule line: its conditions end at the first `=>`, whatever their strings hold. */
  ghost predicate SpellsRule(code: Text, rule: Rule, allowed: set<Text>) {
    && |rule.conditions| <= 12
    && (forall k :: 0 <= k < |rule.conditions| ==> rule.conditions[k].field in allowed)
    && exists w, cs, x, y, out, z ::
      && code == Ascii("when") + w + cs + x + Ascii("=>") + y + out + z
      && IsGap(w) && SpellsConditions(cs, rule.conditions) && Blanks(x)
      && Blanks(y) && SpellsOutput(out, rule.output, allowed) && Blanks(z)
      && HoldsNoArrow(cs)
  }

  ghost predicate SpellsElse(code: Text, output: Output, allowed: set<Text>) {
    exists w, y, out, z ::
      && code == Ascii("else") + w + Ascii("=>") + y + out + z
      && Blanks(w) && Blanks(y) && SpellsOutput(out, output, allowed) && Blanks(z)
  }

  /** Rule lines, then the `else` line. */
  ghost predicate SpellsLines(codes: seq<Text>, rules: seq<Rule>, fallback: Output, allowed: set<Text>) {
    && |codes| == |rules| + 1
    && (forall k :: 0 <= k < |rules| ==> SpellsRule(codes[k], rules[k], allowed))
    && SpellsElse(codes[|rules|], fallback, allowed)
  }

  // ----- conditions and lists as pieces -----

  lemma {:induction false} WhiteSteady(depth: int, w: Text)
    requires IsWhite(w)
    ensures Steady(depth, w)
  {
    hide Steady;
    if w == [] {
      NothingSteady(depth);
    } else {
      WhiteSteady(depth, w[1..]);
      UnitSteady(depth, w[0]);
      SteadyConcat(depth, [w[0]], w[1..]);
      assert w == [w[0]] + w[1..];
    }
  }

  lemma NothingSteady(depth: int)
    ensures Steady(depth, [])
  {
    var nothing: Text := [];
    assert nothing[..0] == nothing;
  }

  lemma SeparatorSteady(depth: int, sep: Text)
    requires IsSeparator(sep)
    ensures Steady(depth, sep)
  {
    hide Steady;
    var w, x :| sep == w + [0x2C] + x && IsWhite(w) && IsWhite(x);
    WhiteSteady(depth, w);
    UnitSteady(depth, COMMA);
    WhiteSteady(depth, x);
    SteadyConcat(depth, w, [COMMA]);
    SteadyConcat(depth, w + [COMMA], x);
  }

  lemma LastElement(t: Text, vs: seq<Text>) returns (lit: Text, w: Text)
    requires SpellsElements(t, vs) && |vs| == 1
    ensures t == lit + w && SpellsString(lit, vs[0]) && IsWhite(w)
  {
    hide SpellsString, IsWhite;
    lit, w :| t == lit + w && SpellsString(lit, vs[0]) && IsWhite(w);
  }

  lemma {:induction false} ElementsSteady(depth: int, t: Text, vs: seq<Text>)
    requires SpellsElements(t, vs)
    ensures Steady(depth, t)
    decreases |vs|
  {
    hide Steady, SpellsElements, SpellsString, IsWhite, IsSeparator, IsLiteral;
    if vs == [] {
      NoElements();
      NothingSteady(depth);
    } else if |vs| == 1 {
      var lit, w := LastElement(t, vs);
      LiteralExactly(lit, vs[0]);
      LiteralSteady(depth, lit, vs[0]);
      WhiteSteady(depth, w);
      SteadyConcat(depth, lit, w);
    } else {
      var lit, sep, more := FirstElement(t, vs);
      LiteralExactly(lit, vs[0]);
      LiteralSteady(depth, lit, vs[0]);
      SeparatorSteady(depth, sep);
      ElementsSteady(depth, more, vs[1..]);
      SteadyConcat(depth, lit, sep);
      SteadyConcat(depth, lit + sep, more);
    }
  }

  /** A list is one piece, `&&` inside its strings included. */
  lemma ArrayPiece(list: Text, vs: seq<Text>)
    requires SpellsArray(list, vs)
    ensures IsPiece(OUTSIDE, list)
  {
    hide Steady, SpellsElements, IsWhite, IsPiece;
    var w, body :| list == [0x5B] + w + body + [0x5D] && IsWhite(w) && SpellsElements(body, vs);
    WhiteSteady(1, w);
    ElementsSteady(1, body, vs);
    SteadyConcat(1, w, body);
    BracketPiece(w + body);
    assert list == Bracketed(w + body);
  }

  ghost predicate IsPlain(s: Text) {
    forall i :: 0 <= i < |s| ==> IsPlainUnit(s[i]) && s[i] != AMP
  }

  lemma BlanksArePlain(w: Text)
    requires Blanks(w)
    ensures IsPlain(w)
  {
  }

  lemma NameIsPlain(name: Text)
    requires IsName(name)
    ensures IsPlain(name) && StartsSolid(name)
  {
  }

  lemma PlainConcat(a: Text, b: Text)
    requires IsPlain(a) && IsPlain(b)
    ensures IsPlain(a + b)
  {
  }

  lemma WordsArePlain()
    ensures IsPlain(Ascii("is")) && IsPlain(Ascii("in")) && IsPlain(Ascii("==")) && IsPlain(Ascii("!="))
    ensures IsPlain(Ascii("missing")) && IsPlain(Ascii("present"))
  {
  }

  /** The last part of a condition: a word, a list or a literal. */
  ghost predicate IsLastPart(s: Text) {
    s != [] && IsPiece(OUTSIDE, s) && !IsSpace(s[|s| - 1]) && s[|s| - 1] != AMP && s[0] != AMP
  }

  lemma WordIsLastPart(word: Text)
    requires word == Ascii("missing") || word == Ascii("present")
    ensures IsLastPart(word)
  {
    hide IsPiece;
    Words();
    PlainPiece(word);
  }

  lemma ListIsLastPart(list: Text, vs: seq<Text>)
    requires SpellsArray(list, vs)
    ensures IsLastPart(list)
  {
    hide IsPiece, SpellsArray;
    ArrayPiece(list, vs);
    ArrayWrapped(list, vs);
  }

  lemma LiteralIsLastPart(lit: Text, v: Text)
    requires SpellsString(lit, v)
    ensures IsLastPart(lit)
  {
    hide IsPiece, SpellsString, IsLiteral;
    LiteralExactly(lit, v);
    LiteralPiece(lit, v);
    LiteralWrapped(lit, v);
  }

  lemma PresenceParts(rest: Text, word: Text) returns (plain: Text)
    requires SpellsPresence(rest, word)
    ensures rest == plain + word && IsPlain(plain)
  {
    hide IsPlain;
    var w, x :| IsGap(w) && IsGap(x) && rest == w + Ascii("is") + x + word;
    BlanksArePlain(w);
    BlanksArePlain(x);
    WordsArePlain();
    PlainConcat(w, Ascii("is"));
    PlainConcat(w + Ascii("is"), x);
    plain := w + Ascii("is") + x;
  }

  lemma ListingParts(rest: Text, values: seq<Text>) returns (plain: Text, last: Text)
    requires SpellsListing(rest, values)
    ensures rest == plain + last && IsPlain(plain) && IsLastPart(last)
  {
    hide IsPlain, IsLastPart, SpellsArray, KeepsFirst;
    var w, x, list, all :|
      && rest == w + Ascii("in") + x + list
      && IsGap(w) && IsGap(x) && SpellsArray(list, all)
      && 1 <= |all| <= 32 && KeepsFirst(all, values);
    BlanksArePlain(w);
    BlanksArePlain(x);
    WordsArePlain();
    PlainConcat(w, Ascii("in"));
    PlainConcat(w + Ascii("in"), x);
    ListIsLastPart(list, all);
    plain, last := w + Ascii("in") + x, list;
  }

  lemma ComparisonParts(rest: Text, sign: Text, value: Text) returns (plain: Text, last: Text)
    requires SpellsComparison(rest, sign, value) && IsPlain(sign)
    ensures rest == plain + last && IsPlain(plain) && IsLastPart(last)
  {
    hide IsPlain, IsLastPart, SpellsString;
    var w, x, lit :|
      && rest == w + sign + x + lit
      && Blanks(w) && Blanks(x) && SpellsString(lit, value) && value != [];
    BlanksArePlain(w);
    BlanksArePlain(x);
    PlainConcat(w, sign);
    PlainConcat(w + sign, x);
    LiteralIsLastPart(lit, value);
    plain, last := w + sign + x, lit;
  }

  lemma TailParts(rest: Text, c: Condition) returns (plain: Text, last: Text)
    requires SpellsTail(rest, c)
    ensures rest == plain + last && IsPlain(plain) && IsLastPart(last)
  {
    hide IsPlain, IsLastPart, SpellsPresence, SpellsListing, SpellsComparison;
    WordsArePlain();
    match c
    case Missing(_) =>
      last := Ascii("missing");
      WordIsLastPart(last);
      plain := PresenceParts(rest, last);
    case Present(_) =>
      last := Ascii("present");
      WordIsLastPart(last);
      plain := PresenceParts(rest, last);
    case In(_, values) =>
      plain, last := ListingParts(rest, values);
    case Eq(_, value) =>
      plain, last := ComparisonParts(rest, Ascii("=="), value);
    case Ne(_, value) =>
      plain, last := ComparisonParts(rest, Ascii("!="), value);
  }

  ghost predicate IsSolidPiece(t: Text) {
    && t != [] && Trimmed(t) && IsPiece(OUTSIDE, t)
    && t[|t| - 1] != AMP && t[0] != AMP && t[0] != EQUALS
  }

  /** A condition is one piece, and no white space is around it. */
  lemma ConditionPiece(t: Text, c: Condition)
    requires SpellsCondition(t, c)
    ensures IsSolidPiece(t)
  {
    hide SpellsTail, IsName, IsPiece, IsPlain;
    var rest :| t == c.field + rest && SpellsTail(rest, c);
    var plain, last := TailParts(rest, c);
    NameIsPlain(c.field);
    PlainConcat(c.field, plain);
    var before := c.field + plain;
    PlainBefore(before, last);
    assert t == before + last;
    NameStart(c.field);
  }

  lemma NameStart(name: Text)
    requires IsName(name)
    ensures name != [] && name[0] != AMP && name[0] != EQUALS
  {
  }

  lemma PlainBefore(before: Text, last: Text)
    requires IsPlain(before) && IsLastPart(last)
    ensures IsPiece(OUTSIDE, before + last)
  {
    hide IsPiece;
    PlainPiece(before);
    PieceConcat(OUTSIDE, before, last);
  }

  // ----- the conditions of a rule -----

  /** How the conditions are read: cut at `&&`, then each piece by itself. */
  function ReadConditions(raw: Text, allowed: set<Text>): Result<seq<Condition>> {
    var parts :- SplitConjunctions(raw);
    ParseConditions(parts, allowed)
  }

  lemma {:induction false} EachCondition(parts: seq<Text>, cs: seq<Condition>, allowed: set<Text>)
    ensures ParseConditions(parts, allowed) == Ok(cs)
       <==> |parts| == |cs| && forall k :: 0 <= k < |parts| ==> ParseCondition(parts[k], allowed) == Ok(cs[k])
  {
    hide ParseCondition;
    if parts == [] {
      assert cs == [] <==> |cs| == 0;
    } else if cs != [] {
      var n, m := |parts| - 1, |cs| - 1;
      EachCondition(parts[..n], cs[..m], allowed);
      assert cs == cs[..m] + [cs[m]];
      assert forall k :: 0 <= k < n ==> parts[..n][k] == parts[k];
      assert forall k :: 0 <= k < m ==> cs[..m][k] == cs[k];
      if ParseConditions(parts, allowed) == Ok(cs) {
        var before := ParseConditions(parts[..n], allowed).Extract();
        var last := ParseCondition(parts[n], allowed).Extract();
        assert cs == before + [last];
        assert cs[..m] == before && cs[m] == last;
      }
    }
  }

  lemma PadPiece(w: Text, t: Text, x: Text)
    requires Blanks(w) && Blanks(x) && IsSolidPiece(t)
    ensures var p := w + t + x; IsPiece(OUTSIDE, p) && !EndsInAmp(p) && Trim(p) == t
  {
    hide IsPiece, Blanks, Trim;
    BlanksArePlain(w);
    BlanksArePlain(x);
    PlainPiece(w);
    PlainPiece(x);
    PieceConcat(OUTSIDE, w, t);
    PieceConcat(OUTSIDE, w + t, x);
    TrimPadded(w, t, x);
    assert x != [] ==> (w + t + x)[|w + t + x| - 1] == x[|x| - 1];
  }

  lemma FirstCondition(t: Text, cs: seq<Condition>) returns (first: Text, w: Text, x: Text, rest: Text)
    requires SpellsConditions(t, cs) && |cs| > 1
    ensures t == first + w + Ascii("&&") + x + rest
    ensures SpellsCondition(first, cs[0]) && Blanks(w) && Blanks(x) && SpellsConditions(rest, cs[1..])
  {
    hide SpellsCondition, Blanks;
    first, w, x, rest :|
      && t == first + w + Ascii("&&") + x + rest
      && SpellsCondition(first, cs[0]) && Blanks(w) && Blanks(x) && SpellsConditions(rest, cs[1..]);
  }

  ghost predicate ArePieces(pieces: seq<Text>, cs: seq<Condition>) {
    && |pieces| == |cs| && pieces != []
    && forall k :: 0 <= k < |pieces| ==>
      IsPiece(OUTSIDE, pieces[k]) && !EndsInAmp(pieces[k]) && SpellsCondition(Trim(pieces[k]), cs[k])
  }

  /** The pieces of a spelled conjunction, the first of them behind the white space `lead`. */
  lemma {:induction false} PiecesOf(lead: Text, t: Text, cs: seq<Condition>) returns (pieces: seq<Text>)
    requires Blanks(lead) && SpellsConditions(t, cs)
    ensures ArePieces(pieces, cs) && Join(pieces, AND) == lead + t
    decreases |cs|
  {
    hide SpellsCondition, SpellsConditions, Blanks, IsPiece, Trim, IsSolidPiece;
    SomeConditions(t, cs);
    if |cs| == 1 {
      OnlyCondition(t, cs);
      ConditionPiece(t, cs[0]);
      var nothing: Text := [];
      NothingIsBlank();
      PadPiece(lead, t, nothing);
      assert lead + t + nothing == lead + t;
      pieces := [lead + t];
    } else {
      var first, w, x, rest := FirstCondition(t, cs);
      Words();
      ConditionPiece(first, cs[0]);
      PadPiece(lead, first, w);
      var more := PiecesOf(x, rest, cs[1..]);
      pieces := [lead + first + w] + more;
      assert pieces[1..] == more;
      assert lead + t == lead + first + w + AND + (x + rest);
    }
  }

  lemma SomeConditions(t: Text, cs: seq<Condition>)
    requires SpellsConditions(t, cs)
    ensures cs != []
  {
  }

  lemma OnlyCondition(t: Text, cs: seq<Condition>)
    requires |cs| == 1
    ensures SpellsConditions(t, cs) <==> SpellsCondition(t, cs[0])
  {
  }

  lemma NothingIsBlank()
    ensures Blanks([])
  {
  }

  /** Spelled conditions over allowed fields, at most twelve, are read as they are spelled. */
  lemma ConditionsRead(t: Text, cs: seq<Condition>, allowed: set<Text>)
    requires SpellsConditions(t, cs) && |cs| <= 12 && forall k :: 0 <= k < |cs| ==> cs[k].field in allowed
    ensures ReadConditions(t, allowed) == Ok(cs)
  {
    hide SpellsConditions, ParseConditions, SpellsCondition, IsPiece, Trim, Join, Cut, Blanks;
    NothingIsBlank();
    var nothing: Text := [];
    var pieces := PiecesOf(nothing, t, cs);
    assert nothing + t == t;
    CutComplete(pieces);
    var parts := TrimAll(pieces);
    forall k | 0 <= k < |parts|
      ensures parts[k] != [] && ParseCondition(parts[k], allowed) == Ok(cs[k])
    {
      ConditionReads(parts[k], cs[k], allowed);
      ConditionNotEmpty(parts[k], cs[k]);
    }
    EachCondition(parts, cs, allowed);
  }

  lemma ConditionNotEmpty(t: Text, c: Condition)
    requires SpellsCondition(t, c)
    ensures t != []
  {
    hide IsSolidPiece;
    ConditionPiece(t, c);
    SolidNotEmpty(t);
  }

  lemma SolidNotEmpty(t: Text)
    requires IsSolidPiece(t)
    ensures t != []
  {
  }

  lemma SpellsFirst(first: Text, w: Text, x: Text, rest: Text, c: Condition, cs: seq<Condition>)
    requires SpellsCondition(first, c) && Blanks(w) && Blanks(x) && SpellsConditions(rest, cs)
    ensures SpellsConditions(first + w + Ascii("&&") + x + rest, [c] + cs)
  {
    hide SpellsCondition, Blanks;
    SomeConditions(rest, cs);
    assert ([c] + cs)[1..] == cs;
  }

  /** The text of the pieces is a spelled conjunction with white space around it. */
  lemma {:induction false} PiecesSpell(pieces: seq<Text>, cs: seq<Condition>) returns (w: Text, core: Text, x: Text)
    requires |pieces| == |cs| && pieces != []
    requires forall k :: 0 <= k < |pieces| ==> SpellsCondition(Trim(pieces[k]), cs[k])
    ensures Join(pieces, AND) == w + core + x && Blanks(w) && Blanks(x) && SpellsConditions(core, cs)
  {
    hide SpellsCondition, SpellsConditions, Blanks, Trim;
    var first := Trim(pieces[0]);
    var v, y := TrimSplits(pieces[0]);
    if |cs| == 1 {
      OnlyCondition(first, cs);
      w, core, x := v, first, y;
    } else {
      var more, rest, end := PiecesSpell(pieces[1..], cs[1..]);
      Words();
      SpellsFirst(first, y, more, rest, cs[0], cs[1..]);
      assert cs == [cs[0]] + cs[1..];
      w, core, x := v, first + y + Ascii("&&") + more + rest, end;
      PiecesRegroup(v, first, y, more, rest, end);
    }
  }

  lemma PiecesRegroup(v: Text, first: Text, y: Text, more: Text, rest: Text, end: Text)
    ensures (v + first + y) + AND + (more + rest + end) == v + (first + y + AND + more + rest) + end
  {
  }

  /** What is read is spelled. */
  lemma ReadConditionsSpelled(t: Text, cs: seq<Condition>, allowed: set<Text>) returns (w: Text, core: Text, x: Text)
    requires ReadConditions(t, allowed) == Ok(cs)
    ensures t == w + core + x && Blanks(w) && Blanks(x) && SpellsConditions(core, cs)
    ensures |cs| <= 12 && forall k :: 0 <= k < |cs| ==> cs[k].field in allowed
  {
    hide SpellsConditions, ParseConditions, ParseCondition, SpellsCondition, IsPiece, Trim, Join, Cut, Blanks;
    var parts := SplitConjunctions(t).Extract();
    var pieces := Cut(OUTSIDE, t).value;
    CutIsTheSplit(t, pieces);
    EachCondition(parts, cs, allowed);
    forall k | 0 <= k < |parts|
      ensures SpellsCondition(Trim(pieces[k]), cs[k]) && cs[k].field in allowed
    {
      ConditionExactly(parts[k], cs[k], allowed);
    }
    w, core, x := PiecesSpell(pieces, cs);
  }

  /** The conditions of a rule are read exactly as they are spelled. */
  lemma ConditionsExactly(t: Text, cs: seq<Condition>, allowed: set<Text>)
    requires Trimmed(t)
    ensures ReadConditions(t, allowed) == Ok(cs)
       <==> SpellsConditions(t, cs) && |cs| <= 12 && forall k :: 0 <= k < |cs| ==> cs[k].field in allowed
  {
    hide SpellsConditions, Blanks, ReadConditions, IsSpace;
    if ReadConditions(t, allowed) == Ok(cs) {
      var w, core, x := ReadConditionsSpelled(t, cs, allowed);
      ConditionsEnds(core, cs);
      NoPadding(w, core, x);
    }
    if SpellsConditions(t, cs) && |cs| <= 12 && forall k :: 0 <= k < |cs| ==> cs[k].field in allowed {
      ConditionsRead(t, cs, allowed);
    }
  }

  lemma NoPadding(w: Text, core: Text, x: Text)
    requires Blanks(w) && Blanks(x) && core != [] && Trimmed(w + core + x)
    ensures w + core + x == core
  {
    hide Blanks, IsSpace;
    var t := w + core + x;
    assert t[..|w|] == w && t[|t| - |x|..] == x;
    assert w == [] && x == [];
  }

  lemma {:induction false} ConditionsEnds(t: Text, cs: seq<Condition>)
    requires SpellsConditions(t, cs)
    ensures t != [] && Trimmed(t) && t[0] != EQUALS
    decreases |cs|
  {
    hide SpellsConditions, SpellsCondition, IsPiece, IsSpace, Blanks;
    SomeConditions(t, cs);
    if |cs| == 1 {
      OnlyCondition(t, cs);
      ConditionPiece(t, cs[0]);
    } else {
      var first, w, x, rest := FirstCondition(t, cs);
      ConditionPiece(first, cs[0]);
      ConditionsEnds(rest, cs[1..]);
      assert t[0] == first[0] && t[|t| - 1] == rest[|rest| - 1];
    }
  }

  // ----- lines -----

  lemma LineWords()
    ensures Ascii("when") == WHEN && Ascii("else") == ELSE && Ascii("=>") == ARROW
  {
  }

  lemma {:induction false} FirstArrowIs(s: Text, from: nat, q: nat)
    requires from <= q <= |s| - 2 && s[q] == EQUALS && s[q + 1] == GREATER
    requires forall i :: from <= i < q ==> !(s[i] == EQUALS && s[i + 1] == GREATER)
    ensures FirstArrow(s, from) == Some(q)
    decreases q - from
  {
    if from < q {
      FirstArrowIs(s, from + 1, q);
    }
  }

  lemma {:induction false} ArrowIsFirst(s: Text, from: nat)
    requires FirstArrow(s, from).Some?
    ensures var q := FirstArrow(s, from).value;
      && s[q] == EQUALS && s[q + 1] == GREATER
      && forall i :: from <= i < q ==> !(s[i] == EQUALS && s[i + 1] == GREATER)
    decreases |s| - from
  {
    if !(s[from] == EQUALS && s[from + 1] == GREATER) {
      ArrowIsFirst(s, from + 1);
    }
  }

  lemma OutputEnds(out: Text, output: Output, allowed: set<Text>)
    requires SpellsOutput(out, output, allowed)
    ensures out != [] && Trimmed(out)
  {
    hide IsTemplate, SpellsUnits;
    Words();
    if output.Sku? {
      LiteralWrapped(out, output.template);
    }
  }

  lemma PaddedOutput(y: Text, out: Text, z: Text, output: Output, allowed: set<Text>)
    requires Blanks(y) && Blanks(z) && SpellsOutput(out, output, allowed)
    ensures var t := y + out + z; t != [] && Trim(t) == out && ParseOutput(Trim(t), allowed) == Ok(output)
  {
    hide Blanks, SpellsOutput, Trim, ParseOutput;
    OutputEnds(out, output, allowed);
    TrimPadded(y, out, z);
    OutputExactly(out, output, allowed);
  }

  /** What stands behind `when` and the white space after it. */
  function BehindWhen(cs: Text, x: Text, tail: Text): Text {
    cs + x + ARROW + tail
  }

  lemma ArrowBehind(cs: Text, x: Text, tail: Text)
    requires cs != [] && Blanks(x) && HoldsNoArrow(cs)
    ensures FirstArrow(BehindWhen(cs, x, tail), 1) == Some(|cs| + |x|)
  {
    hide FirstArrow, Blanks;
    var t, q := BehindWhen(cs, x, tail), |cs| + |x|;
    assert t[q] == EQUALS && t[q + 1] == GREATER;
    forall i | 1 <= i < q
      ensures !(t[i] == EQUALS && t[i + 1] == GREATER)
    {
      assert i < |cs| ==> t[i] == cs[i];
      assert i + 1 < |cs| ==> t[i + 1] == cs[i + 1];
      assert |cs| <= i ==> t[i] == x[i - |cs|];
      assert |cs| <= i + 1 < q ==> t[i + 1] == x[i + 1 - |cs|];
    }
    FirstArrowIs(t, 1, q);
  }

  lemma WhenSplits(w: Text, cs: Text, x: Text, tail: Text)
    requires IsGap(w) && cs != [] && Trimmed(cs) && Blanks(x) && HoldsNoArrow(cs) && tail != []
    ensures WhenParts(WHEN + (w + BehindWhen(cs, x, tail))) == Some((cs, Trim(tail)))
  {
    hide FirstArrow, Blanks, HoldsNoArrow, TrimLeft, TrimRight, Trim, BehindWhen, IsSpace;
    var t, q := BehindWhen(cs, x, tail), |cs| + |x|;
    var code := WHEN + (w + t);
    assert code[..4] == WHEN && code[4..] == w + t;
    assert t[0] == cs[0] && t[..q] == cs + x && t[q + 2..] == tail && |t| > q + 2 by {
      BehindParts(cs, x, tail);
    }
    TrimLeftSkips(w, t);
    ArrowBehind(cs, x, tail);
    TrimRightSkips(cs, x);
  }

  lemma BehindParts(cs: Text, x: Text, tail: Text)
    requires cs != [] && tail != []
    ensures var t, q := BehindWhen(cs, x, tail), |cs| + |x|;
      |t| > q + 2 && t[0] == cs[0] && t[..q] == cs + x && t[q + 2..] == tail
  {
  }

  lemma WhenIsNotElse(rest: Text)
    ensures ElseBody(WHEN + rest) == None
  {
    assert (WHEN + rest)[..4] == WHEN;
    assert WHEN[0] != ELSE[0];
  }

  /** A spelled rule line is read as the rule it spells. */
  lemma RuleReads(code: Text, rule: Rule, allowed: set<Text>)
    requires SpellsRule(code, rule, allowed)
    ensures ElseBody(code) == None && ParseRule(code, allowed) == Ok(rule)
  {
    hide SpellsConditions, SpellsOutput, Blanks, HoldsNoArrow, WhenParts, SplitConjunctions, ParseConditions,
         ParseOutput, Trim, ElseBody, BehindWhen, IsSpace;
    LineWords();
    var w, cs, x, y, out, z :|
      && code == Ascii("when") + w + cs + x + Ascii("=>") + y + out + z
      && IsGap(w) && SpellsConditions(cs, rule.conditions) && Blanks(x)
      && Blanks(y) && SpellsOutput(out, rule.output, allowed) && Blanks(z)
      && HoldsNoArrow(cs);
    var tail := y + out + z;
    WhenRegroups(w, cs, x, y, out, z);
    ConditionsEnds(cs, rule.conditions);
    PaddedOutput(y, out, z, rule.output, allowed);
    WhenSplits(w, cs, x, tail);
    WhenIsNotElse(w + BehindWhen(cs, x, tail));
    ConditionsExactly(cs, rule.conditions, allowed);
    RuleOfParts(code, cs, Trim(tail), rule, allowed);
  }

  lemma WhenRegroups(w: Text, cs: Text, x: Text, y: Text, out: Text, z: Text)
    ensures WHEN + w + cs + x + ARROW + y + out + z == WHEN + (w + BehindWhen(cs, x, y + out + z))
  {
    var tail := y + out + z;
    assert WHEN + w + cs + x + ARROW + y + out + z == WHEN + w + cs + x + ARROW + tail;
    assert WHEN + w + cs + x + ARROW + tail == WHEN + (w + (cs + x + ARROW + tail));
  }

  lemma RuleOfParts(code: Text, cs: Text, out: Text, rule: Rule, allowed: set<Text>)
    requires WhenParts(code) == Some((cs, out))
    ensures ParseRule(code, allowed) == Ok(rule)
       <==> ReadConditions(cs, allowed) == Ok(rule.conditions) && ParseOutput(out, allowed) == Ok(rule.output)
  {
    hide WhenParts, SplitConjunctions, ParseConditions, ParseOutput;
    if ParseRule(code, allowed) == Ok(rule) {
      var parts := SplitConjunctions(cs).Extract();
      var conditions := ParseConditions(parts, allowed).Extract();
      var output := ParseOutput(out, allowed).Extract();
      assert rule == Rule(conditions, output);
    }
    if ReadConditions(cs, allowed) == Ok(rule.conditions) && ParseOutput(out, allowed) == Ok(rule.output) {
      var parts := SplitConjunctions(cs).Extract();
      assert ParseConditions(parts, allowed).Extract() == rule.conditions;
      assert ParseOutput(out, allowed).Extract() == rule.output;
    }
  }

  ghost predicate NoArrowPastStart(s: Text) {
    forall i :: 1 <= i < |s| - 1 ==> !(s[i] == EQUALS && s[i + 1] == GREATER)
  }

  lemma PartsAtArrow(t: Text) returns (x: Text)
    requires FirstArrow(t, 1).Some? && !IsSpace(t[0])
    ensures var q := FirstArrow(t, 1).value;
      var cs := TrimRight(t[..q]);
      t == BehindWhen(cs, x, t[q + 2..]) && Blanks(x) && Trimmed(cs) && NoArrowPastStart(cs)
  {
    hide Blanks, TrimRight, IsSpace, FirstArrow;
    ArrowIsFirst(t, 1);
    var q := FirstArrow(t, 1).value;
    x := TrimRightSplits(t[..q]);
    var cs := TrimRight(t[..q]);
    assert t == t[..q] + t[q..q + 2] + t[q + 2..];
    assert t[q..q + 2] == ARROW;
    assert cs != [] ==> cs[0] == t[0];
    assert forall i :: 0 <= i < |cs| ==> cs[i] == t[i];
  }

  lemma WhenPartsAre(code: Text)
    requires WhenParts(code).Some?
    ensures |code| >= 4 && code == WHEN + code[4..]
    ensures var t := TrimLeft(code[4..]);
      && |t| < |code| - 4 && FirstArrow(t, 1).Some?
      && var q := FirstArrow(t, 1).value;
      WhenParts(code).value == (TrimRight(t[..q]), Trim(t[q + 2..]))
  {
    hide FirstArrow, TrimLeft, TrimRight, Trim;
  }

  /** The parts of a rule line, as they stand in it. */
  lemma PartsOfWhen(code: Text) returns (w: Text, x: Text, tail: Text)
    requires WhenParts(code).Some?
    ensures var (cs, out) := WhenParts(code).value;
      && code == WHEN + (w + BehindWhen(cs, x, tail)) && IsGap(w) && Blanks(x) && out == Trim(tail)
      && Trimmed(cs) && NoArrowPastStart(cs)
  {
    hide FirstArrow, Blanks, TrimLeft, TrimRight, Trim, IsSpace, BehindWhen, Trimmed, WhenParts, NoArrowPastStart;
    WhenPartsAre(code);
    var t := TrimLeft(code[4..]);
    w := TrimLeftSplits(code[4..]);
    x := PartsAtArrow(t);
    tail := t[FirstArrow(t, 1).value + 2..];
  }

  /** A rule line that is read spells the rule. */
  lemma RuleRead(code: Text, rule: Rule, allowed: set<Text>)
    requires ParseRule(code, allowed) == Ok(rule)
    ensures SpellsRule(code, rule, allowed)
  {
    hide SpellsConditions, SpellsOutput, Blanks, WhenParts, ReadConditions, ParseOutput, Trim, BehindWhen, IsSpace,
         ParseRule;
    LineWords();
    ReadHasParts(code, rule, allowed);
    var (cs, out) := WhenParts(code).value;
    var w, x, tail := PartsOfWhen(code);
    RuleOfParts(code, cs, out, rule, allowed);
    ConditionsExactly(cs, rule.conditions, allowed);
    ConditionsEnds(cs, rule.conditions);
    OutputExactly(out, rule.output, allowed);
    var y, z := TrimSplits(tail);
    WhenRegroups(w, cs, x, y, out, z);
    assert HoldsNoArrow(cs);
    assert code == Ascii("when") + w + cs + x + Ascii("=>") + y + out + z;
  }

  lemma ReadHasParts(code: Text, rule: Rule, allowed: set<Text>)
    requires ParseRule(code, allowed) == Ok(rule)
    ensures WhenParts(code).Some?
  {
    hide WhenParts;
  }

  lemma RuleExactly(code: Text, rule: Rule, allowed: set<Text>)
    ensures ParseRule(code, allowed) == Ok(rule) <==> SpellsRule(code, rule, allowed)
    ensures SpellsRule(code, rule, allowed) ==> ElseBody(code) == None
  {
    hide ParseRule, SpellsRule, ElseBody;
    if ParseRule(code, allowed) == Ok(rule) {
      RuleRead(code, rule, allowed);
    }
    if SpellsRule(code, rule, allowed) {
      RuleReads(code, rule, allowed);
    }
  }

  lemma ElseSplits(w: Text, tail: Text)
    requires Blanks(w) && tail != []
    ensures ElseBody(ELSE + (w + (ARROW + tail))) == Some(Trim(tail))
  {
    hide Blanks, TrimLeft, Trim;
    var t := ARROW + tail;
    var code := ELSE + (w + t);
    assert code[..4] == ELSE && code[4..] == w + t;
    assert !IsSpace(ARROW[0]);
    TrimLeftSkips(w, t);
    assert t[..2] == ARROW && t[2..] == tail;
  }

  lemma ElseRegroups(w: Text, y: Text, out: Text, z: Text)
    ensures ELSE + w + ARROW + y + out + z == ELSE + (w + (ARROW + (y + out + z)))
  {
  }

  lemma ElseReads(code: Text, output: Output, allowed: set<Text>)
    requires SpellsElse(code, output, allowed)
    ensures ElseBody(code).Some? && ParseOutput(ElseBody(code).value, allowed) == Ok(output)
  {
    hide SpellsOutput, Blanks, ParseOutput, Trim, ElseBody;
    LineWords();
    var w, y, out, z :|
      && code == Ascii("else") + w + Ascii("=>") + y + out + z
      && Blanks(w) && Blanks(y) && SpellsOutput(out, output, allowed) && Blanks(z);
    ElseRegroups(w, y, out, z);
    PaddedOutput(y, out, z, output, allowed);
    ElseSplits(w, y + out + z);
  }

  lemma ElseRead(code: Text, output: Output, allowed: set<Text>)
    requires ElseBody(code).Some? && ParseOutput(ElseBody(code).value, allowed) == Ok(output)
    ensures SpellsElse(code, output, allowed)
  {
    hide SpellsOutput, Blanks, ParseOutput, Trim, TrimLeft;
    LineWords();
    var w := TrimLeftSplits(code[4..]);
    var t := TrimLeft(code[4..]);
    var y, z := TrimSplits(t[2..]);
    var out := ElseBody(code).value;
    OutputExactly(out, output, allowed);
    assert code == ELSE + code[4..] && t == ARROW + t[2..];
    ElseRegroups(w, y, out, z);
    assert code == Ascii("else") + w + Ascii("=>") + y + out + z;
  }

  lemma ElseExactly(code: Text, output: Output, allowed: set<Text>)
    ensures ElseBody(code).Some? && ParseOutput(ElseBody(code).value, allowed) == Ok(output)
       <==> SpellsElse(code, output, allowed)
  {
    hide ElseBody, SpellsElse, ParseOutput;
    if ElseBody(code).Some? && ParseOutput(ElseBody(code).value, allowed) == Ok(output) {
      ElseRead(code, output, allowed);
    }
    if SpellsElse(code, output, allowed) {
      ElseReads(code, output, allowed);
    }
  }

  lemma ElseLineExactly(codes: seq<Text>, rules: seq<Rule>, fallback: Output, allowed: set<Text>)
    requires codes != [] && ElseBody(codes[0]).Some?
    ensures CompileLines(codes, allowed) == Ok(CompiledRule(COMPILER_VERSION, rules, fallback))
       <==> SpellsLines(codes, rules, fallback, allowed)
  {
    hide ElseBody, ParseOutput, ParseRule, SpellsRule, SpellsElse;
    ElseExactly(codes[0], fallback, allowed);
    if rules != [] {
      RuleExactly(codes[0], rules[0], allowed);
    }
    if CompileLines(codes, allowed) == Ok(CompiledRule(COMPILER_VERSION, rules, fallback)) {
      var output := ParseOutput(ElseBody(codes[0]).value, allowed).Extract();
      assert rules == [] && output == fallback;
    }
    if SpellsLines(codes, rules, fallback, allowed) {
      assert rules == [];
      assert ParseOutput(ElseBody(codes[0]).value, allowed).Extract() == fallback;
    }
  }

  lemma SpellsLinesTail(codes: seq<Text>, rules: seq<Rule>, fallback: Output, allowed: set<Text>)
    requires codes != [] && rules != []
    ensures SpellsLines(codes, rules, fallback, allowed)
       <==> SpellsRule(codes[0], rules[0], allowed) && SpellsLines(codes[1..], rules[1..], fallback, allowed)
  {
    hide SpellsRule, SpellsElse;
    assert forall k :: 0 <= k < |rules[1..]| ==> rules[1..][k] == rules[k + 1];
    assert forall k :: 0 <= k < |codes[1..]| ==> codes[1..][k] == codes[k + 1];
    if SpellsRule(codes[0], rules[0], allowed) && SpellsLines(codes[1..], rules[1..], fallback, allowed) {
      forall k | 0 <= k < |rules|
        ensures SpellsRule(codes[k], rules[k], allowed)
      {
        assert k > 0 ==> SpellsRule(codes[1..][k - 1], rules[1..][k - 1], allowed);
      }
    }
  }

  /** The code lines compile exactly to what they spell. */
  lemma {:induction false} LinesExactly(codes: seq<Text>, rules: seq<Rule>, fallback: Output, allowed: set<Text>)
    ensures CompileLines(codes, allowed) == Ok(CompiledRule(COMPILER_VERSION, rules, fallback))
       <==> SpellsLines(codes, rules, fallback, allowed)
    decreases |codes|
  {
    hide ElseBody, ParseOutput, ParseRule, SpellsRule, SpellsElse, SpellsLines;
    if codes == [] {
      NoLines(rules, fallback, allowed);
    } else if ElseBody(codes[0]).Some? {
      ElseLineExactly(codes, rules, fallback, allowed);
    } else if rules == [] {
      OnlyElse(codes, fallback, allowed);
      ElseExactly(codes[0], fallback, allowed);
      RuleLineFirst(codes, allowed);
    } else {
      RuleExactly(codes[0], rules[0], allowed);
      LinesExactly(codes[1..], rules[1..], fallback, allowed);
      SpellsLinesTail(codes, rules, fallback, allowed);
      assert rules == [rules[0]] + rules[1..];
      RuleLineFirst(codes, allowed);
      if CompileLines(codes[1..], allowed) == Ok(CompiledRule(COMPILER_VERSION, rules[1..], fallback))
         && ParseRule(codes[0], allowed) == Ok(rules[0]) {
        assert ParseRule(codes[0], allowed).Extract() == rules[0];
        assert CompileLines(codes[1..], allowed).Extract() == CompiledRule(COMPILER_VERSION, rules[1..], fallback);
      }
    }
  }

  lemma NoLines(rules: seq<Rule>, fallback: Output, allowed: set<Text>)
    ensures !SpellsLines([], rules, fallback, allowed)
  {
  }

  lemma OnlyElse(codes: seq<Text>, fallback: Output, allowed: set<Text>)
    requires codes != []
    ensures SpellsLines(codes, [], fallback, allowed) <==> |codes| == 1 && SpellsElse(codes[0], fallback, allowed)
  {
    hide SpellsElse;
  }

  lemma RuleLineFirst(codes: seq<Text>, allowed: set<Text>)
    requires codes != [] && ElseBody(codes[0]) == None
    ensures CompileLines(codes, allowed).Ok? ==>
      && ParseRule(codes[0], allowed).Ok? && CompileLines(codes[1..], allowed).Ok?
      && var compiled, rest := CompileLines(codes, allowed).value, CompileLines(codes[1..], allowed).value;
      && compiled.rules == [ParseRule(codes[0], allowed).value] + rest.rules
      && compiled.version == rest.version && compiled.fallback == rest.fallback
  {
    hide ElseBody, ParseOutput, ParseRule;
  }
}
