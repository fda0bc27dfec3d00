/** SKU templates: literal text with `${field}` placeholders. */
module SkuTemplates {
  import opened Wrappers
  import opened CodeUnits

  predicate IsNameStart(c: CodeUnit) {
    0x41 <= c <= 0x5A || 0x61 <= c <= 0x7A || c == 0x5F
  }

  predicate IsNamePart(c: CodeUnit) {
    IsNameStart(c) || IsDigit(c)
  }

  /** The whole text is a field name. */
  predicate IsFieldName(s: Text) {
    s != [] && IsNameStart(s[0]) && forall i :: 1 <= i < |s| ==> IsNamePart(s[i])
  }

  function PartLength(s: Text): (n: nat)
    ensures n <= |s| && (forall i :: 0 <= i < n ==> IsNamePart(s[i])) && (n < |s| ==> !IsNamePart(s[n]))
  {
    if s == [] || !IsNamePart(s[0]) then 0 else 1 + PartLength(s[1..])
  }

  /** Length of the longest field name at the start of the text, 0 when there is none. */
  function NameLength(s: Text): (n: nat)
    ensures n <= |s| && (n > 0 ==> IsFieldName(s[..n])) && (0 < n < |s| ==> !IsNamePart(s[n]))
  {
    if s == [] || !IsNameStart(s[0]) then 0 else 1 + PartLength(s[1..])
  }

  lemma {:induction false} PartLengthStops(name: Text, rest: Text)
    requires (forall i :: 0 <= i < |name| ==> IsNamePart(name[i])) && (rest == [] || !IsNamePart(rest[0]))
    ensures PartLength(name + rest) == |name|
  {
    if name == [] {
      assert name + rest == rest;
    } else {
      assert (name + rest)[1..] == name[1..] + rest;
      PartLengthStops(name[1..], rest);
    }
  }

  lemma NameLengthStops(name: Text, rest: Text)
    requires IsFieldName(name) && (rest == [] || !IsNamePart(rest[0]))
    ensures NameLength(name + rest) == |name|
  {
    assert (name + rest)[1..] == name[1..] + rest;
    PartLengthStops(name[1..], rest);
  }

  /** Length of the placeholder that the text starts with. */
  function Placeholder(t: Text): (r: Option<nat>)
    ensures r.Some? ==> 3 < r.value <= |t| && t[0] == DOLLAR && t[1] == OPEN_BRACE && t[r.value - 1] == CLOSE_BRACE
    ensures r.Some? ==> IsFieldName(t[2..r.value - 1])
  {
    if |t| >= 2 && t[0] == DOLLAR && t[1] == OPEN_BRACE then
      var n := NameLength(t[2..]);
      if n > 0 && n + 2 < |t| && t[n + 2] == CLOSE_BRACE then
        assert t[2..][..n] == t[2..n + 2];
        Some(n + 3)
      else None
    else None
  }

  /** One step of the left-to-right scan of a global replace. */
  datatype Token = Unit(unit: CodeUnit) | Hole(field: Text)

  function Tokens(t: Text): (tokens: seq<Token>)
    ensures forall i :: 0 <= i < |tokens| && tokens[i].Hole? ==> IsFieldName(tokens[i].field)
  {
    if t == [] then []
    else
      match Placeholder(t)
      case Some(n) => [Hole(t[2..n - 1])] + Tokens(t[n..])
      case None => [Unit(t[0])] + Tokens(t[1..])
  }

  function Spell(token: Token): Text {
    match token
    case Unit(c) => [c]
    case Hole(field) => [DOLLAR, OPEN_BRACE] + field + [CLOSE_BRACE]
  }

  function SpellAll(tokens: seq<Token>): Text {
    if tokens == [] then [] else Spell(tokens[0]) + SpellAll(tokens[1..])
  }

  lemma SpellCons(token: Token, tokens: seq<Token>)
    ensures SpellAll([token] + tokens) == Spell(token) + SpellAll(tokens)
  {
    assert ([token] + tokens)[1..] == tokens;
  }

  lemma HoleSpelled(t: Text, n: nat)
    requires Placeholder(t) == Some(n)
    ensures Spell(Hole(t[2..n - 1])) == t[..n]
  {
    hide NameLength, IsFieldName;
    assert t[..n] == [t[0], t[1]] + t[2..n - 1] + [t[n - 1]];
  }

  lemma SpellNothing()
    ensures SpellAll([]) == []
  {
  }

  /** The tokens spell the template. */
  lemma {:induction false} TokensSpellTemplate(t: Text)
    ensures SpellAll(Tokens(t)) == t
  {
    hide Placeholder, IsFieldName, SpellAll;
    SpellNothing();
    if t != [] {
      match Placeholder(t)
      case Some(n) =>
        TokensSpellTemplate(t[n..]);
        SpellCons(Hole(t[2..n - 1]), Tokens(t[n..]));
        HoleSpelled(t, n);
        assert t[..n] + t[n..] == t;
      case None =>
        TokensSpellTemplate(t[1..]);
        SpellCons(Unit(t[0]), Tokens(t[1..]));
        assert [t[0]] + t[1..] == t;
    }
  }

  /** The template with its placeholders removed. */
  function Residue(tokens: seq<Token>): Text {
    if tokens == [] then []
    else (match tokens[0] case Unit(c) => [c] case Hole(_) => []) + Residue(tokens[1..])
  }

  function Fields(tokens: seq<Token>): set<Text> {
    set i | 0 <= i < |tokens| && tokens[i].Hole? :: tokens[i].field
  }

  predicate OpensPlaceholder(s: Text, i: int) {
    0 <= i < |s| - 1 && s[i] == DOLLAR && s[i + 1] == OPEN_BRACE
  }

  /** The text contains `${`. */
  predicate HasOpener(s: Text) {
    exists i :: 0 <= i < |s| && OpensPlaceholder(s, i)
  }

  /** The source's check: remove the placeholders, then look for `${`. */
  predicate IsCleanTemplate(t: Text) {
    !HasOpener(Residue(Tokens(t)))
  }

  // ----- what the remove-then-search check guarantees -----

  lemma OpenerInTail(s: Text, c: CodeUnit, i: int)
    requires OpensPlaceholder(s, i)
    ensures OpensPlaceholder([c] + s, i + 1)
  {
  }

  lemma NoPlaceholderWithoutDollar(t: Text)
    requires t != [] && t[0] != DOLLAR
    ensures Placeholder(t) == None
  {
  }

  lemma {:induction false} StrayOpenerSurvives(t: Text, i: nat)
    requires OpensPlaceholder(t, i) && Placeholder(t[i..]) == None
    ensures HasOpener(Residue(Tokens(t)))
    decreases |t|
  {
    hide Placeholder, IsFieldName;
    match Placeholder(t)
    case Some(n) =>
      PlaceholderHoldsNoOpener(t, n, i);
      assert t[i..] == t[n..][i - n..];
      StrayOpenerSurvives(t[n..], i - n);
      assert Tokens(t)[1..] == Tokens(t[n..]);
      assert [] + Residue(Tokens(t[n..])) == Residue(Tokens(t[n..]));
    case None =>
      assert Tokens(t)[1..] == Tokens(t[1..]);
      if i == 0 {
        assert t[1..][0] == OPEN_BRACE;
        NoPlaceholderWithoutDollar(t[1..]);
        assert Tokens(t[1..])[0] == Unit(OPEN_BRACE);
        assert Residue(Tokens(t[1..]))[0] == OPEN_BRACE;
        assert OpensPlaceholder(Residue(Tokens(t)), 0);
      } else {
        assert t[i..] == t[1..][i - 1..];
        StrayOpenerSurvives(t[1..], i - 1);
        var k :| OpensPlaceholder(Residue(Tokens(t[1..])), k);
        OpenerInTail(Residue(Tokens(t[1..])), t[0], k);
      }
  }

  /** Inside a placeholder no other one can open. */
  lemma PlaceholderHoldsNoOpener(t: Text, n: nat, i: nat)
    requires Placeholder(t) == Some(n) && OpensPlaceholder(t, i) && i != 0
    ensures i >= n
  {
    if 2 <= i < n - 1 {
      assert t[i] == t[2..n - 1][i - 2];
      assert IsNamePart(t[i]);
    }
  }

  /** In an accepted template every `${` starts a placeholder. */
  lemma CleanTemplateOpenersArePlaceholders(t: Text, i: nat)
    requires IsCleanTemplate(t) && OpensPlaceholder(t, i)
    ensures Placeholder(t[i..]).Some?
  {
    if Placeholder(t[i..]) == None {
      StrayOpenerSurvives(t, i);
    }
  }

  /** A `$` and a `{` of the template with nothing but placeholders between them. */
  ghost predicate Touching(tokens: seq<Token>, k: int, m: int) {
    && 0 <= k < m < |tokens|
    && tokens[k] == Unit(DOLLAR) && tokens[m] == Unit(OPEN_BRACE)
    && forall j :: k < j < m ==> tokens[j].Hole?
  }

  ghost predicate HasTouching(tokens: seq<Token>) {
    exists k, m :: Touching(tokens, k, m)
  }

  lemma {:induction false} FirstUnit(tokens: seq<Token>)
    requires Residue(tokens) != []
    ensures exists m :: 0 <= m < |tokens| && tokens[m] == Unit(Residue(tokens)[0]) && forall j :: 0 <= j < m ==>
      tokens[j].Hole?
  {
    if tokens[0].Hole? {
      FirstUnit(tokens[1..]);
      var m :| 0 <= m < |tokens[1..]| && tokens[1..][m] == Unit(Residue(tokens[1..])[0]) && forall j :: 0 <= j < m ==>
        tokens[1..][j].Hole?;
      assert tokens[m + 1] == Unit(Residue(tokens)[0]);
      assert forall j :: 0 <= j < m + 1 ==> j == 0 || tokens[j] == tokens[1..][j - 1];
    }
  }

  lemma {:induction false} ResidueStartsAt(tokens: seq<Token>, m: nat)
    requires m < |tokens| && tokens[m].Unit? && forall j :: 0 <= j < m ==> tokens[j].Hole?
    ensures Residue(tokens) != [] && Residue(tokens)[0] == tokens[m].unit
  {
    if m > 0 {
      ResidueStartsAt(tokens[1..], m - 1);
    }
  }

  lemma {:induction false} OpenerTouches(tokens: seq<Token>, i: nat)
    requires OpensPlaceholder(Residue(tokens), i)
    ensures HasTouching(tokens)
  {
    var rest := tokens[1..];
    if tokens[0].Unit? && i == 0 {
      assert Residue(rest) != [] && Residue(rest)[0] == OPEN_BRACE;
      FirstUnit(rest);
      var m :| 0 <= m < |rest| && rest[m] == Unit(OPEN_BRACE) && forall j :: 0 <= j < m ==> rest[j].Hole?;
      assert forall j :: 0 < j < m + 1 ==> tokens[j] == rest[j - 1];
      assert Touching(tokens, 0, m + 1);
    } else {
      OpenerTouches(rest, if tokens[0].Unit? then i - 1 else i);
      var k, m :| Touching(rest, k, m);
      assert forall j :: k + 1 < j < m + 1 ==> tokens[j] == rest[j - 1];
      assert Touching(tokens, k + 1, m + 1);
    }
  }

  lemma {:induction false} TouchingOpens(tokens: seq<Token>, k: int, m: int)
    requires Touching(tokens, k, m)
    ensures HasOpener(Residue(tokens))
  {
    var rest := tokens[1..];
    if k == 0 {
      ResidueStartsAt(rest, m - 1);
      assert OpensPlaceholder(Residue(tokens), 0);
    } else {
      assert forall j :: k - 1 < j < m - 1 ==> rest[j] == tokens[j + 1];
      TouchingOpens(rest, k - 1, m - 1);
      var i :| OpensPlaceholder(Residue(rest), i);
      if tokens[0].Unit? {
        OpenerInTail(Residue(rest), tokens[0].unit, i);
      } else {
        assert [] + Residue(rest) == Residue(rest);
      }
    }
  }

  /** The check accepts exactly the templates in which no `$` touches a `{` once placeholders are gone. */
  lemma CleanTemplateExactly(t: Text)
    ensures IsCleanTemplate(t) <==> !HasTouching(Tokens(t))
  {
    hide Touching, Tokens, Residue;
    var tokens := Tokens(t);
    if HasOpener(Residue(tokens)) {
      var i :| 0 <= i < |Residue(tokens)| && OpensPlaceholder(Residue(tokens), i);
      OpenerTouches(tokens, i);
    }
    if HasTouching(tokens) {
      var k, m :| Touching(tokens, k, m);
      TouchingOpens(tokens, k, m);
    }
  }
}
