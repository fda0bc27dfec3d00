/** SKU templates taken apart: literal texts with the placeholders between them, stated by code units, and
    the proof that the template scanner reads every template this way. */
module TemplateReadings {
  import opened Wrappers
  import opened CodeUnits
  import opened SkuTemplates

  /** An ASCII letter or underscore, then such letters and digits. */
  ghost predicate IsName(s: Text)
    ensures IsName(s) <==> IsFieldName(s)
  {
    && s != []
    && forall i :: 0 <= i < |s| ==>
      0x41 <= s[i] <= 0x5A || 0x61 <= s[i] <= 0x7A || s[i] == 0x5F || (i > 0 && 0x30 <= s[i] <= 0x39)
  }

  /** `${name}` */
  ghost predicate SpellsPlaceholder(t: Text, name: Text) {
    IsName(name) && t == [0x24, 0x7B] + name + [0x7D]
  }

  ghost predicate HoldsPlaceholder(t: Text) {
    exists i, j, name :: 0 <= i <= j <= |t| && SpellsPlaceholder(t[i..j], name)
  }

  /** `t` is the literals with the placeholders of the names between them. */
  ghost predicate IsReading(t: Text, lits: seq<Text>, names: seq<Text>)
    decreases |names|
  {
    && |lits| == |names| + 1
    && !HoldsPlaceholder(lits[0])
    && if names == [] then t == lits[0]
       else exists hole, rest :: t == lits[0] + hole + rest && SpellsPlaceholder(hole, names[0])
                                 && IsReading(rest, lits[1..], names[1..])
  }

  /** The literals with the values in place of the placeholders. */
  ghost function Fill(lits: seq<Text>, values: seq<Text>): Text
    requires |lits| == |values| + 1
    decreases |values|
  {
    if values == [] then lits[0] else lits[0] + values[0] + Fill(lits[1..], values[1..])
  }

  ghost function Nothings(n: nat): (values: seq<Text>)
    ensures |values| == n && forall k :: 0 <= k < n ==> values[k] == []
  {
    seq(n, _ => [])
  }

  /** The literals with nothing in place of the placeholders. */
  ghost function Bare(lits: seq<Text>): Text
    requires lits != []
  {
    Fill(lits, Nothings(|lits| - 1))
  }

  /** The text contains `${`. */
  ghost predicate HoldsOpener(s: Text)
    ensures HoldsOpener(s) <==> HasOpener(s)
  {
    assert forall i :: OpensPlaceholder(s, i) ==> s[i] == 0x24 && s[i + 1] == 0x7B;
    assert forall i :: 0 <= i < |s| - 1 && s[i] == 0x24 && s[i + 1] == 0x7B ==> OpensPlaceholder(s, i);
    exists i :: 0 <= i < |s| - 1 && s[i] == 0x24 && s[i + 1] == 0x7B
  }

  // ----- the scanner finds the placeholders -----

  lemma PlaceholderFound(name: Text, rest: Text)
    requires IsName(name)
    ensures var hole := [0x24, 0x7B] + name + [0x7D];
      Placeholder(hole + rest) == Some(|hole|) && (hole + rest)[2..|hole| - 1] == name
        && (hole + rest)[|hole|..] == rest
  {
    hide NameLength, IsName, IsFieldName;
    var hole := [0x24, 0x7B] + name + [0x7D];
    var t, tail := hole + rest, [0x7D] + rest;
    assert t[2..] == name + tail;
    NameLengthStops(name, tail);
    NotEmpty(name);
    assert t[2..|name| + 2] == name;
  }

  lemma NotEmpty(name: Text)
    requires IsName(name)
    ensures name != []
  {
  }

  lemma FoundPlaceholder(t: Text, n: nat)
    requires Placeholder(t) == Some(n)
    ensures SpellsPlaceholder(t[..n], t[2..n - 1])
  {
    hide NameLength;
    assert t[..n] == [t[0], t[1]] + t[2..n - 1] + [t[n - 1]];
  }

  lemma FoundIsHeld(t: Text)
    requires Placeholder(t).Some?
    ensures HoldsPlaceholder(t)
  {
    hide SpellsPlaceholder, Placeholder;
    var n := Placeholder(t).value;
    FoundPlaceholder(t, n);
    assert t[0..n] == t[..n];
  }

  lemma TailHolds(t: Text)
    requires t != [] && HoldsPlaceholder(t[1..])
    ensures HoldsPlaceholder(t)
  {
    hide SpellsPlaceholder;
    var i, j, name :| 0 <= i <= j <= |t[1..]| && SpellsPlaceholder(t[1..][i..j], name);
    assert t[1..][i..j] == t[i + 1..j + 1];
  }

  /** A placeholder that begins in a literal ends in it, before the next placeholder. */
  lemma NoneAcross(lit: Text, rest: Text)
    requires lit != [] && (rest == [] || rest[0] == 0x24)
    requires Placeholder(lit + rest).Some?
    ensures HoldsPlaceholder(lit)
  {
    hide Placeholder, IsName;
    var t, n := lit + rest, Placeholder(lit + rest).value;
    FoundPlaceholder(t, n);
    OneDollar(t[..n], t[2..n - 1]);
    assert forall i :: 0 < i < n ==> t[i] == t[..n][i] != 0x24;
    assert rest != [] ==> t[|lit|] == 0x24;
    assert t[..n] == lit[0..n];
  }

  lemma OneDollar(hole: Text, name: Text)
    requires SpellsPlaceholder(hole, name)
    ensures forall i :: 0 < i < |hole| ==> hole[i] != 0x24
  {
    assert forall i :: 2 <= i < |hole| - 1 ==> hole[i] == name[i - 2];
  }

  function Units(s: Text): (tokens: seq<Token>) {
    seq(|s|, i requires 0 <= i < |s| => Unit(s[i]))
  }

  lemma {:induction false} LiteralTokens(lit: Text, rest: Text)
    requires !HoldsPlaceholder(lit) && (rest == [] || rest[0] == 0x24)
    ensures Tokens(lit + rest) == Units(lit) + Tokens(rest)
  {
    hide HoldsPlaceholder, Placeholder;
    if lit == [] {
      assert lit + rest == rest;
    } else {
      if Placeholder(lit + rest).Some? {
        NoneAcross(lit, rest);
      }
      if HoldsPlaceholder(lit[1..]) {
        TailHolds(lit);
      }
      LiteralTokens(lit[1..], rest);
      assert (lit + rest)[1..] == lit[1..] + rest;
      assert Units(lit) == [Unit(lit[0])] + Units(lit[1..]);
    }
  }

  ghost function TokensOf(lits: seq<Text>, names: seq<Text>): seq<Token>
    requires |lits| == |names| + 1
    decreases |names|
  {
    if names == [] then Units(lits[0]) else Units(lits[0]) + ([Hole(names[0])] + TokensOf(lits[1..], names[1..]))
  }

  lemma FirstHole(t: Text, lits: seq<Text>, names: seq<Text>) returns (rest: Text)
    requires IsReading(t, lits, names) && names != []
    ensures IsName(names[0]) && !HoldsPlaceholder(lits[0])
    ensures t == lits[0] + ([0x24, 0x7B] + names[0] + [0x7D] + rest)
    ensures IsReading(rest, lits[1..], names[1..])
  {
    hide HoldsPlaceholder, IsName;
    var hole: Text, after: Text :| t == lits[0] + hole + after && SpellsPlaceholder(hole, names[0])
                                   && IsReading(after, lits[1..], names[1..]);
    rest := after;
  }

  /** However a template is read, the scanner sees that reading. */
  lemma {:induction false} ReadingTokens(t: Text, lits: seq<Text>, names: seq<Text>)
    requires IsReading(t, lits, names)
    ensures Tokens(t) == TokensOf(lits, names)
    decreases |names|
  {
    hide HoldsPlaceholder, IsName, Placeholder, Units;
    if names == [] {
      LiteralTokens(t, []);
      assert t + [] == t;
    } else {
      var rest := FirstHole(t, lits, names);
      var hole := [0x24, 0x7B] + names[0] + [0x7D];
      LiteralTokens(lits[0], hole + rest);
      PlaceholderFound(names[0], rest);
      ReadingTokens(rest, lits[1..], names[1..]);
    }
  }

  lemma ReadsHole(hole: Text, name: Text, rest: Text, lits: seq<Text>, names: seq<Text>)
    requires SpellsPlaceholder(hole, name) && IsReading(rest, lits, names)
    ensures IsReading(hole + rest, [[]] + lits, [name] + names)
  {
    hide IsName;
    var empty: Text := [];
    assert !HoldsPlaceholder(empty);
    assert ([empty] + lits)[1..] == lits && ([name] + names)[1..] == names;
    assert hole + rest == empty + hole + rest;
  }

  lemma ReadsUnit(t: Text, lits: seq<Text>, names: seq<Text>)
    requires t != [] && Placeholder(t) == None && IsReading(t[1..], lits, names)
    ensures IsReading(t, [[t[0]] + lits[0]] + lits[1..], names)
  {
    hide HoldsPlaceholder, Placeholder, SpellsPlaceholder;
    var lit := [t[0]] + lits[0];
    var all := [lit] + lits[1..];
    assert all[1..] == lits[1..];
    if names == [] {
      assert t == lit && lit[1..] == lits[0];
      assert lit + [] == lit;
      StartsNone(lit, []);
    } else {
      var rest := FirstHole(t[1..], lits, names);
      var hole := [0x24, 0x7B] + names[0] + [0x7D];
      assert SpellsPlaceholder(hole, names[0]) by {
        SpellsIt(names[0]);
      }
      assert t == lit + hole + rest;
      assert t == lit + (hole + rest) && lit[1..] == lits[0];
      StartsNone(lit, hole + rest);
    }
  }

  lemma SpellsIt(name: Text)
    requires IsName(name)
    ensures SpellsPlaceholder([0x24, 0x7B] + name + [0x7D], name)
  {
  }

  lemma Occurrence(t: Text) returns (i: nat, j: nat, name: Text)
    requires HoldsPlaceholder(t)
    ensures i <= j <= |t| && SpellsPlaceholder(t[i..j], name)
  {
    hide SpellsPlaceholder;
    i, j, name :| 0 <= i <= j <= |t| && SpellsPlaceholder(t[i..j], name);
  }

  lemma TailOccurrence(t: Text, i: nat, j: nat, name: Text)
    requires 0 < i <= j <= |t| && SpellsPlaceholder(t[i..j], name)
    ensures HoldsPlaceholder(t[1..])
  {
    hide SpellsPlaceholder;
    var tail := t[1..];
    assert tail[i - 1..j - 1] == t[i..j];
  }

  lemma HeldAtStart(lit: Text, rest: Text)
    requires lit != [] && HoldsPlaceholder(lit) && !HoldsPlaceholder(lit[1..])
    ensures Placeholder(lit + rest).Some?
  {
    hide Placeholder, HoldsPlaceholder, IsName;
    var i, j, name := Occurrence(lit);
    if i > 0 {
      TailOccurrence(lit, i, j, name);
    }
    PlaceholderFound(name, lit[j..] + rest);
    assert lit + rest == lit[0..j] + (lit[j..] + rest);
  }

  /** A literal that holds no placeholder past its first unit holds none if none starts the whole text. */
  lemma StartsNone(lit: Text, rest: Text)
    requires lit != [] && !HoldsPlaceholder(lit[1..]) && Placeholder(lit + rest) == None
    ensures !HoldsPlaceholder(lit)
  {
    hide Placeholder, HoldsPlaceholder;
    if HoldsPlaceholder(lit) {
      HeldAtStart(lit, rest);
    }
  }

  lemma LiteralThenHole(lit: Text, name: Text, rest: Text, lits: seq<Text>, names: seq<Text>)
    requires !HoldsPlaceholder(lit) && IsName(name) && IsReading(rest, lits, names)
    ensures IsReading(lit + ([0x24, 0x7B] + name + [0x7D]) + rest, [lit] + lits, [name] + names)
  {
    hide HoldsPlaceholder, IsName;
    SpellsIt(name);
    assert ([lit] + lits)[1..] == lits && ([name] + names)[1..] == names;
  }

  lemma OnlyLiteral(lit: Text)
    requires !HoldsPlaceholder(lit)
    ensures IsReading(lit, [lit], [])
  {
    hide HoldsPlaceholder;
  }

  lemma HeldHasDollar(t: Text)
    requires HoldsPlaceholder(t)
    ensures 0x24 in t
  {
    hide HoldsPlaceholder;
    var i, j, name := Occurrence(t);
    assert t[i..j][0] == t[i];
  }

  /** Every template has a reading. */
  lemma {:induction false} ReadingExists(t: Text) returns (lits: seq<Text>, names: seq<Text>)
    ensures IsReading(t, lits, names)
    decreases |t|
  {
    hide IsReading, SpellsPlaceholder, Placeholder;
    if t == [] {
      lits, names := [t], [];
      EmptyReading();
    } else {
      match Placeholder(t) {
        case Some(n) =>
          var moreLits, moreNames := ReadingExists(t[n..]);
          FoundPlaceholder(t, n);
          ReadsHole(t[..n], t[2..n - 1], t[n..], moreLits, moreNames);
          assert t == t[..n] + t[n..];
          lits, names := [[]] + moreLits, [t[2..n - 1]] + moreNames;
        case None =>
          var moreLits, moreNames := ReadingExists(t[1..]);
          ReadingShape(t[1..], moreLits, moreNames);
          ReadsUnit(t, moreLits, moreNames);
          lits, names := [[t[0]] + moreLits[0]] + moreLits[1..], moreNames;
      }
    }
  }

  lemma EmptyReading()
    ensures IsReading([], [[]], [])
  {
    var empty: Text := [];
    assert !HoldsPlaceholder(empty);
  }

  lemma ReadingShape(t: Text, lits: seq<Text>, names: seq<Text>)
    requires IsReading(t, lits, names)
    ensures |lits| == |names| + 1
  {
  }

  // ----- fields and the check for stray openers -----

  lemma {:induction false} FieldsOf(lits: seq<Text>, names: seq<Text>)
    requires |lits| == |names| + 1
    ensures Fields(TokensOf(lits, names)) == set k | 0 <= k < |names| :: names[k]
    decreases |names|
  {
    var tokens := TokensOf(lits, names);
    var m := |lits[0]|;
    if names == [] {
      assert Fields(tokens) == {};
    } else {
      FieldsOf(lits[1..], names[1..]);
      var rest := TokensOf(lits[1..], names[1..]);
      assert forall i :: 0 <= i < |tokens| ==>
        tokens[i] == if i < m then Unit(lits[0][i]) else if i == m then Hole(names[0]) else rest[i - m - 1];
      forall f | f in Fields(tokens)
        ensures f in (set k | 0 <= k < |names| :: names[k])
      {
        var i :| 0 <= i < |tokens| && tokens[i].Hole? && tokens[i].field == f;
        if i > m {
          assert f in Fields(rest);
          var k :| 0 <= k < |names[1..]| && names[1..][k] == f;
          assert names[k + 1] == f;
        }
      }
      forall k | 0 <= k < |names|
        ensures names[k] in Fields(tokens)
      {
        if k == 0 {
          assert tokens[m] == Hole(names[0]);
        } else {
          assert names[1..][k - 1] in Fields(rest);
          var i :| 0 <= i < |rest| && rest[i].Hole? && rest[i].field == names[k];
          assert tokens[i + m + 1] == rest[i];
        }
      }
    }
  }

  lemma ResidueOfUnit(c: CodeUnit, more: seq<Token>)
    ensures Residue([Unit(c)] + more) == [c] + Residue(more)
  {
    assert ([Unit(c)] + more)[1..] == more;
  }

  lemma {:induction false} ResidueOfUnits(s: Text, more: seq<Token>)
    ensures Residue(Units(s) + more) == s + Residue(more)
  {
    hide Residue;
    if s == [] {
      assert Units(s) + more == more;
    } else {
      ResidueOfUnits(s[1..], more);
      ResidueOfUnit(s[0], Units(s[1..]) + more);
      assert Units(s) + more == [Unit(s[0])] + (Units(s[1..]) + more);
      assert [s[0]] + (s[1..] + Residue(more)) == s + Residue(more);
    }
  }

  lemma ResidueOfHole(name: Text, more: seq<Token>)
    ensures Residue([Hole(name)] + more) == Residue(more)
  {
    assert ([Hole(name)] + more)[1..] == more;
  }

  lemma {:induction false} ResidueOf(lits: seq<Text>, names: seq<Text>)
    requires |lits| == |names| + 1
    ensures Residue(TokensOf(lits, names)) == Bare(lits)
    decreases |names|
  {
    hide Residue, Units;
    if names == [] {
      ResidueOfUnits(lits[0], []);
      assert Units(lits[0]) + [] == Units(lits[0]);
      ResidueOfNothing();
    } else {
      var more := TokensOf(lits[1..], names[1..]);
      ResidueOf(lits[1..], names[1..]);
      ResidueOfUnits(lits[0], [Hole(names[0])] + more);
      ResidueOfHole(names[0], more);
      assert Nothings(|names|)[1..] == Nothings(|names| - 1);
      assert lits[0] + Nothings(|names|)[0] == lits[0];
    }
  }

  lemma ResidueOfNothing()
    ensures Residue([]) == []
  {
  }

  /** The template check in terms of any reading: the names used, and no `${` once the placeholders are gone. */
  lemma TemplateExactly(t: Text, lits: seq<Text>, names: seq<Text>, allowed: set<Text>)
    requires IsReading(t, lits, names)
    ensures Fields(Tokens(t)) <= allowed && IsCleanTemplate(t)
       <==> (forall k :: 0 <= k < |names| ==> names[k] in allowed) && !HoldsOpener(Bare(lits))
  {
    hide Tokens, IsReading, Residue, HoldsOpener, HasOpener, Bare;
    ReadingShape(t, lits, names);
    ReadingTokens(t, lits, names);
    FieldsOf(lits, names);
    ResidueOf(lits, names);
  }
}
