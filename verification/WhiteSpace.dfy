/** White space as ECMAScript lists it, and what `trim` does in terms of it. */
module WhiteSpace {
  import opened CodeUnits

  /** The white space and line terminators of ECMAScript. */
  ghost const BLANKS: set<CodeUnit> :=
    {0x09, 0x0A, 0x0B, 0x0C, 0x0D, 0x20, 0xA0, 0x1680, 0x2000, 0x2001, 0x2002, 0x2003, 0x2004, 0x2005, 0x2006,
     0x2007, 0x2008, 0x2009, 0x200A, 0x2028, 0x2029, 0x202F, 0x205F, 0x3000, 0xFEFF}

  ghost predicate Blanks(s: Text)
    ensures Blanks(s) <==> AllSpace(s)
  {
    forall i :: 0 <= i < |s| ==> s[i] in BLANKS
  }

  lemma {:induction false} TrimLeftDropsBlanks(s: Text)
    ensures AllSpace(s[..|s| - |TrimLeft(s)|])
  {
    if s != [] && IsSpace(s[0]) {
      TrimLeftDropsBlanks(s[1..]);
      var w, more := s[..|s| - |TrimLeft(s)|], s[1..][..|s| - 1 - |TrimLeft(s)|];
      assert forall i :: 1 <= i < |w| ==> w[i] == more[i - 1];
    }
  }

  lemma {:induction false} TrimRightDropsBlanks(s: Text)
    ensures AllSpace(s[|TrimRight(s)|..])
  {
    if s != [] && IsSpace(s[|s| - 1]) {
      TrimRightDropsBlanks(s[..|s| - 1]);
      var w, more := s[|TrimRight(s)|..], s[..|s| - 1][|TrimRight(s)|..];
      assert forall i :: 0 <= i < |w| - 1 ==> w[i] == more[i];
    }
  }

  lemma TrimLeftSplits(s: Text) returns (w: Text)
    ensures s == w + TrimLeft(s) && Blanks(w)
  {
    hide Blanks, AllSpace;
    TrimLeftDropsBlanks(s);
    w := s[..|s| - |TrimLeft(s)|];
  }

  lemma TrimRightSplits(s: Text) returns (w: Text)
    ensures s == TrimRight(s) + w && Blanks(w)
  {
    hide Blanks, AllSpace;
    TrimRightDropsBlanks(s);
    w := s[|TrimRight(s)|..];
  }

  lemma TrimSplits(s: Text) returns (w: Text, x: Text)
    ensures s == w + Trim(s) + x && Blanks(w) && Blanks(x)
  {
    hide Blanks, TrimLeft, TrimRight;
    w := TrimLeftSplits(s);
    x := TrimRightSplits(TrimLeft(s));
  }

  /** `core` is `s` without the white space around it, and not empty. */
  ghost predicate IsCore(s: Text, core: Text)
    ensures IsCore(s, core) ==> core != []
  {
    && core != [] && core[0] !in BLANKS && core[|core| - 1] !in BLANKS
    && exists w, x :: s == w + core + x && Blanks(w) && Blanks(x)
  }

  lemma CoreExactly(s: Text, core: Text)
    ensures IsCore(s, core) <==> core != [] && Trim(s) == core
  {
    hide Trim, Blanks;
    if IsCore(s, core) {
      var w, x :| s == w + core + x && Blanks(w) && Blanks(x);
      SolidUnits(core);
      TrimPadded(w, core, x);
    }
    if core != [] && Trim(s) == core {
      var w, x := TrimSplits(s);
      SolidUnits(core);
    }
  }

  lemma SolidUnits(core: Text)
    requires core != []
    ensures Trimmed(core) <==> core[0] !in BLANKS && core[|core| - 1] !in BLANKS
  {
    UnitBlank(core[0]);
    UnitBlank(core[|core| - 1]);
  }

  lemma UnitBlank(c: CodeUnit)
    ensures IsSpace(c) <==> c in BLANKS
  {
    assert Blanks([c]) <==> AllSpace([c]);
    assert [c][0] == c;
  }

  lemma BlankTrims(s: Text)
    ensures Blanks(s) <==> Trim(s) == []
  {
    hide Trim, Blanks;
    var nothing: Text := [];
    if Blanks(s) {
      TrimsToNothing(s);
    }
    if Trim(s) == [] {
      var w, x := TrimSplits(s);
      BlanksConcat(w, x);
      assert w + nothing + x == w + x;
    }
  }

  lemma BlanksConcat(w: Text, x: Text)
    requires Blanks(w) && Blanks(x)
    ensures Blanks(w + x)
  {
  }

  lemma TrimsToNothing(s: Text)
    requires Blanks(s)
    ensures Trim(s) == []
  {
    hide TrimLeft, Blanks;
    var nothing: Text := [];
    TrimLeftSkips(s, nothing);
    assert s + nothing == s;
  }

  lemma TrimAround(w: Text, s: Text, x: Text)
    requires Blanks(w) && Blanks(x)
    ensures Trim(w + s + x) == Trim(s)
  {
    hide Trim, Blanks, IsSpace;
    var core := Trim(s);
    var v, y := TrimSplits(s);
    BlanksConcat(w, v);
    BlanksConcat(y, x);
    assert w + s + x == (w + v) + core + (y + x);
    if core == [] {
      assert (w + v) + core + (y + x) == (w + v) + (y + x);
      BlanksConcat(w + v, y + x);
      TrimsToNothing((w + v) + (y + x));
    } else {
      TrimPadded(w + v, core, y + x);
    }
  }

  /** `t` is `s` without the white space around it. */
  ghost predicate IsTrimOf(s: Text, t: Text) {
    if t == [] then Blanks(s) else IsCore(s, t)
  }

  lemma TrimExactly(s: Text, t: Text)
    ensures Trim(s) == t <==> IsTrimOf(s, t)
  {
    hide Trim, Blanks, IsCore;
    BlankTrims(s);
    CoreExactly(s, t);
  }
}
