/** The grammar of the JSON texts that SKU rules hold (sections 2, 5 and 7 of RFC 8259), stated by code
    units, and the proof that the scanners accept exactly what it generates. */
module JsonGrammar {
  import opened Wrappers
  import opened CodeUnits
  import opened JsonStrings

  // ----- the grammar -----

  ghost predicate IsWhite(w: Text) {
    forall i :: 0 <= i < |w| ==> w[i] == 0x20 || w[i] == 0x09 || w[i] == 0x0A || w[i] == 0x0D
  }

  /** `d` is the hexadecimal digit of value `n`. */
  ghost predicate IsHex(d: CodeUnit, n: int) {
    || (0x30 <= d <= 0x39 && n == d - 0x30)
    || (0x41 <= d <= 0x46 && n == d - 0x37)
    || (0x61 <= d <= 0x66 && n == d - 0x57)
  }

  /** A backslash, `u` and four hexadecimal digits. */
  ghost predicate SpellsHex(t: Text, c: CodeUnit) {
    && |t| == 6 && t[0] == 0x5C && t[1] == 0x75
    && exists i, j, k, l :: IsHex(t[2], i) && IsHex(t[3], j) && IsHex(t[4], k) && IsHex(t[5], l)
                            && c == 4096 * i + 256 * j + 16 * k + l
  }

  /** What may follow a backslash, and the code unit the two stand for. */
  ghost const ESCAPES: map<CodeUnit, CodeUnit> :=
    map[0x22 := 0x22, 0x5C := 0x5C, 0x2F := 0x2F, 0x62 := 0x08, 0x66 := 0x0C, 0x6E := 0x0A, 0x72 := 0x0D, 0x74 := 0x09]

  /** One way of writing the code unit `c` inside a string. */
  ghost predicate SpellsUnit(t: Text, c: CodeUnit) {
    || (|t| == 1 && t[0] == c && c >= 0x20 && c != 0x22 && c != 0x5C)
    || (|t| == 2 && t[0] == 0x5C && t[1] in ESCAPES && ESCAPES[t[1]] == c)
    || SpellsHex(t, c)
  }

  ghost predicate SpellsUnits(t: Text, v: Text)
    decreases |v|
  {
    if v == [] then t == []
    else exists u, rest :: t == u + rest && SpellsUnit(u, v[0]) && SpellsUnits(rest, v[1..])
  }

  /** `t` is a string literal of value `v`. */
  ghost predicate SpellsString(t: Text, v: Text) {
    exists body :: t == [0x22] + body + [0x22] && SpellsUnits(body, v)
  }

  /** A comma with white space around it. */
  ghost predicate IsSeparator(s: Text) {
    exists w, x :: s == w + [0x2C] + x && IsWhite(w) && IsWhite(x)
  }

  /** The literals of `vs` with separators between them, and white space at the end. */
  ghost predicate SpellsElements(t: Text, vs: seq<Text>)
    decreases |vs|
  {
    if vs == [] then t == []
    else if |vs| == 1 then
      exists lit, w :: t == lit + w && SpellsString(lit, vs[0]) && IsWhite(w)
    else
      exists lit, sep, rest ::
        && t == lit + sep + rest
        && SpellsString(lit, vs[0]) && IsSeparator(sep) && SpellsElements(rest, vs[1..])
  }

  /** `t` is an array of string literals of the values `vs`. */
  ghost predicate SpellsArray(t: Text, vs: seq<Text>) {
    exists w, body ::
      && t == [0x5B] + w + body + [0x5D]
      && IsWhite(w) && SpellsElements(body, vs)
  }

  // ----- strings -----

  lemma HexExactly(d: CodeUnit, n: int)
    ensures IsHex(d, n) <==> HexDigit(d).Some? && HexDigit(d).value == n
  {
  }

  lemma UnitScans(u: Text, c: CodeUnit, rest: Text)
    requires SpellsUnit(u, c)
    ensures ScanUnit(u + rest) == Some((c, |u|)) && (u + rest)[|u|..] == rest
  {
    var s := u + rest;
    if SpellsHex(u, c) {
      var i, j, k, l :| IsHex(u[2], i) && IsHex(u[3], j) && IsHex(u[4], k) && IsHex(u[5], l)
                        && c == 4096 * i + 256 * j + 16 * k + l;
      assert s[2..][0] == u[2] && s[2..][1] == u[3] && s[2..][2] == u[4] && s[2..][3] == u[5];
      HexExactly(u[2], i);
      HexExactly(u[3], j);
      HexExactly(u[4], k);
      HexExactly(u[5], l);
    }
  }

  lemma ScannedUnit(s: Text)
    requires ScanUnit(s).Some?
    ensures SpellsUnit(s[..ScanUnit(s).value.1], ScanUnit(s).value.0)
  {
    var (c, n) := ScanUnit(s).value;
    var u := s[..n];
    if n == 6 {
      assert s[2..][0] == u[2] && s[2..][1] == u[3] && s[2..][2] == u[4] && s[2..][3] == u[5];
      assert IsHex(u[2], HexDigit(u[2]).value) && IsHex(u[3], HexDigit(u[3]).value);
      assert IsHex(u[4], HexDigit(u[4]).value) && IsHex(u[5], HexDigit(u[5]).value);
      assert SpellsHex(u, c);
    }
  }

  lemma FirstUnit(t: Text, v: Text) returns (u: Text, more: Text)
    requires SpellsUnits(t, v) && v != []
    ensures t == u + more && SpellsUnit(u, v[0]) && SpellsUnits(more, v[1..])
  {
    hide SpellsUnit;
    u, more :| t == u + more && SpellsUnit(u, v[0]) && SpellsUnits(more, v[1..]);
  }

  lemma UnitsOfNothing(t: Text)
    requires SpellsUnits(t, [])
    ensures t == []
  {
  }

  lemma {:induction false} UnitsScan(t: Text, v: Text, rest: Text)
    requires SpellsUnits(t, v)
    ensures ScanString(t + [QUOTE] + rest) == Some((v, rest))
    decreases |v|
  {
    hide ScanUnit, SpellsUnit, SpellsUnits, ScanString;
    if v == [] {
      UnitsOfNothing(t);
      var s := t + [QUOTE] + rest;
      assert s[1..] == rest;
      ScanClosed(s);
    } else {
      var u, more := FirstUnit(t, v);
      UnitsScan(more, v[1..], rest);
      var after := more + [QUOTE] + rest;
      UnitScans(u, v[0], after);
      ScanStep(u + after, v[0], |u|, v[1..], rest);
      Regrouped(u, more, [QUOTE], rest);
      assert [v[0]] + v[1..] == v;
    }
  }

  lemma ScanClosed(s: Text)
    requires s != [] && s[0] == QUOTE
    ensures ScanString(s) == Some(([], s[1..]))
  {
  }

  lemma SpellsUnitsFirst(u: Text, c: CodeUnit, rest: Text, v: Text)
    requires SpellsUnit(u, c) && SpellsUnits(rest, v)
    ensures SpellsUnits(u + rest, [c] + v)
  {
    hide SpellsUnit;
    assert ([c] + v)[1..] == v;
  }

  lemma UnitAssembled(s: Text, n: nat, more: Text, rest: Text)
    requires n <= |s| && s[n..] == more + [QUOTE] + rest
    ensures s == (s[..n] + more) + [QUOTE] + rest
  {
    Regrouped(s[..n], more, [QUOTE], rest);
    assert s == s[..n] + s[n..];
  }

  lemma {:induction false} ScannedUnits(s: Text) returns (body: Text)
    requires ScanString(s).Some?
    ensures s == body + [QUOTE] + ScanString(s).value.1 && SpellsUnits(body, ScanString(s).value.0)
    decreases |s|
  {
    hide ScanUnit, SpellsUnit, SpellsUnits;
    if s[0] == QUOTE {
      body := [];
      NoUnits();
      assert s == [QUOTE] + s[1..];
    } else {
      var (c, n) := ScanUnit(s).value;
      var (v, rest) := ScanString(s[n..]).value;
      ScannedUnit(s);
      var more := ScannedUnits(s[n..]);
      body := s[..n] + more;
      SpellsUnitsFirst(s[..n], c, more, v);
      UnitAssembled(s, n, more, rest);
    }
  }

  lemma NoUnits()
    ensures SpellsUnits([], [])
  {
  }

  /** The scanner reads exactly the literals, each as the one value it spells. */
  lemma LiteralExactly(lit: Text, v: Text)
    ensures IsLiteral(lit, v) <==> SpellsString(lit, v)
  {
    hide ScanString, SpellsUnits;
    if IsLiteral(lit, v) {
      var body := ScannedUnits(lit[1..]);
      assert lit == [lit[0]] + lit[1..];
      assert body + [QUOTE] + [] == body + [QUOTE];
      assert lit == [0x22] + body + [0x22];
    }
    if SpellsString(lit, v) {
      var body :| lit == [0x22] + body + [0x22] && SpellsUnits(body, v);
      UnitsScan(body, v, []);
      assert lit[1..] == body + [QUOTE] + [];
    }
  }

  /** Each text is the literal of one value at most. */
  lemma LiteralValueUnique(lit: Text, v: Text, w: Text)
    requires SpellsString(lit, v) && SpellsString(lit, w)
    ensures v == w
  {
    LiteralExactly(lit, v);
    LiteralExactly(lit, w);
  }

  // ----- white space -----

  lemma {:induction false} SkipsWhite(w: Text, t: Text)
    requires IsWhite(w) && (t == [] || !IsJsonSpace(t[0]))
    ensures SkipJsonSpace(w + t) == t
  {
    if w == [] {
      assert w + t == t;
    } else {
      assert (w + t)[1..] == w[1..] + t;
      SkipsWhite(w[1..], t);
    }
  }

  lemma {:induction false} SkippedWhite(s: Text) returns (w: Text)
    ensures IsWhite(w) && s == w + SkipJsonSpace(s)
    ensures SkipJsonSpace(s) == [] || !IsJsonSpace(SkipJsonSpace(s)[0])
  {
    if s != [] && IsJsonSpace(s[0]) {
      var more := SkippedWhite(s[1..]);
      w := [s[0]] + more;
      assert s == [s[0]] + s[1..];
    } else {
      w := [];
    }
  }

  // ----- arrays -----

  lemma ReadsLiteral(lit: Text, v: Text, rest: Text)
    requires SpellsString(lit, v)
    ensures lit + rest != [] && (lit + rest)[0] == QUOTE && ScanString((lit + rest)[1..]) == Some((v, rest))
  {
    hide ScanString, SpellsUnits;
    var body :| lit == [0x22] + body + [0x22] && SpellsUnits(body, v);
    UnitsScan(body, v, rest);
    Regrouped([0x22], body, [QUOTE], rest);
    assert lit + rest == [0x22] + (body + [QUOTE] + rest);
  }

  lemma LastElementScans(lit: Text, v: Text, w: Text, rest: Text)
    requires SpellsString(lit, v) && IsWhite(w)
    ensures ScanElements(lit + w + [0x5D] + rest) == Some(([v], rest))
  {
    hide ScanString, SkipJsonSpace, SpellsString;
    var end := [0x5D] + rest;
    ReadsLiteral(lit, v, w + end);
    SkipsWhite(w, end);
    assert lit + w + [0x5D] + rest == lit + (w + end);
    assert end[1..] == rest;
  }

  lemma SeparatorRegroups(lit: Text, w: Text, x: Text, after: Text)
    ensures lit + (w + [0x2C] + x) + after == lit + (w + ([0x2C] + (x + after)))
  {
  }

  lemma MoreRegroups(lit: Text, w: Text, x: Text, more: Text, end: Text)
    ensures lit + (w + ([0x2C] + (x + (more + [0x5D] + end)))) == lit + (w + [0x2C] + x) + more + [0x5D] + end
  {
  }

  lemma NextElementScans(lit: Text, v: Text, sep: Text, after: Text, vs: seq<Text>, rest: Text)
    requires SpellsString(lit, v) && IsSeparator(sep)
    requires after != [] && after[0] == QUOTE && ScanElements(after) == Some((vs, rest))
    ensures ScanElements(lit + sep + after) == Some(([v] + vs, rest))
  {
    hide ScanString, SkipJsonSpace, SpellsString, ScanElements, IsWhite;
    var w, x :| sep == w + [0x2C] + x && IsWhite(w) && IsWhite(x);
    var comma := [0x2C] + (x + after);
    ReadsLiteral(lit, v, w + comma);
    SkipsWhite(w, comma);
    SkipsWhite(x, after);
    SeparatorRegroups(lit, w, x, after);
    assert comma[1..] == x + after;
    ElementThenMore(lit + (w + comma), v, w + comma, vs, rest);
  }

  lemma ElementThenMore(s: Text, v: Text, after: Text, vs: seq<Text>, rest: Text)
    requires s != [] && s[0] == QUOTE && ScanString(s[1..]) == Some((v, after))
    requires var comma := SkipJsonSpace(after);
      comma != [] && comma[0] == COMMA && ScanElements(SkipJsonSpace(comma[1..])) == Some((vs, rest))
    ensures ScanElements(s) == Some(([v] + vs, rest))
  {
    hide ScanString, SkipJsonSpace;
  }

  lemma FirstElement(t: Text, vs: seq<Text>) returns (lit: Text, sep: Text, more: Text)
    requires SpellsElements(t, vs) && |vs| > 1
    ensures t == lit + sep + more
    ensures SpellsString(lit, vs[0]) && IsSeparator(sep) && SpellsElements(more, vs[1..])
  {
    hide SpellsString, IsSeparator;
    lit, sep, more :|
      t == lit + sep + more && SpellsString(lit, vs[0]) && IsSeparator(sep) && SpellsElements(more, vs[1..]);
  }

  lemma OnlyElement(t: Text, vs: seq<Text>, rest: Text)
    requires SpellsElements(t, vs) && |vs| == 1
    ensures ScanElements(t + [0x5D] + rest) == Some((vs, rest)) && t != [] && t[0] == QUOTE
  {
    hide ScanElements, SpellsString, IsWhite;
    var lit, w :| t == lit + w && SpellsString(lit, vs[0]) && IsWhite(w);
    LastElementScans(lit, vs[0], w, rest);
    ReadsLiteral(lit, vs[0], w);
    assert vs == [vs[0]];
  }

  lemma {:induction false} ElementsScan(t: Text, vs: seq<Text>, rest: Text)
    requires SpellsElements(t, vs) && vs != []
    ensures ScanElements(t + [0x5D] + rest) == Some((vs, rest)) && t != [] && t[0] == QUOTE
    decreases |vs|
  {
    hide ScanElements, SpellsElements, SpellsString, IsSeparator, ScanString;
    if |vs| == 1 {
      OnlyElement(t, vs, rest);
    } else {
      var lit, sep, more := FirstElement(t, vs);
      ElementsScan(more, vs[1..], rest);
      NextElementScans(lit, vs[0], sep, more + [0x5D] + rest, vs[1..], rest);
      ReadsLiteral(lit, vs[0], sep + more);
      assert t == lit + (sep + more);
      assert t + [0x5D] + rest == lit + sep + (more + [0x5D] + rest);
      assert vs == [vs[0]] + vs[1..];
    }
  }

  lemma NoElements()
    ensures forall t: Text :: SpellsElements(t, []) <==> t == []
  {
  }

  lemma ScannedLiteral(s: Text) returns (lit: Text)
    requires s != [] && s[0] == QUOTE && ScanString(s[1..]).Some?
    ensures s == lit + ScanString(s[1..]).value.1 && SpellsString(lit, ScanString(s[1..]).value.0)
  {
    hide ScanString, SpellsUnits;
    var body := ScannedUnits(s[1..]);
    lit := [0x22] + body + [0x22];
    assert s == [s[0]] + s[1..];
  }

  lemma SpellsLast(lit: Text, v: Text, w: Text)
    requires SpellsString(lit, v) && IsWhite(w)
    ensures SpellsElements(lit + w, [v])
  {
    hide SpellsString, IsWhite;
  }

  lemma SpellsMore(lit: Text, v: Text, w: Text, x: Text, rest: Text, vs: seq<Text>)
    requires SpellsString(lit, v) && IsWhite(w) && IsWhite(x) && SpellsElements(rest, vs) && vs != []
    ensures SpellsElements(lit + (w + [0x2C] + x) + rest, [v] + vs)
  {
    hide SpellsString, IsWhite;
    assert IsSeparator(w + [0x2C] + x);
    assert ([v] + vs)[1..] == vs;
  }

  lemma Assembled(s: Text, lit: Text, w: Text, after: Text, x: Text, next: Text, more: Text, end: Text)
    requires s == lit + (w + after) && after != [] && after[0] == 0x2C && after[1..] == x + next
    requires next == more + [0x5D] + end
    ensures s == lit + (w + [0x2C] + x) + more + [0x5D] + end
  {
    MoreRegroups(lit, w, x, more, end);
    assert after == [0x2C] + after[1..];
  }

  lemma {:induction false} ScannedElements(s: Text) returns (body: Text)
    requires ScanElements(s).Some?
    ensures s == body + [0x5D] + ScanElements(s).value.1 && SpellsElements(body, ScanElements(s).value.0)
    decreases |s|
  {
    hide ScanString, SkipJsonSpace, SpellsString, IsWhite, SpellsElements;
    var (v, rest) := ScanString(s[1..]).value;
    var after := SkipJsonSpace(rest);
    var lit := ScannedLiteral(s);
    var w := SkippedWhite(rest);
    if after[0] == CLOSE_BRACKET {
      body := lit + w;
      SpellsLast(lit, v, w);
      Regrouped(lit, w, [0x5D], after[1..]);
      assert after == [0x5D] + after[1..];
    } else {
      var x := SkippedWhite(after[1..]);
      var next := SkipJsonSpace(after[1..]);
      var more := ScannedElements(next);
      var (vs, end) := ScanElements(next).value;
      body := lit + (w + [0x2C] + x) + more;
      SpellsMore(lit, v, w, x, more, vs);
      Assembled(s, lit, w, after, x, next, more, end);
    }
  }

  /** The list reader accepts exactly the arrays of strings, with white space wherever JSON allows it. */
  lemma ArrayExactly(s: Text, vs: seq<Text>)
    ensures ParseStringArray(s) == Some(vs) <==> exists t, w :: s == t + w && SpellsArray(t, vs) && IsWhite(w)
  {
    hide ParseStringArray, SpellsArray, IsWhite;
    if ParseStringArray(s) == Some(vs) {
      var t, w := ParsedArray(s);
    }
    if t, w :| s == t + w && SpellsArray(t, vs) && IsWhite(w) {
      ArrayParses(t, vs, w);
    }
  }

  lemma ParsedArray(s: Text) returns (t: Text, w: Text)
    requires ParseStringArray(s).Some?
    ensures s == t + w && SpellsArray(t, ParseStringArray(s).value) && IsWhite(w)
  {
    hide ScanElements, SkipJsonSpace, IsWhite, SpellsElements;
    var body := SkipJsonSpace(s[1..]);
    var x := SkippedWhite(s[1..]);
    NoElements();
    var nothing: Text := [];
    var inner, end := nothing, nothing;
    if body != [] && body[0] == CLOSE_BRACKET {
      end := body[1..];
      assert body == inner + [0x5D] + end;
    } else {
      inner := ScannedElements(body);
      end := ScanElements(body).value.1;
    }
    w := SkippedWhite(end);
    assert SkipJsonSpace(end) == nothing;
    assert end == w + nothing == w;
    t := [0x5B] + x + inner + [0x5D];
    assert SpellsElements(inner, ParseStringArray(s).value);
    assert IsWhite(x);
    assert SpellsArray(t, ParseStringArray(s).value);
    assert s == [0x5B] + (x + (inner + [0x5D] + end));
  }

  lemma ArrayParses(t: Text, vs: seq<Text>, w: Text)
    requires SpellsArray(t, vs) && IsWhite(w)
    ensures ParseStringArray(t + w) == Some(vs)
  {
    hide ScanElements, SkipJsonSpace, IsWhite, SpellsElements;
    var x, inner :|
      && t == [0x5B] + x + inner + [0x5D]
      && IsWhite(x) && SpellsElements(inner, vs);
    var s, body := t + w, inner + [0x5D] + w;
    assert s[1..] == x + body;
    NoElements();
    if vs != [] {
      ElementsScan(inner, vs, w);
    }
    SkipsWhite(x, body);
    assert body[1..] == w || vs != [];
    var nothing: Text := [];
    SkipsWhite(w, nothing);
    assert w + nothing == w;
  }
}
