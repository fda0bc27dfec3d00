/** `splitConjunctions`: cuts the condition of a rule at every `&&` that stands outside string
    literals and lists. */
module ConjunctionSplitter {
  import opened Wrappers
  import opened CodeUnits
  import opened JsonStrings

  const MAX_CONDITIONS_PER_RULE := 12
  const AND: Text := [AMP, AMP]

  /** Where the scanner stands: inside a string, after a backslash, and how deep in brackets. */
  datatype Lex = Lex(quoted: bool, escaped: bool, depth: int)

  const OUTSIDE := Lex(false, false, 0)

  function Next(l: Lex, c: CodeUnit): Lex {
    if l.quoted then
      if l.escaped then l.(escaped := false)
      else if c == BACKSLASH then l.(escaped := true)
      else if c == QUOTE then l.(quoted := false)
      else l
    else if c == QUOTE then l.(quoted := true)
    else if c == OPEN_BRACKET then l.(depth := l.depth + 1)
    else if c == CLOSE_BRACKET then l.(depth := l.depth - 1)
    else l
  }

  function After(l: Lex, s: Text): Lex
    decreases |s|
  {
    if s == [] then l else After(Next(l, s[0]), s[1..])
  }

  predicate IsOutside(l: Lex) {
    !l.quoted && l.depth == 0
  }

  predicate OpensWithAnd(s: Text) {
    |s| >= 2 && s[0] == AMP && s[1] == AMP
  }

  predicate EndsInAmp(s: Text) {
    s != [] && s[|s| - 1] == AMP
  }

  // ----- what a split is -----

  /** From state `l`, the text closes all its strings and brackets and holds no `&&` outside them. */
  ghost predicate IsPiece(l: Lex, p: Text) {
    && IsOutside(After(l, p))
    && (forall i :: 0 <= i <= |p| ==> After(l, p[..i]).depth >= 0)
    && (forall i :: 0 <= i < |p| - 1 && p[i] == AMP && p[i + 1] == AMP ==> !IsOutside(After(l, p[..i])))
  }

  /** The pieces between the leftmost such `&&`s of the whole text. */
  ghost predicate IsSplit(s: Text, pieces: seq<Text>) {
    && pieces != []
    && Join(pieces, AND) == s
    && (forall k :: 0 <= k < |pieces| ==> IsPiece(OUTSIDE, pieces[k]))
    && (forall k :: 0 <= k < |pieces| - 1 ==> !EndsInAmp(pieces[k]))
  }

  // ----- the scanner as a function -----

  function PrependUnit(c: CodeUnit, pieces: seq<Text>): seq<Text>
    requires pieces != []
  {
    [[c] + pieces[0]] + pieces[1..]
  }

  function Cut(l: Lex, s: Text): (r: Option<seq<Text>>)
    ensures r.Some? ==> r.value != []
    decreases |s|
  {
    if s == [] then
      if IsOutside(l) then Some([[]]) else None
    else if IsOutside(l) && OpensWithAnd(s) then
      match Cut(l, s[2..])
      case None => None
      case Some(pieces) => Some([[]] + pieces)
    else if Next(l, s[0]).depth < 0 then None
    else
      match Cut(Next(l, s[0]), s[1..])
      case None => None
      case Some(pieces) => Some(PrependUnit(s[0], pieces))
  }

  function TrimAll(pieces: seq<Text>): (r: seq<Text>)
    ensures |r| == |pieces|
    ensures forall k :: 0 <= k < |r| ==> r[k] == Trim(pieces[k])
  {
    seq(|pieces|, k requires 0 <= k < |pieces| => Trim(pieces[k]))
  }

  function SplitConjunctions(raw: Text): Result<seq<Text>> {
    match Cut(OUTSIDE, raw)
    case None => Err
    case Some(pieces) => CheckPieces(TrimAll(pieces))
  }

  function CheckPieces(parts: seq<Text>): Result<seq<Text>> {
    if [] in parts || |parts| > MAX_CONDITIONS_PER_RULE then Err else Ok(parts)
  }

  /** The source's one-pass scanner: an index, the start of the piece, two flags and a bracket depth. */
  method ScanPieces(raw: Text) returns (r: Option<seq<Text>>)
    ensures r == Cut(OUTSIDE, raw)
  {
    var result: seq<Text> := [];
    var start, index := 0, 0;
    var quote, escaped, bracketDepth := false, false, 0;
    ProgressAtStart(raw);
    while index < |raw|
      invariant 0 <= start <= index <= |raw| && bracketDepth >= 0
      invariant Progress(raw, result, start, index, Lex(quote, escaped, bracketDepth)) == Cut(OUTSIDE, raw)
    {
      var unit := raw[index];
      ghost var l := Lex(quote, escaped, bracketDepth);
      if !IsCutPoint(l, raw, index) {
        ProgressUnit(raw, result, start, index, l);
      }
      if quote {
        if escaped {
          escaped := false;
        } else if unit == BACKSLASH {
          escaped := true;
        } else if unit == QUOTE {
          quote := false;
        }
        index := index + 1;
        continue;
      }
      if unit == QUOTE {
        quote := true;
        index := index + 1;
        continue;
      }
      if unit == OPEN_BRACKET {
        bracketDepth := bracketDepth + 1;
      }
      if unit == CLOSE_BRACKET {
        bracketDepth := bracketDepth - 1;
      }
      if bracketDepth < 0 {
        return None;
      }
      if bracketDepth == 0 && unit == AMP && index + 1 < |raw| && raw[index + 1] == AMP {
        ProgressPiece(raw, result, start, index, l);
        result := result + [raw[start..index]];
        start := index + 2;
        index := index + 2;
        continue;
      }
      index := index + 1;
    }
    ProgressAtEnd(raw, result, start, Lex(quote, escaped, bracketDepth));
    if quote || bracketDepth != 0 {
      return None;
    }
    return Some(result + [raw[start..]]);
  }

  /** `splitConjunctions`: the scanned pieces, trimmed and checked. */
  method ScanConjunctions(raw: Text) returns (r: Result<seq<Text>>)
    ensures r == SplitConjunctions(raw)
  {
    var pieces := ScanPieces(raw);
    if pieces == None {
      return Err;
    }
    r := CheckPieces(TrimAll(pieces.value));
  }

  /** The final cut, from the finished pieces, the piece begun at `start` and the unread rest. */
  ghost function Progress(raw: Text, done: seq<Text>, start: nat, index: nat, l: Lex): Option<seq<Text>>
    requires start <= index <= |raw|
  {
    match Cut(l, raw[index..])
    case None => None
    case Some(pieces) => Some(done + [raw[start..index] + pieces[0]] + pieces[1..])
  }

  lemma ProgressAtStart(raw: Text)
    ensures Progress(raw, [], 0, 0, OUTSIDE) == Cut(OUTSIDE, raw)
  {
    assert raw[0..] == raw;
    if Cut(OUTSIDE, raw).Some? {
      var pieces := Cut(OUTSIDE, raw).value;
      assert raw[0..0] + pieces[0] == pieces[0];
      assert [] + [pieces[0]] + pieces[1..] == pieces;
    }
  }

  predicate IsCutPoint(l: Lex, raw: Text, index: nat)
    requires index < |raw|
  {
    IsOutside(l) && index + 1 < |raw| && raw[index] == AMP && raw[index + 1] == AMP
  }

  lemma ProgressUnit(raw: Text, done: seq<Text>, start: nat, index: nat, l: Lex)
    requires start <= index < |raw| && !IsCutPoint(l, raw, index)
    ensures Progress(raw, done, start, index, l)
         == if Next(l, raw[index]).depth < 0 then None
            else Progress(raw, done, start, index + 1, Next(l, raw[index]))
  {
    var s, next := raw[index..], Next(l, raw[index]);
    assert s[0] == raw[index] && s[1..] == raw[index + 1..];
    if next.depth >= 0 && Cut(next, s[1..]).Some? {
      var pieces := Cut(next, s[1..]).value;
      assert raw[start..index] + ([raw[index]] + pieces[0]) == raw[start..index + 1] + pieces[0];
      assert PrependUnit(raw[index], pieces)[1..] == pieces[1..];
    }
  }

  lemma ProgressPiece(raw: Text, done: seq<Text>, start: nat, index: nat, l: Lex)
    requires start <= index < |raw| && IsCutPoint(l, raw, index)
    ensures Progress(raw, done, start, index, l)
         == Progress(raw, done + [raw[start..index]], index + 2, index + 2, l)
  {
    var s := raw[index..];
    assert s[0] == AMP && s[1] == AMP && s[2..] == raw[index + 2..];
    if Cut(l, s[2..]).Some? {
      var pieces := Cut(l, s[2..]).value;
      assert raw[start..index] + [] == raw[start..index];
      assert raw[index + 2..index + 2] + pieces[0] == pieces[0];
      assert ([[]] + pieces)[1..] == [pieces[0]] + pieces[1..];
      assert done + [raw[start..index]] + ([pieces[0]] + pieces[1..])
          == done + [raw[start..index]] + [pieces[0]] + pieces[1..];
    }
  }

  lemma ProgressAtEnd(raw: Text, done: seq<Text>, start: nat, l: Lex)
    requires start <= |raw|
    ensures Progress(raw, done, start, |raw|, l) == if IsOutside(l) then Some(done + [raw[start..]]) else None
  {
    var last: seq<Text> := [[]];
    assert raw[|raw|..] == [] && last[1..] == [];
    assert raw[start..|raw|] + last[0] == raw[start..];
    assert done + [raw[start..]] + [] == done + [raw[start..]];
  }

  // ----- the scanner finds exactly the split -----

  predicate WellFormed(l: Lex) {
    (l.escaped ==> l.quoted) && l.depth >= 0
  }

  lemma {:induction false} AfterConcat(l: Lex, a: Text, b: Text)
    ensures After(l, a + b) == After(After(l, a), b)
    decreases |a|
  {
    if a == [] {
      assert a + b == b;
    } else {
      assert (a + b)[1..] == a[1..] + b;
      AfterConcat(Next(l, a[0]), a[1..], b);
    }
  }

  lemma AfterPrefix(l: Lex, p: Text, i: nat)
    requires p != [] && 1 <= i <= |p|
    ensures After(l, p[..i]) == After(Next(l, p[0]), p[1..][..i - 1])
  {
    assert p[..i][1..] == p[1..][..i - 1];
  }

  lemma PieceTail(l: Lex, p: Text)
    requires p != [] && IsPiece(l, p)
    ensures IsPiece(Next(l, p[0]), p[1..]) && Next(l, p[0]).depth >= 0
    ensures !(IsOutside(l) && OpensWithAnd(p))
  {
    var q, next := p[1..], Next(l, p[0]);
    forall i | 0 <= i <= |q|
      ensures After(next, q[..i]) == After(l, p[..i + 1])
    {
      AfterPrefix(l, p, i + 1);
    }
    assert q[..0] == [] && p[..0] == [];
  }

  lemma PieceCons(l: Lex, p: Text)
    requires p != [] && IsPiece(Next(l, p[0]), p[1..]) && l.depth >= 0
    requires !(IsOutside(l) && OpensWithAnd(p))
    ensures IsPiece(l, p)
  {
    var q, next := p[1..], Next(l, p[0]);
    assert p[..0] == [];
    forall i | 1 <= i <= |p|
      ensures After(l, p[..i]) == After(next, q[..i - 1])
    {
      AfterPrefix(l, p, i);
    }
    forall i | 0 <= i < |p| - 1 && p[i] == AMP && p[i + 1] == AMP
      ensures !IsOutside(After(l, p[..i]))
    {
      if i > 0 {
        assert q[i - 1] == AMP && q[i] == AMP;
      }
    }
  }

  lemma {:induction false} CutSound(l: Lex, s: Text)
    requires WellFormed(l) && Cut(l, s).Some?
    ensures var pieces := Cut(l, s).value;
      && Join(pieces, AND) == s
      && IsPiece(l, pieces[0])
      && (forall k :: 1 <= k < |pieces| ==> IsPiece(OUTSIDE, pieces[k]))
      && (forall k :: 0 <= k < |pieces| - 1 ==> !EndsInAmp(pieces[k]))
    decreases |s|
  {
    var pieces := Cut(l, s).value;
    if s == [] {
    } else if IsOutside(l) && OpensWithAnd(s) {
      assert l == OUTSIDE;
      CutSound(l, s[2..]);
      assert pieces[1..] == Cut(l, s[2..]).value;
      assert [] + AND + s[2..] == s;
    } else {
      CutSound(Next(l, s[0]), s[1..]);
      CutSoundUnit(l, s, Cut(Next(l, s[0]), s[1..]).value);
    }
  }

  lemma CutSoundUnit(l: Lex, s: Text, rest: seq<Text>)
    requires WellFormed(l) && s != [] && rest != [] && Join(rest, AND) == s[1..]
    requires !(IsOutside(l) && OpensWithAnd(s))
    requires IsPiece(Next(l, s[0]), rest[0])
    requires forall k :: 0 <= k < |rest| - 1 ==> !EndsInAmp(rest[k])
    ensures var pieces := PrependUnit(s[0], rest);
      && Join(pieces, AND) == s
      && IsPiece(l, pieces[0])
      && (|pieces| > 1 ==> !EndsInAmp(pieces[0]))
  {
    var pieces := PrependUnit(s[0], rest);
    var p := pieces[0];
    assert p[1..] == rest[0] && pieces[1..] == rest[1..];
    assert [s[0]] + s[1..] == s;
    if |rest| > 1 {
      assert [s[0]] + (rest[0] + AND + Join(rest[1..], AND)) == p + AND + Join(rest[1..], AND);
      assert (rest[0] + AND)[|rest[0]|] == AMP;
    }
    assert rest[0] != [] ==> s[1] == rest[0][0];
    PieceCons(l, p);
    assert rest[0] == [] && |rest| > 1 ==> s[1] == AMP && IsOutside(Next(l, s[0]));
  }

  lemma PrependToLast(c: CodeUnit, q: Text)
    ensures PrependUnit(c, [q]) == [[c] + q]
  {
    var tail: seq<Text> := [q];
    assert tail[1..] == [];
  }

  lemma {:induction false} CutLastPiece(l: Lex, p: Text)
    requires IsPiece(l, p)
    ensures Cut(l, p) == Some([p])
    decreases |p|
  {
    if p == [] {
      assert p[..0] == [];
    } else {
      PieceTail(l, p);
      CutLastPiece(Next(l, p[0]), p[1..]);
      PrependToLast(p[0], p[1..]);
      assert [p[0]] + p[1..] == p;
    }
  }

  lemma {:induction false} CutFirstPiece(l: Lex, p: Text, rest: Text)
    requires WellFormed(l) && IsPiece(l, p) && !EndsInAmp(p)
    ensures Cut(l, p + AND + rest)
         == match Cut(OUTSIDE, rest)
            case None => None
            case Some(pieces) => Some([p] + pieces)
    decreases |p|
  {
    var s := p + AND + rest;
    if p == [] {
      assert p[..0] == [] && l == OUTSIDE;
      assert s[0] == AMP && s[1] == AMP && s[2..] == rest;
    } else {
      PieceTail(l, p);
      var q := p[1..];
      assert s[1..] == q + AND + rest;
      assert |p| >= 2 ==> s[1] == p[1];
      CutFirstPiece(Next(l, p[0]), q, rest);
      assert [p[0]] + q == p;
    }
  }

  lemma {:induction false} CutComplete(pieces: seq<Text>)
    requires pieces != [] && forall k :: 0 <= k < |pieces| ==> IsPiece(OUTSIDE, pieces[k])
    requires forall k :: 0 <= k < |pieces| - 1 ==> !EndsInAmp(pieces[k])
    ensures Cut(OUTSIDE, Join(pieces, AND)) == Some(pieces)
  {
    if |pieces| == 1 {
      CutLastPiece(OUTSIDE, pieces[0]);
      assert pieces == [pieces[0]];
    } else {
      CutComplete(pieces[1..]);
      assert [pieces[0]] + pieces[1..] == pieces;
      CutFirstPiece(OUTSIDE, pieces[0], Join(pieces[1..], AND));
    }
  }

  /** The scanner returns the one split of the text, and fails exactly when there is none. */
  lemma CutIsTheSplit(s: Text, pieces: seq<Text>)
    ensures Cut(OUTSIDE, s) == Some(pieces) <==> IsSplit(s, pieces)
  {
    if Cut(OUTSIDE, s) == Some(pieces) {
      CutSound(OUTSIDE, s);
    }
    if IsSplit(s, pieces) {
      CutComplete(pieces);
    }
  }

  // ----- pieces put together -----

  predicate IsPlainUnit(c: CodeUnit) {
    c != QUOTE && c != OPEN_BRACKET && c != CLOSE_BRACKET
  }

  /** Plain text and separators are pieces. */
  lemma {:induction false} PlainPiece(p: Text)
    requires forall i :: 0 <= i < |p| ==> IsPlainUnit(p[i]) && p[i] != AMP
    ensures IsPiece(OUTSIDE, p)
  {
    if p != [] {
      PlainPiece(p[1..]);
      PieceCons(OUTSIDE, p);
    }
  }

  lemma {:induction false} PieceConcat(l: Lex, p: Text, q: Text)
    requires WellFormed(l) && IsPiece(l, p) && IsPiece(OUTSIDE, q)
    requires !(EndsInAmp(p) && q != [] && q[0] == AMP)
    ensures IsPiece(l, p + q)
    decreases |p|
  {
    if p == [] {
      assert p[..0] == [] && p + q == q;
    } else {
      PieceTail(l, p);
      PieceConcat(Next(l, p[0]), p[1..], q);
      assert (p + q)[1..] == p[1..] + q;
      PieceCons(l, p + q);
    }
  }

  /** From its opening quote to before its closing quote, the scanner is inside a literal. */
  ghost predicate StaysQuoted(depth: int, s: Text) {
    var inside := Lex(true, false, depth);
    && After(inside, s) == Lex(false, false, depth)
    && forall i :: 0 <= i < |s| ==> After(inside, s[..i]).quoted && After(inside, s[..i]).depth == depth
  }

  lemma UnitStaysQuoted(depth: int, s: Text)
    requires ScanUnit(s).Some?
    ensures var inside, n := Lex(true, false, depth), ScanUnit(s).value.1;
      && After(inside, s[..n]) == inside
      && forall i :: 0 <= i < n ==> After(inside, s[..i]).quoted && After(inside, s[..i]).depth == depth
  {
    var inside, n := Lex(true, false, depth), ScanUnit(s).value.1;
    if n == 1 {
      assert s[..1] == [s[0]] && s[..0] == [];
      assert After(inside, [s[0]]) == After(Next(inside, s[0]), []);
    } else {
      AfterEscape(inside, s, n);
    }
  }

  lemma {:induction false} AfterEscape(inside: Lex, s: Text, n: nat)
    requires inside.quoted && !inside.escaped && 1 <= n <= |s| && s[0] == BACKSLASH
    requires forall i :: 2 <= i < n ==> s[i] != BACKSLASH && s[i] != QUOTE
    ensures n >= 2 ==> After(inside, s[..n]) == inside
    ensures forall i :: 0 <= i < n ==> After(inside, s[..i]).quoted && After(inside, s[..i]).depth == inside.depth
    decreases n
  {
    assert s[..0] == [];
    assert s[..1] == [s[0]] && After(inside, [s[0]]) == After(Next(inside, s[0]), []);
    if n > 1 {
      AfterEscape(inside, s, n - 1);
      var before := s[..n - 1];
      assert s[..n] == before + [s[n - 1]];
      AfterConcat(inside, before, [s[n - 1]]);
      assert After(After(inside, before), [s[n - 1]]) == After(Next(After(inside, before), s[n - 1]), []);
      if n == 2 {
        assert before == [s[0]];
      }
    }
  }

  lemma StaysQuotedThen(depth: int, s: Text, n: nat)
    requires n <= |s| && StaysQuoted(depth, s[n..])
    requires After(Lex(true, false, depth), s[..n]) == Lex(true, false, depth)
    requires forall i :: 0 <= i < n ==>
      After(Lex(true, false, depth), s[..i]).quoted && After(Lex(true, false, depth), s[..i]).depth == depth
    ensures StaysQuoted(depth, s)
  {
    var inside := Lex(true, false, depth);
    assert s[..n] + s[n..] == s;
    AfterConcat(inside, s[..n], s[n..]);
    forall i | n <= i < |s|
      ensures After(inside, s[..i]).quoted && After(inside, s[..i]).depth == depth
    {
      assert s[..i] == s[..n] + s[n..][..i - n];
      AfterConcat(inside, s[..n], s[n..][..i - n]);
    }
  }

  lemma {:induction false} LiteralStaysQuoted(depth: int, s: Text)
    requires ScanString(s).Some? && ScanString(s).value.1 == []
    ensures StaysQuoted(depth, s)
  {
    if s[0] == QUOTE {
      var inside := Lex(true, false, depth);
      assert s == [QUOTE] && s[..0] == [] && s[1..] == [];
      assert After(inside, s) == After(Next(inside, s[0]), s[1..]);
    } else {
      var n := ScanUnit(s).value.1;
      LiteralStaysQuoted(depth, s[n..]);
      UnitStaysQuoted(depth, s);
      StaysQuotedThen(depth, s, n);
    }
  }

  /** Text that returns the scanner to the depth it started from and never goes below it. */
  ghost predicate Steady(depth: int, s: Text) {
    var l := Lex(false, false, depth);
    && After(l, s) == l
    && forall i :: 0 <= i <= |s| ==> After(l, s[..i]).depth >= depth
  }

  lemma LiteralSteady(depth: int, lit: Text, v: Text)
    requires IsLiteral(lit, v)
    ensures Steady(depth, lit)
  {
    var l := Lex(false, false, depth);
    LiteralStaysQuoted(depth, lit[1..]);
    assert lit[..0] == [] && lit[..|lit|] == lit;
    forall i | 1 <= i < |lit|
      ensures After(l, lit[..i]) == After(Lex(true, false, depth), lit[1..][..i - 1])
    {
      AfterPrefix(l, lit, i);
    }
  }

  lemma LiteralPiece(lit: Text, v: Text)
    requires IsLiteral(lit, v)
    ensures IsPiece(OUTSIDE, lit)
  {
    LiteralSteady(0, lit, v);
    LiteralStaysQuoted(0, lit[1..]);
    forall i | 1 <= i < |lit| - 1
      ensures !IsOutside(After(OUTSIDE, lit[..i]))
    {
      AfterPrefix(OUTSIDE, lit, i);
    }
  }

  lemma SteadyConcat(depth: int, a: Text, b: Text)
    requires Steady(depth, a) && Steady(depth, b)
    ensures Steady(depth, a + b)
  {
    var l := Lex(false, false, depth);
    AfterConcat(l, a, b);
    forall i | 0 <= i <= |a + b|
      ensures After(l, (a + b)[..i]).depth >= depth
    {
      if i <= |a| {
        assert (a + b)[..i] == a[..i];
      } else {
        assert (a + b)[..i] == a + b[..i - |a|];
        AfterConcat(l, a, b[..i - |a|]);
      }
    }
  }

  lemma UnitSteady(depth: int, c: CodeUnit)
    requires IsPlainUnit(c)
    ensures Steady(depth, [c])
  {
    var l := Lex(false, false, depth);
    assert After(l, [c]) == After(Next(l, c), []);
    assert [c][..0] == [] && [c][..1] == [c];
  }

  function Bracketed(body: Text): Text {
    [OPEN_BRACKET] + body + [CLOSE_BRACKET]
  }

  lemma BracketPrefix(body: Text, i: nat)
    requires 1 <= i <= |body| + 1
    ensures After(OUTSIDE, Bracketed(body)[..i]) == After(Lex(false, false, 1), body[..i - 1])
  {
    AfterPrefix(OUTSIDE, Bracketed(body), i);
    assert Bracketed(body)[1..][..i - 1] == body[..i - 1];
  }

  lemma BracketCloses(body: Text)
    requires Steady(1, body)
    ensures After(OUTSIDE, Bracketed(body)) == OUTSIDE
  {
    var p, before := Bracketed(body), [OPEN_BRACKET] + body;
    BracketPrefix(body, |body| + 1);
    assert p[..|body| + 1] == before && body[..|body|] == body;
    AfterConcat(OUTSIDE, before, [CLOSE_BRACKET]);
    assert After(Lex(false, false, 1), [CLOSE_BRACKET]) == After(Next(Lex(false, false, 1), CLOSE_BRACKET), []);
  }

  /** A bracketed text is a piece whatever stands between the brackets, `&&` included. */
  lemma BracketPiece(body: Text)
    requires Steady(1, body)
    ensures IsPiece(OUTSIDE, Bracketed(body))
  {
    hide After;
    var p := Bracketed(body);
    BracketCloses(body);
    assert p[..|p|] == p && p[..0] == [];
    assert After(OUTSIDE, []) == OUTSIDE by {
      AfterNothing(OUTSIDE);
    }
    forall i | 1 <= i < |p|
      ensures After(OUTSIDE, p[..i]).depth >= 1
    {
      BracketPrefix(body, i);
    }
  }

  lemma AfterNothing(l: Lex)
    ensures After(l, []) == l
  {
  }

  const CONJUNCTION: Text := [SPACE] + AND + [SPACE]

  lemma PieceBetweenSpaces(lead: Text, p: Text)
    requires (lead == [] || lead == [SPACE]) && IsPiece(OUTSIDE, p)
    ensures IsPiece(OUTSIDE, lead + p) && IsPiece(OUTSIDE, lead + p + [SPACE])
  {
    PlainPiece(lead);
    PlainPiece([SPACE]);
    PieceConcat(OUTSIDE, lead, p);
    PieceConcat(OUTSIDE, lead + p, [SPACE]);
  }

  predicate IsCondition(p: Text) {
    Trimmed(p) && p != []
  }

  /** The pieces as they stand in the joined text, with the spaces around each `&&`. */
  function Padded(lead: Text, parts: seq<Text>): (pieces: seq<Text>)
    requires parts != []
    ensures |pieces| == |parts|
    decreases |parts|
  {
    if |parts| == 1 then [lead + parts[0]] else [lead + parts[0] + [SPACE]] + Padded([SPACE], parts[1..])
  }

  lemma {:induction false} PaddedJoin(lead: Text, parts: seq<Text>)
    requires parts != []
    ensures Join(Padded(lead, parts), AND) == lead + Join(parts, CONJUNCTION)
    decreases |parts|
  {
    if |parts| > 1 {
      PaddedJoin([SPACE], parts[1..]);
      var rest := Join(parts[1..], CONJUNCTION);
      assert Padded(lead, parts)[1..] == Padded([SPACE], parts[1..]);
      assert lead + (parts[0] + CONJUNCTION + rest) == lead + parts[0] + [SPACE] + AND + ([SPACE] + rest);
    }
  }

  lemma {:induction false} PaddedPieces(lead: Text, parts: seq<Text>)
    requires (lead == [] || lead == [SPACE]) && parts != []
    requires forall k :: 0 <= k < |parts| ==> IsPiece(OUTSIDE, parts[k])
    ensures forall k :: 0 <= k < |parts| ==> IsPiece(OUTSIDE, Padded(lead, parts)[k])
    ensures forall k :: 0 <= k < |parts| - 1 ==> !EndsInAmp(Padded(lead, parts)[k])
    decreases |parts|
  {
    PieceBetweenSpaces(lead, parts[0]);
    if |parts| > 1 {
      PaddedPieces([SPACE], parts[1..]);
    }
  }

  lemma SpacesAround(lead: Text)
    requires lead == [] || lead == [SPACE]
    ensures AllSpace(lead) && AllSpace([SPACE]) && AllSpace([])
  {
  }

  lemma {:induction false} PaddedTrims(lead: Text, parts: seq<Text>, k: nat)
    requires (lead == [] || lead == [SPACE]) && k < |parts|
    requires IsCondition(parts[k])
    ensures Trim(Padded(lead, parts)[k]) == parts[k]
    decreases |parts|
  {
    hide Trim, TrimLeft, TrimRight, IsSpace;
    SpacesAround(lead);
    if k > 0 {
      PaddedTrims([SPACE], parts[1..], k - 1);
    } else if |parts| == 1 {
      TrimPadded(lead, parts[0], []);
      assert lead + parts[0] + [] == lead + parts[0];
    } else {
      TrimPadded(lead, parts[0], [SPACE]);
    }
  }

  lemma PaddedCut(parts: seq<Text>)
    requires parts != [] && forall k :: 0 <= k < |parts| ==> IsPiece(OUTSIDE, parts[k])
    ensures Cut(OUTSIDE, Join(parts, CONJUNCTION)) == Some(Padded([], parts))
  {
    PaddedJoin([], parts);
    assert [] + Join(parts, CONJUNCTION) == Join(parts, CONJUNCTION);
    PaddedPieces([], parts);
    CutComplete(Padded([], parts));
  }

  lemma PaddedTrimAll(parts: seq<Text>)
    requires parts != [] && forall k :: 0 <= k < |parts| ==> IsCondition(parts[k])
    ensures TrimAll(Padded([], parts)) == parts
  {
    forall k | 0 <= k < |parts|
      ensures TrimAll(Padded([], parts))[k] == parts[k]
    {
      PaddedTrims([], parts, k);
    }
  }

  /** Splitting the join of well-formed conditions returns them, whatever their strings and lists hold. */
  lemma SplitJoined(parts: seq<Text>)
    requires 1 <= |parts| <= MAX_CONDITIONS_PER_RULE
    requires forall k :: 0 <= k < |parts| ==> IsPiece(OUTSIDE, parts[k]) && IsCondition(parts[k])
    ensures SplitConjunctions(Join(parts, CONJUNCTION)) == Ok(parts)
  {
    PaddedCut(parts);
    PaddedTrimAll(parts);
  }

  /** What an accepted condition text was cut into: at most twelve non-empty pieces that rejoin to it. */
  lemma SplitRejoins(raw: Text, parts: seq<Text>)
    requires SplitConjunctions(raw) == Ok(parts)
    ensures 1 <= |parts| <= MAX_CONDITIONS_PER_RULE && [] !in parts
    ensures exists pieces :: IsSplit(raw, pieces) && parts == TrimAll(pieces)
  {
    CutIsTheSplit(raw, Cut(OUTSIDE, raw).value);
  }
}
