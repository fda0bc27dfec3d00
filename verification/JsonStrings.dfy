/** The part of `JSON.parse` that the SKU rule compiler depends on: string literals (section 7 of
    RFC 8259) and arrays of them (section 5). Every other JSON text is rejected by the callers. */
module JsonStrings {
  import opened Wrappers
  import opened CodeUnits

  predicate IsJsonSpace(c: CodeUnit) {
    c == SPACE || c == TAB || c == LF || c == CR
  }

  function SkipJsonSpace(s: Text): (t: Text)
    ensures |t| <= |s|
  {
    if s != [] && IsJsonSpace(s[0]) then SkipJsonSpace(s[1..]) else s
  }

  function HexDigit(c: CodeUnit): (r: Option<nat>)
    ensures r.Some? ==> r.value < 16
  {
    if 0x30 <= c <= 0x39 then Some(c - 0x30)
    else if 0x41 <= c <= 0x46 then Some(c - 0x41 + 10)
    else if 0x61 <= c <= 0x66 then Some(c - 0x61 + 10)
    else None
  }

  function HexFour(s: Text): (r: Option<CodeUnit>)
    requires |s| >= 4
  {
    var a, b, c, d := HexDigit(s[0]), HexDigit(s[1]), HexDigit(s[2]), HexDigit(s[3]);
    if a.Some? && b.Some? && c.Some? && d.Some? then
      Some(0x1000 * a.value + 0x100 * b.value + 0x10 * c.value + d.value)
    else
      None
  }

  /** The code unit that a backslash followed by `c` stands for. */
  function ShortEscape(c: CodeUnit): Option<CodeUnit> {
    if c == QUOTE || c == BACKSLASH || c == SLASH then Some(c)
    else if c == 0x62 then Some(0x08)       // b
    else if c == 0x66 then Some(0x0C)       // f
    else if c == 0x6E then Some(0x0A)       // n
    else if c == 0x72 then Some(0x0D)       // r
    else if c == 0x74 then Some(0x09)       // t
    else None
  }

  /** The first code unit of a string body and the number of code units that spell it. */
  function ScanUnit(s: Text): (r: Option<(CodeUnit, nat)>)
    ensures r.Some? ==> 1 <= r.value.1 <= |s|
    ensures r.Some? ==> forall i :: 0 <= i < r.value.1 ==> s[i] >= 0x20
  {
    if s == [] || s[0] < 0x20 || s[0] == QUOTE then None
    else if s[0] != BACKSLASH then Some((s[0], 1))
    else if |s| >= 6 && s[1] == 0x75 then
      match HexFour(s[2..])
      case None => None
      case Some(c) => Some((c, 6))
    else if |s| >= 2 then
      match ShortEscape(s[1])
      case None => None
      case Some(c) => Some((c, 2))
    else None
  }

  /** Reads a string whose opening quote is already gone: its value, and what follows the closing quote. */
  function ScanString(s: Text): (r: Option<(Text, Text)>)
    ensures r.Some? ==> |r.value.0| + |r.value.1| < |s| && r.value.1 == s[|s| - |r.value.1|..]
  {
    if s != [] && s[0] == QUOTE then Some(([], s[1..]))
    else
      match ScanUnit(s)
      case None => None
      case Some((c, n)) =>
        match ScanString(s[n..])
        case None => None
        case Some((v, rest)) => Some(([c] + v, rest))
  }

  predicate IsLiteral(lit: Text, v: Text) {
    lit != [] && lit[0] == QUOTE && ScanString(lit[1..]) == Some((v, []))
  }

  /** `parseJsonString`: a non-empty string literal. */
  function ParseJsonString(raw: Text): (r: Result<Text>)
    ensures r.Ok? ==> IsLiteral(raw, r.value) && 0 < |r.value| <= |raw|
  {
    if raw == [] || raw[0] != QUOTE then Err
    else
      match ScanString(raw[1..])
      case None => Err
      case Some((v, rest)) => if rest == [] && v != [] then Ok(v) else Err
  }

  function ScanElements(s: Text): (r: Option<(seq<Text>, Text)>)
    ensures r.Some? ==> |r.value.1| < |s| && r.value.0 != []
    decreases |s|
  {
    if s == [] || s[0] != QUOTE then None
    else
      match ScanString(s[1..])
      case None => None
      case Some((v, rest)) =>
        var after := SkipJsonSpace(rest);
        if after == [] then None
        else if after[0] == CLOSE_BRACKET then Some(([v], after[1..]))
        else if after[0] != COMMA then None
        else
          match ScanElements(SkipJsonSpace(after[1..]))
          case None => None
          case Some((vs, end)) => Some(([v] + vs, end))
  }

  /** A JSON array whose elements are all strings. */
  function ParseStringArray(s: Text): Option<seq<Text>> {
    if s == [] || s[0] != OPEN_BRACKET then None
    else
      var body := SkipJsonSpace(s[1..]);
      if body != [] && body[0] == CLOSE_BRACKET then
        if SkipJsonSpace(body[1..]) == [] then Some([]) else None
      else
        match ScanElements(body)
        case None => None
        case Some((vs, end)) => if SkipJsonSpace(end) == [] then Some(vs) else None
  }

  lemma {:induction false} ScanElementsBounded(s: Text)
    requires ScanElements(s).Some?
    ensures forall i :: 0 <= i < |ScanElements(s).value.0| ==> |ScanElements(s).value.0[i]| <= |s|
    decreases |s|
  {
    hide ScanString;
    var after := SkipJsonSpace(ScanString(s[1..]).value.1);
    if after[0] == COMMA {
      ScanElementsBounded(SkipJsonSpace(after[1..]));
    }
  }

  /** No string of a list is longer than the list. */
  lemma ParseStringArrayBounded(s: Text)
    requires ParseStringArray(s).Some?
    ensures forall i :: 0 <= i < |ParseStringArray(s).value| ==> |ParseStringArray(s).value[i]| <= |s|
  {
    hide ScanElements;
    var body := SkipJsonSpace(s[1..]);
    if ScanElements(body).Some? {
      ScanElementsBounded(body);
    }
  }

  lemma ScanUnitExtends(s: Text, t: Text)
    requires ScanUnit(s).Some?
    ensures ScanUnit(s + t) == ScanUnit(s)
  {
    if s[0] == BACKSLASH && |s| >= 6 {
      assert (s + t)[2..][..4] == s[2..][..4];
      assert forall k :: 0 <= k < 4 ==> (s + t)[2..][k] == s[2..][k];
    }
  }

  /** What follows a literal does not change how it is read. */
  lemma {:induction false} ScanExtends(s: Text, t: Text)
    requires ScanString(s).Some?
    ensures ScanString(s + t) == Some((ScanString(s).value.0, ScanString(s).value.1 + t))
  {
    if s[0] == QUOTE {
      assert (s + t)[1..] == s[1..] + t;
    } else {
      var n := ScanUnit(s).value.1;
      ScanUnitExtends(s, t);
      assert (s + t)[n..] == s[n..] + t;
      ScanExtends(s[n..], t);
    }
  }

  /** A literal holds no control characters, so it stays on one line. */
  lemma {:induction false} ScanPrintable(s: Text)
    requires ScanString(s).Some?
    ensures forall i :: 0 <= i < |s| - |ScanString(s).value.1| ==> s[i] >= 0x20
  {
    if s[0] != QUOTE {
      var n := ScanUnit(s).value.1;
      ScanPrintable(s[n..]);
      forall i | 0 <= i < |s| - |ScanString(s).value.1|
        ensures s[i] >= 0x20
      {
        if i >= n {
          assert s[i] == s[n..][i - n];
        }
      }
    }
  }

  // ----- the printer -----

  function HexChar(d: nat): CodeUnit
    requires d < 16
  {
    if d < 10 then 0x30 + d else 0x61 + (d - 10)
  }

  /** Escapes what a literal must escape, and `>`. */
  function QuoteUnit(c: CodeUnit): Text {
    if c == QUOTE || c == BACKSLASH then [BACKSLASH, c]
    else if c < 0x20 || c == GREATER then
      [BACKSLASH, 0x75, 0x30, 0x30, HexChar(c / 16), HexChar(c % 16)]
    else [c]
  }

  function QuoteBody(v: Text): Text {
    if v == [] then [] else QuoteUnit(v[0]) + QuoteBody(v[1..])
  }

  function QuoteString(v: Text): Text {
    [QUOTE] + QuoteBody(v) + [QUOTE]
  }

  lemma ScanQuotedUnit(c: CodeUnit, t: Text)
    ensures ScanUnit(QuoteUnit(c) + t) == Some((c, |QuoteUnit(c)|))
    ensures (QuoteUnit(c) + t)[|QuoteUnit(c)|..] == t
  {
    var s := QuoteUnit(c) + t;
    if c < 0x20 || c == GREATER {
      assert s[2..][0] == 0x30 && s[2..][1] == 0x30;
      assert s[2..][2] == HexChar(c / 16) && s[2..][3] == HexChar(c % 16);
      assert HexDigit(HexChar(c / 16)) == Some(c / 16) && HexDigit(HexChar(c % 16)) == Some(c % 16);
    }
  }

  lemma ScanStep(s: Text, c: CodeUnit, n: nat, v: Text, rest: Text)
    requires ScanUnit(s) == Some((c, n)) && ScanString(s[n..]) == Some((v, rest))
    ensures ScanString(s) == Some(([c] + v, rest))
  {
  }

  lemma {:induction false} QuoteBodyScans(v: Text)
    ensures ScanString(QuoteBody(v) + [QUOTE]) == Some((v, []))
  {
    if v != [] {
      QuoteBodyScans(v[1..]);
      QuoteUnitScans(v[0], QuoteBody(v[1..]) + [QUOTE], v[1..]);
      assert QuoteBody(v) + [QUOTE] == QuoteUnit(v[0]) + (QuoteBody(v[1..]) + [QUOTE]);
      assert [v[0]] + v[1..] == v;
    }
  }

  lemma QuoteUnitScans(c: CodeUnit, t: Text, v: Text)
    requires ScanString(t) == Some((v, []))
    ensures ScanString(QuoteUnit(c) + t) == Some(([c] + v, []))
  {
    ScanQuotedUnit(c, t);
    ScanStep(QuoteUnit(c) + t, c, |QuoteUnit(c)|, v, []);
  }

  lemma {:induction false} QuoteBodyHasNoGreater(v: Text)
    ensures GREATER !in QuoteBody(v)
  {
    if v != [] {
      QuoteBodyHasNoGreater(v[1..]);
    }
  }

  /** Every string has a literal free of `>`. */
  lemma QuoteStringIsLiteral(v: Text)
    ensures IsLiteral(QuoteString(v), v) && GREATER !in QuoteString(v)
  {
    QuoteBodyScans(v);
    QuoteBodyHasNoGreater(v);
    assert QuoteString(v)[1..] == QuoteBody(v) + [QUOTE];
  }

  /** Text without anything to escape. */
  predicate IsPlainText(v: Text) {
    forall i :: 0 <= i < |v| ==> v[i] >= 0x20 && v[i] != QUOTE && v[i] != BACKSLASH && v[i] != GREATER
  }

  lemma {:induction false} PlainBody(v: Text)
    requires IsPlainText(v)
    ensures QuoteBody(v) == v
  {
    if v != [] {
      PlainBody(v[1..]);
      assert v == [v[0]] + v[1..];
    }
  }

  lemma PlainQuoted(v: Text)
    requires IsPlainText(v)
    ensures QuoteString(v) == [QUOTE] + v + [QUOTE]
  {
    PlainBody(v);
  }
}
