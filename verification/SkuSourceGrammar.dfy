/** The source texts of SKU rules as a grammar over code units, and the proof that the compiler accepts exactly
    the texts of this grammar and returns the rule that they spell. */
module SkuSourceGrammar {
  import opened Wrappers
  import opened CodeUnits
  import opened WhiteSpace
  import opened SkuRules
  import opened SkuConditionGrammar
  import opened SkuRuleGrammar

  // ----- the grammar -----

  /** A blank line or a comment. */
  ghost predicate IsSkipped(line: Text) {
    Blanks(line) || exists core :: IsCore(line, core) && core[0] == 0x23
  }

  /** The code of the lines that are not skipped, in order. */
  ghost predicate CodesOf(lines: seq<Text>, codes: seq<Text>) {
    if lines == [] then codes == []
    else if IsSkipped(lines[0]) then CodesOf(lines[1..], codes)
    else codes != [] && IsCore(lines[0], codes[0]) && CodesOf(lines[1..], codes[1..])
  }

  /** LF, CR LF, or a CR that no LF follows. */
  ghost predicate IsBreak(b: Text, rest: Text) {
    b == [0x0A] || b == [0x0D, 0x0A] || (b == [0x0D] && (rest == [] || rest[0] != 0x0A))
  }

  ghost predicate BreaksInto(s: Text, lines: seq<Text>)
    ensures BreaksInto(s, lines) ==> lines != []
    decreases |lines|
  {
    && lines != []
    && 0x0A !in lines[0] && 0x0D !in lines[0]
    && if |lines| == 1 then s == lines[0]
       else exists b, rest :: s == lines[0] + b + rest && IsBreak(b, rest) && BreaksInto(rest, lines[1..])
  }

  /** The length of the text with every line break counted as one unit. */
  ghost function Length(lines: seq<Text>): nat
    requires lines != []
  {
    |lines[0]| + if |lines| == 1 then 0 else 1 + Length(lines[1..])
  }

  ghost predicate SpellsSource(source: Text, compiled: CompiledRule, allowed: set<Text>) {
    && compiled.version == 1
    && |compiled.rules| <= 64
    && exists core, lines, codes ::
      && IsCore(source, core) && BreaksInto(core, lines) && CodesOf(lines, codes)
      && Length(lines) <= 8192
      && SpellsLines(codes, compiled.rules, compiled.fallback, allowed)
  }

  // ----- code lines -----

  lemma SkippedExactly(line: Text)
    ensures IsSkipped(line) <==> Trim(line) == [] || Trim(line)[0] == HASH
  {
    hide IsCore, Trim, Blanks;
    BlankTrims(line);
    CoreExactly(line, Trim(line));
    if core :| IsCore(line, core) && core[0] == 0x23 {
      CoreExactly(line, core);
    }
  }

  /** The code of one line. */
  function CodeLine(line: Text): seq<Text> {
    if Trim(line) == [] || Trim(line)[0] == HASH then [] else [Trim(line)]
  }

  lemma {:induction false} CodeLinesCons(line: Text, more: seq<Text>)
    ensures CodeLines([line] + more) == CodeLine(line) + CodeLines(more)
    decreases |more|
  {
    hide Trim;
    var lines := [line] + more;
    if more == [] {
      assert lines[..0] == [] && lines[0] == line;
    } else {
      var n := |more| - 1;
      CodeLinesCons(line, more[..n]);
      assert lines[..n + 1] == [line] + more[..n] && lines[n + 1] == more[n];
    }
  }

  /** The line reader keeps exactly the code of the lines. */
  lemma {:induction false} CodesExactly(lines: seq<Text>, codes: seq<Text>)
    ensures CodesOf(lines, codes) <==> codes == CodeLines(lines)
    decreases |lines|
  {
    hide IsCore, IsSkipped, Trim, CodeLines;
    if lines == [] {
      NoCodeLines();
    } else {
      var code := CodeLine(lines[0]);
      CodeLinesCons(lines[0], lines[1..]);
      assert lines == [lines[0]] + lines[1..];
      SkippedExactly(lines[0]);
      if IsSkipped(lines[0]) {
        CodesExactly(lines[1..], codes);
        assert [] + CodeLines(lines[1..]) == CodeLines(lines[1..]);
      } else if codes != [] {
        CoreExactly(lines[0], codes[0]);
        CodesExactly(lines[1..], codes[1..]);
        assert codes == [codes[0]] + codes[1..];
      }
    }
  }

  lemma NoCodeLines()
    ensures CodeLines([]) == []
  {
  }

  // ----- line breaks -----

  lemma {:induction false} PlainLineNormal(line: Text, rest: Text)
    requires CR !in line
    ensures NormalizeNewlines(line + rest) == line + NormalizeNewlines(rest)
  {
    if line == [] {
      assert line + rest == rest;
    } else {
      assert (line + rest)[1..] == line[1..] + rest && (line + rest)[0] == line[0];
      PlainLineNormal(line[1..], rest);
      assert line == [line[0]] + line[1..];
    }
  }

  lemma BreakNormal(b: Text, rest: Text)
    requires IsBreak(b, rest)
    ensures NormalizeNewlines(b + rest) == [LF] + NormalizeNewlines(rest)
  {
    var s := b + rest;
    if |b| == 2 {
      assert s[2..] == rest;
    } else {
      assert s[1..] == rest;
    }
  }

  lemma FirstBreak(s: Text, lines: seq<Text>) returns (b: Text, rest: Text)
    requires BreaksInto(s, lines) && |lines| > 1
    ensures s == lines[0] + b + rest && IsBreak(b, rest) && BreaksInto(rest, lines[1..])
  {
    hide IsBreak;
    b, rest :| s == lines[0] + b + rest && IsBreak(b, rest) && BreaksInto(rest, lines[1..]);
  }

  /** Lines broken off the text are the lines of the normalized text. */
  lemma {:induction false} BrokenLines(s: Text, lines: seq<Text>)
    requires BreaksInto(s, lines)
    ensures lines == SplitOn(NormalizeNewlines(s), LF)
    decreases |lines|
  {
    hide NormalizeNewlines, SplitOn, IsBreak, BreaksInto;
    FirstLine(s, lines);
    if |lines| == 1 {
      var nothing: Text := [];
      PlainLineNormal(s, nothing);
      NormalNothing();
      assert s + nothing == s;
      SplitOnePart(s, LF);
      assert lines == [s];
    } else {
      var b, rest := FirstBreak(s, lines);
      assert s == lines[0] + (b + rest);
      PlainLineNormal(lines[0], b + rest);
      BreakNormal(b, rest);
      BrokenLines(rest, lines[1..]);
      SplitFirstPart(lines[0], NormalizeNewlines(rest), LF);
      assert lines[0] + ([LF] + NormalizeNewlines(rest)) == lines[0] + [LF] + NormalizeNewlines(rest);
      assert lines == [lines[0]] + lines[1..];
    }
  }

  lemma FirstLine(s: Text, lines: seq<Text>)
    requires BreaksInto(s, lines)
    ensures lines != [] && LF !in lines[0] && CR !in lines[0] && (|lines| == 1 ==> s == lines[0])
  {
  }

  lemma NormalNothing()
    ensures NormalizeNewlines([]) == []
  {
  }

  lemma BreakFirst(b: Text, rest: Text, lines: seq<Text>)
    requires IsBreak(b, rest) && BreaksInto(rest, lines)
    ensures BreaksInto(b + rest, [[]] + lines)
  {
    hide IsBreak;
    var empty: Text := [];
    FirstLine(rest, lines);
    assert ([empty] + lines)[1..] == lines;
    assert b + rest == empty + b + rest;
  }

  lemma UnitInFront(c: CodeUnit, line: Text, b: Text, rest: Text, lines: seq<Text>)
    requires c != LF && c != CR && LF !in line && CR !in line
    requires IsBreak(b, rest) && BreaksInto(rest, lines)
    ensures BreaksInto([c] + line + b + rest, [[c] + line] + lines)
  {
    hide IsBreak;
    var all := [[c] + line] + lines;
    assert all[1..] == lines;
  }

  lemma UnitFirst(c: CodeUnit, s: Text, lines: seq<Text>)
    requires c != LF && c != CR && BreaksInto(s, lines)
    ensures lines != [] && BreaksInto([c] + s, [[c] + lines[0]] + lines[1..])
  {
    hide IsBreak, BreaksInto;
    FirstLine(s, lines);
    if |lines| == 1 {
      OnlyLine([c] + s);
      assert [[c] + lines[0]] + lines[1..] == [[c] + s];
    } else {
      var b, rest := FirstBreak(s, lines);
      UnitInFront(c, lines[0], b, rest, lines[1..]);
      Regrouped([c], lines[0], b, rest);
    }
  }

  lemma OnlyLine(s: Text)
    requires LF !in s && CR !in s
    ensures BreaksInto(s, [s])
  {
  }

  /** Every text breaks into lines. */
  lemma {:induction false} BreaksExist(s: Text) returns (lines: seq<Text>)
    ensures BreaksInto(s, lines)
    decreases |s|
  {
    hide BreaksInto;
    if s == [] {
      lines := [s];
      NoBreaks();
    } else if s[0] == CR && |s| >= 2 && s[1] == LF {
      var more := BreaksExist(s[2..]);
      BreakFirst([CR, LF], s[2..], more);
      lines := [[]] + more;
      assert s == [CR, LF] + s[2..];
    } else if s[0] == CR || s[0] == LF {
      var more := BreaksExist(s[1..]);
      BreakFirst([s[0]], s[1..], more);
      lines := [[]] + more;
      assert s == [s[0]] + s[1..];
    } else {
      var more := BreaksExist(s[1..]);
      UnitFirst(s[0], s[1..], more);
      lines := [[s[0]] + more[0]] + more[1..];
      assert s == [s[0]] + s[1..];
    }
  }

  lemma NoBreaks()
    ensures BreaksInto([], [[]])
  {
  }

  /** The lines of the normalized text are the lines the text breaks into. */
  lemma BreaksExactly(s: Text, lines: seq<Text>)
    ensures BreaksInto(s, lines) <==> lines == SplitOn(NormalizeNewlines(s), LF)
  {
    hide BreaksInto, NormalizeNewlines, SplitOn;
    var broken := BreaksExist(s);
    BrokenLines(s, broken);
    if BreaksInto(s, lines) {
      BrokenLines(s, lines);
    }
  }

  lemma {:induction false} LengthOfJoin(lines: seq<Text>)
    requires lines != []
    ensures Length(lines) == |Join(lines, [LF])|
  {
    if |lines| > 1 {
      LengthOfJoin(lines[1..]);
    }
  }

  // ----- normalizing before or after trimming -----

  /** How many units the first unit of the normalized text stands for. */
  function FirstWidth(s: Text): (n: nat)
    requires s != []
    ensures 1 <= n <= |s|
  {
    if s[0] == CR && |s| >= 2 && s[1] == LF then 2 else 1
  }

  lemma NormalStep(s: Text)
    requires s != []
    ensures NormalizeNewlines(s) == [if s[0] == CR then LF else s[0]] + NormalizeNewlines(s[FirstWidth(s)..])
  {
  }

  lemma {:induction false} NormalConcat(s: Text, t: Text)
    requires s == [] || t == [] || s[|s| - 1] != CR || t[0] != LF
    ensures NormalizeNewlines(s + t) == NormalizeNewlines(s) + NormalizeNewlines(t)
    decreases |s|
  {
    hide NormalizeNewlines;
    if s == [] {
      assert s + t == t;
      NormalNothing();
      assert [] + NormalizeNewlines(t) == NormalizeNewlines(t);
    } else {
      var n := FirstWidth(s);
      assert |s| >= 2 ==> (s + t)[1] == s[1];
      assert |s| == 1 && t != [] ==> (s + t)[1] == t[0];
      assert FirstWidth(s + t) == n;
      assert (s + t)[n..] == s[n..] + t;
      NormalStep(s + t);
      NormalStep(s);
      NormalConcat(s[n..], t);
    }
  }

  lemma {:induction false} NormalBlanks(s: Text)
    requires AllSpace(s)
    ensures AllSpace(NormalizeNewlines(s))
    decreases |s|
  {
    if s != [] {
      var rest := if s[0] == CR && |s| >= 2 && s[1] == LF then s[2..] else s[1..];
      NormalBlanks(rest);
      assert IsSpace(LF) && IsSpace(s[0]);
      assert forall i :: 1 <= i < |NormalizeNewlines(s)| ==> NormalizeNewlines(s)[i] == NormalizeNewlines(rest)[i - 1];
    }
  }

  lemma NormalUnit(c: CodeUnit)
    requires c != CR
    ensures NormalizeNewlines([c]) == [c]
  {
    assert [c][1..] == [];
  }

  lemma BreaksAreBlank()
    ensures LF in BLANKS && CR in BLANKS
  {
  }

  lemma NormalStart(s: Text)
    requires s != [] && s[0] != CR
    ensures NormalizeNewlines(s) != [] && NormalizeNewlines(s)[0] == s[0]
  {
  }

  lemma NormalCore(core: Text)
    requires core != [] && Trimmed(core)
    ensures var n := NormalizeNewlines(core); n != [] && Trimmed(n)
  {
    hide NormalizeNewlines, IsSpace;
    SolidUnits(core);
    BreaksAreBlank();
    NormalStart(core);
    var k := |core| - 1;
    assert core == core[..k] + [core[k]];
    NormalConcat(core[..k], [core[k]]);
    NormalUnit(core[k]);
  }

  /** Trimming the normalized text normalizes the trimmed text. */
  lemma NormalTrim(source: Text)
    ensures Trim(NormalizeNewlines(source)) == NormalizeNewlines(Trim(source))
  {
    hide NormalizeNewlines, Trim, Blanks, IsSpace;
    var core := Trim(source);
    var w, x := TrimSplits(source);
    NormalBlanks(w);
    NormalBlanks(x);
    if core == [] {
      BlankTrims(source);
      NormalBlanks(source);
      BlankTrims(NormalizeNewlines(source));
      NormalNothing();
    } else {
      SolidUnits(core);
      BreaksAreBlank();
      NormalConcat(core, x);
      NormalConcat(w, core + x);
      assert source == w + (core + x);
      NormalCore(core);
      var n := NormalizeNewlines(core);
      TrimPadded(NormalizeNewlines(w), n, NormalizeNewlines(x));
      assert NormalizeNewlines(w) + (n + NormalizeNewlines(x)) == NormalizeNewlines(w) + n + NormalizeNewlines(x);
    }
  }

  // ----- the compiler -----

  lemma {:induction false} CompiledVersion(codes: seq<Text>, allowed: set<Text>)
    requires CompileLines(codes, allowed).Ok?
    ensures CompileLines(codes, allowed).value.version == 1
  {
    hide ElseBody, ParseRule, ParseOutput;
    if ElseBody(codes[0]) == None {
      CompiledVersion(codes[1..], allowed);
    }
  }

  /** What the compiler makes of the trimmed text. */
  lemma CompileCore(core: Text, lines: seq<Text>, codes: seq<Text>, compiled: CompiledRule, allowed: set<Text>)
    requires BreaksInto(core, lines) && CodesOf(lines, codes)
    ensures lines == SplitOn(NormalizeNewlines(core), LF) && Length(lines) == |NormalizeNewlines(core)|
    ensures CompileLines(CodeLines(lines), allowed) == Ok(compiled)
       <==> compiled.version == 1 && SpellsLines(codes, compiled.rules, compiled.fallback, allowed)
  {
    hide BreaksInto, CodesOf, SpellsLines, CompileLines, CodeLines, NormalizeNewlines, SplitOn, Join;
    BreaksExactly(core, lines);
    CodesExactly(lines, codes);
    JoinSplit(NormalizeNewlines(core), LF);
    LengthOfJoin(lines);
    LinesExactly(codes, compiled.rules, compiled.fallback, allowed);
    if CompileLines(CodeLines(lines), allowed) == Ok(compiled) {
      CompiledVersion(codes, allowed);
    }
  }

  /** The compiler accepts exactly the texts of the grammar, and returns the rule they spell. */
  lemma CompileExactly(source: Text, compiled: CompiledRule, allowed: set<Text>)
    ensures CompileSkuRule(source, allowed) == Ok(compiled) <==> SpellsSource(source, compiled, allowed)
  {
    hide BreaksInto, CodesOf, SpellsLines, CompileLines, CodeLines, NormalizeNewlines, SplitOn, Trim, IsCore;
    var normalized, core := Trim(NormalizeNewlines(source)), Trim(source);
    NormalTrim(source);
    NormalNothing();
    CoreExactly(source, core);
    if core != [] {
      var lines := BreaksExist(core);
      var codes := CodeLines(lines);
      CodesExactly(lines, codes);
      CompileCore(core, lines, codes, compiled, allowed);
      if CompileSkuRule(source, allowed) == Ok(compiled) {
        assert CompileLines(codes, allowed).Extract() == compiled;
      }
    }
    if SpellsSource(source, compiled, allowed) {
      SpelledCompiles(source, compiled, allowed);
    }
  }

  lemma SpelledCompiles(source: Text, compiled: CompiledRule, allowed: set<Text>)
    requires SpellsSource(source, compiled, allowed)
    ensures CompileSkuRule(source, allowed) == Ok(compiled)
  {
    hide BreaksInto, CodesOf, SpellsLines, CompileLines, CodeLines, NormalizeNewlines, SplitOn, Trim, IsCore;
    var core, lines, codes :|
      && IsCore(source, core) && BreaksInto(core, lines) && CodesOf(lines, codes)
      && Length(lines) <= 8192
      && SpellsLines(codes, compiled.rules, compiled.fallback, allowed);
    CoreExactly(source, core);
    NormalTrim(source);
    CompileCore(core, lines, codes, compiled, allowed);
    NormalNotEmpty(core);
    assert CompileLines(CodeLines(lines), allowed).Extract() == compiled;
  }

  lemma NormalNotEmpty(core: Text)
    requires core != []
    ensures NormalizeNewlines(core) != []
  {
  }

  /** White space around a source text changes nothing. */
  lemma CompileAround(w: Text, source: Text, x: Text, allowed: set<Text>)
    requires Blanks(w) && Blanks(x)
    ensures CompileSkuRule(w + source + x, allowed) == CompileSkuRule(source, allowed)
  {
    hide Trim, Blanks, NormalizeNewlines, CompileLines, CodeLines, SplitOn;
    TrimAround(w, source, x);
    NormalTrim(w + source + x);
    NormalTrim(source);
  }
}
