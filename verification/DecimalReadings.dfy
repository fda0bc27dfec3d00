/** The decimal texts that prices are written in, stated by code units: which texts are read, as which number, and
    the one normal text of each number. */
module DecimalReadings {
  import opened Wrappers
  import opened CodeUnits
  import opened WhiteSpace
  import opened SafeIntegers
  import opened Decimals

  ghost predicate AreDigits(s: Text)
    ensures AreDigits(s) <==> AllDigits(s)
  {
    forall i :: 0 <= i < |s| ==> 0x30 <= s[i] <= 0x39
  }

  ghost function TenTo(n: nat): (r: nat)
    ensures r > 0
  {
    if n == 0 then 1 else TenTo(n - 1) * 10
  }

  /** The value of a run of digits, by the place of each digit. */
  ghost function ValueOf(s: Text): nat
    requires AreDigits(s)
  {
    if s == [] then 0 else (s[0] - 0x30) * TenTo(|s| - 1) + ValueOf(s[1..])
  }

  /** The point and the digits behind it, if there are any. */
  ghost function Pointed(fraction: Text): Text {
    if fraction == [] then [] else [0x2E] + fraction
  }

  /** White space, an optional plus sign, digits, and perhaps a point and more digits. */
  ghost predicate SpellsDecimal(value: Text, integer: Text, fraction: Text) {
    && integer != [] && AreDigits(integer) && AreDigits(fraction)
    && exists w, sign, x ::
      && value == w + sign + integer + Pointed(fraction) + x
      && Blanks(w) && Blanks(x) && IsPlusOrNothing(sign)
  }

  ghost predicate IsPlusOrNothing(sign: Text) {
    sign == [] || sign == [0x2B]
  }

  // ----- the value of digits -----

  lemma {:induction false} TenToIsPow(n: nat)
    ensures TenTo(n) == Pow10(n)
  {
    if n > 0 {
      TenToIsPow(n - 1);
    }
  }

  lemma {:induction false} ValueIsDigits(s: Text)
    requires AreDigits(s)
    ensures ValueOf(s) == Digits(s)
  {
    hide Digits, Pow10, TenTo;
    if s == [] {
      NoDigits();
    } else {
      ValueIsDigits(s[1..]);
      TenToIsPow(|s| - 1);
      OneDigit(s[0]);
      DigitsConcat([s[0]], s[1..]);
      assert s == [s[0]] + s[1..];
    }
  }

  lemma OneDigit(c: CodeUnit)
    requires IsDigit(c)
    ensures AllDigits([c]) && Digits([c]) == c - 0x30
  {
    assert [c][..0] == [];
  }

  // ----- reading -----

  lemma DigitsAreSolid(s: Text)
    requires AreDigits(s)
    ensures forall i :: 0 <= i < |s| ==> !IsSpace(s[i])
  {
  }

  lemma DecimalMatches(integer: Text, fraction: Text)
    requires integer != [] && AreDigits(integer) && AreDigits(fraction)
    ensures MatchDecimal(integer + Pointed(fraction)) == Some(Decimal(integer, fraction))
  {
    hide DigitRun;
    var rest := Pointed(fraction);
    DigitRunStops(integer, rest);
    var s := integer + rest;
    assert fraction == [] ==> s == integer;
    assert s[..|integer|] == integer;
    assert fraction != [] ==> s[|integer| + 1..] == fraction;
  }

  lemma MatchedDecimal(s: Text)
    requires MatchDecimal(s).Some?
    ensures var d := MatchDecimal(s).value;
      d.integer != [] && s == d.integer + Pointed(d.fraction)
  {
    var n := DigitRun(s);
    assert n < |s| ==> s == s[..n] + [s[n]] + s[n + 1..];
  }

  lemma PlusIsSolid()
    ensures !IsSpace(0x2B)
  {
  }

  lemma UnsignedIsSolid(integer: Text, fraction: Text)
    requires integer != [] && AreDigits(integer) && AreDigits(fraction)
    ensures var u := integer + Pointed(fraction);
      u != [] && u[0] != PLUS && u[0] != MINUS && !IsSpace(u[0]) && !IsSpace(u[|u| - 1])
  {
    hide IsSpace;
    DigitsAreSolid(integer);
    DigitsAreSolid(fraction);
    var u := integer + Pointed(fraction);
    assert u[|u| - 1] == if fraction == [] then integer[|integer| - 1] else fraction[|fraction| - 1];
  }

  lemma ReadCore(value: Text, w: Text, sign: Text, unsigned: Text, x: Text)
    requires value == w + (sign + unsigned) + x && Blanks(w) && Blanks(x) && IsPlusOrNothing(sign)
    requires unsigned != [] && unsigned[0] != PLUS && unsigned[0] != MINUS
    requires !IsSpace(unsigned[0]) && !IsSpace(unsigned[|unsigned| - 1])
    ensures ReadDecimal(value) == MatchDecimal(unsigned)
  {
    hide Trim, Blanks, MatchDecimal, IsSpace;
    PlusIsSolid();
    var core := sign + unsigned;
    TrimPadded(w, core, x);
    assert sign == [] ==> core == unsigned;
    assert sign != [] ==> core[1..] == unsigned;
  }

  lemma SpelledIsRead(value: Text, integer: Text, fraction: Text)
    requires SpellsDecimal(value, integer, fraction)
    ensures ReadDecimal(value) == Some(Decimal(integer, fraction))
  {
    hide ReadDecimal, Blanks, MatchDecimal, IsSpace, Pointed, AreDigits;
    var w, sign, x :|
      && value == w + sign + integer + Pointed(fraction) + x
      && Blanks(w) && Blanks(x) && IsPlusOrNothing(sign);
    var unsigned := integer + Pointed(fraction);
    UnsignedIsSolid(integer, fraction);
    DecimalMatches(integer, fraction);
    assert value == w + (sign + unsigned) + x;
    ReadCore(value, w, sign, unsigned, x);
  }

  lemma SignedParts(raw: Text) returns (sign: Text, unsigned: Text)
    requires raw != []
    ensures raw == sign + unsigned && IsPlusOrNothing(sign)
    ensures unsigned == if raw[0] == PLUS then raw[1..] else raw
  {
    sign := if raw[0] == PLUS then [PLUS] else [];
    unsigned := if raw[0] == PLUS then raw[1..] else raw;
  }

  lemma SignedText(w: Text, sign: Text, integer: Text, point: Text, x: Text)
    ensures w + (sign + (integer + point)) + x == w + sign + integer + point + x
  {
  }

  lemma ReadIsSpelled(value: Text)
    requires ReadDecimal(value).Some?
    ensures SpellsDecimal(value, ReadDecimal(value).value.integer, ReadDecimal(value).value.fraction)
  {
    hide Trim, Blanks, MatchDecimal, Pointed, IsPlusOrNothing;
    var raw, d := Trim(value), ReadDecimal(value).value;
    var w, x := TrimSplits(value);
    var sign, unsigned := SignedParts(raw);
    MatchedDecimal(unsigned);
    SignedText(w, sign, d.integer, Pointed(d.fraction), x);
  }

  /** The reader accepts exactly these texts, each as its digits before and after the point. */
  lemma ReadExactly(value: Text, integer: Text, fraction: Text)
    ensures ReadDecimal(value) == Some(Decimal(integer, fraction)) <==> SpellsDecimal(value, integer, fraction)
  {
    hide ReadDecimal, SpellsDecimal;
    if ReadDecimal(value) == Some(Decimal(integer, fraction)) {
      ReadIsSpelled(value);
    }
    if SpellsDecimal(value, integer, fraction) {
      SpelledIsRead(value, integer, fraction);
    }
  }

  // ----- normal texts -----

  /** No leading zero before another digit, and no zero at the end of the fraction. */
  ghost predicate HasNoSpareZeros(integer: Text, fraction: Text) {
    && integer != [] && AreDigits(integer) && AreDigits(fraction)
    && (|integer| > 1 ==> integer[0] != 0x30)
    && (fraction != [] ==> fraction[|fraction| - 1] != 0x30)
  }

  /** The two denote the same number. */
  ghost predicate AreEqual(integer: Text, fraction: Text, otherInteger: Text, otherFraction: Text)
    requires AreDigits(integer) && AreDigits(fraction) && AreDigits(otherInteger) && AreDigits(otherFraction)
  {
    ValueOf(integer + fraction) * TenTo(|otherFraction|) == ValueOf(otherInteger + otherFraction) * TenTo(|fraction|)
  }

  /** `text` is the number that `value` spells, without spare zeros. */
  ghost predicate IsNormalText(value: Text, text: Text) {
    exists integer, fraction, i, f ::
      && SpellsDecimal(value, integer, fraction) && HasNoSpareZeros(i, f)
      && AreDigits(integer) && AreDigits(fraction) && AreEqual(integer, fraction, i, f)
      && text == i + Pointed(f)
  }

  lemma EqualExactly(a: Decimal, b: Decimal)
    requires IsDecimal(a) && IsDecimal(b)
    ensures SameNumber(a, b) <==> AreEqual(a.integer, a.fraction, b.integer, b.fraction)
  {
    hide Digits, Pow10, ValueOf, TenTo;
    ValueIsDigits(a.integer + a.fraction);
    ValueIsDigits(b.integer + b.fraction);
    TenToIsPow(|a.fraction|);
    TenToIsPow(|b.fraction|);
  }

  /** Normalizing succeeds exactly on decimal texts, and returns the one normal text of the number. */
  lemma NormalizeExactly(value: Text, text: Text)
    ensures NormalizeDecimal(value) == Ok(text) <==> IsNormalText(value, text)
  {
    hide ReadDecimal, SpellsDecimal, Normal, AreEqual, Numerator, Denominator, AreDigits;
    if NormalizeDecimal(value) == Ok(text) {
      var d := ReadDecimal(value).value;
      ReadExactly(value, d.integer, d.fraction);
      NormalKeepsNumber(d);
      EqualExactly(d, Normal(d));
      assert HasNoSpareZeros(Normal(d).integer, Normal(d).fraction);
      SpelledPointed(Normal(d));
    }
    if integer, fraction, i, f :|
      && SpellsDecimal(value, integer, fraction) && HasNoSpareZeros(i, f)
      && AreDigits(integer) && AreDigits(fraction) && AreEqual(integer, fraction, i, f)
      && text == i + Pointed(f) {
      ReadExactly(value, integer, fraction);
      var d, n := Decimal(integer, fraction), Decimal(i, f);
      NormalKeepsNumber(d);
      EqualExactly(d, n);
      SameNormal(d, n);
      assert Spell(n) == text by {
        SpelledPointed(n);
      }
    }
  }

  lemma SpelledPointed(n: Decimal)
    ensures Spell(n) == n.integer + Pointed(n.fraction)
  {
    assert n.integer + [] == n.integer;
  }

  lemma SameNormal(d: Decimal, n: Decimal)
    requires IsDecimal(d) && IsNormal(n) && SameNumber(d, n)
    ensures Normal(d) == n
  {
    hide Normal, Numerator, Denominator;
    NormalKeepsNumber(d);
    var m := Normal(d);
    CrossTransitive(Numerator(m), Denominator(m), Numerator(d), Denominator(d), Numerator(n), Denominator(n));
    NormalFormUnique(m, n);
  }

  // ----- scaled integers -----

  /** The number times the scale, rounded half up. */
  ghost predicate IsRounded(integer: Text, fraction: Text, scale: nat, r: nat)
    requires AreDigits(integer) && AreDigits(fraction)
  {
    var n, d := ValueOf(integer + fraction) * scale, TenTo(|fraction|);
    2 * (d * r) <= 2 * n + d < 2 * (d * r) + 2 * d
  }

  /** The number that `value` spells, times the scale, rounded half up, and a safe integer. */
  ghost predicate IsScaledText(value: Text, scale: int, r: nat) {
    && 0 < scale <= 9_007_199_254_740_991 && r <= 9_007_199_254_740_991
    && exists integer, fraction :: SpellsDecimal(value, integer, fraction) && AreDigits(integer) && AreDigits(fraction)
                                   && IsRounded(integer, fraction, scale, r)
  }

  lemma RoundedOnce(n: nat, d: nat, a: nat, b: nat)
    requires d > 0 && IsHalfUp(n, d, a) && IsHalfUp(n, d, b)
    ensures a == b
  {
    hide IsHalfUp;
    HalfUpMonotone(n, d, a, n, d, b);
    HalfUpMonotone(n, d, b, n, d, a);
  }

  lemma RoundedExactly(d: Decimal, scale: nat, r: nat)
    requires IsDecimal(d)
    ensures RoundHalfUp(Times(Numerator(d), scale), Denominator(d)) == r <==> IsRounded(d.integer, d.fraction, scale, r)
  {
    hide Digits, Pow10, ValueOf, TenTo, RoundHalfUp;
    ValueIsDigits(d.integer + d.fraction);
    TenToIsPow(|d.fraction|);
    var n, m := Times(Numerator(d), scale), Denominator(d);
    RoundHalfUpIs(n, m);
    assert IsRounded(d.integer, d.fraction, scale, r) <==> IsHalfUp(n, m, r);
    if IsHalfUp(n, m, r) {
      RoundedOnce(n, m, r, RoundHalfUp(n, m));
    }
  }

  /** The scaled integer is read exactly from decimal texts, rounded half up, unless it is no safe integer. */
  lemma ScaledExactly(value: Text, scale: int, r: nat)
    ensures DecimalToScaledInteger(value, scale) == Ok(r) <==> IsScaledText(value, scale, r)
  {
    hide ReadDecimal, SpellsDecimal, RoundHalfUp, IsRounded, Numerator, Denominator, DecimalToScaledInteger;
    ScaledIntegerIsHalfUp(value, scale);
    var d := ReadDecimal(value);
    if d.Some? && scale > 0 {
      ReadExactly(value, d.value.integer, d.value.fraction);
      RoundedExactly(d.value, scale, r);
    }
    if IsScaledText(value, scale, r) {
      var integer, fraction :| SpellsDecimal(value, integer, fraction) && AreDigits(integer) && AreDigits(fraction)
                               && IsRounded(integer, fraction, scale, r);
      ReadExactly(value, integer, fraction);
    }
  }

  /** `text` is the price in dollars, without spare zeros. */
  ghost predicate IsDollarText(microUsd: nat, text: Text) {
    exists i, f ::
      && HasNoSpareZeros(i, f) && AreDigits(i) && AreDigits(f)
      && ValueOf(i + f) * 1_000_000 == microUsd * TenTo(|f|)
      && text == i + Pointed(f)
  }

  /** A price prints as the one text of its dollars. */
  lemma PrintedExactly(microUsd: nat)
    requires microUsd < EXACT_PRINT_BOUND
    ensures IsDollarText(microUsd, MicroUsdToDollars(microUsd))
  {
    hide Normal, MicroUsdAsDecimal, Spell, Digits, Pow10, ValueOf, TenTo, AreDigits;
    var d := MicroUsdAsDecimal(microUsd);
    var n := Normal(d);
    MicroUsdValue(microUsd);
    NormalKeepsNumber(d);
    SpelledPointed(n);
    ValueIsDigits(n.integer + n.fraction);
    TenToIsPow(|n.fraction|);
    assert HasNoSpareZeros(n.integer, n.fraction);
  }
}
