/** Exact decimal text: normal forms, and rounding to scaled integers. */
module Decimals {
  import opened Wrappers
  import opened CodeUnits
  import opened SafeIntegers

  const ZERO: CodeUnit := 0x30

  function Pow10(n: nat): (r: nat)
    ensures r > 0
  {
    if n == 0 then 1 else 10 * Pow10(n - 1)
  }

  predicate AllDigits(s: Text) {
    forall i :: 0 <= i < |s| ==> IsDigit(s[i])
  }

  /** The number that a run of digits spells. */
  function Digits(s: Text): nat
    requires AllDigits(s)
  {
    if s == [] then 0 else 10 * Digits(s[..|s| - 1]) + (s[|s| - 1] - ZERO)
  }

  /** Digits before and after the decimal point. */
  datatype Decimal = Decimal(integer: Text, fraction: Text)

  predicate IsDecimal(d: Decimal) {
    d.integer != [] && AllDigits(d.integer) && AllDigits(d.fraction)
  }

  /** The value of a decimal is Numerator / Denominator. */
  function Numerator(d: Decimal): nat
    requires IsDecimal(d)
  {
    Digits(d.integer + d.fraction)
  }

  function Denominator(d: Decimal): (r: nat)
    ensures r > 0
  {
    Pow10(|d.fraction|)
  }

  ghost predicate SameNumber(a: Decimal, b: Decimal)
    requires IsDecimal(a) && IsDecimal(b)
  {
    Numerator(a) * Denominator(b) == Numerator(b) * Denominator(a)
  }

  ghost predicate AtMost(a: Decimal, b: Decimal)
    requires IsDecimal(a) && IsDecimal(b)
  {
    Numerator(a) * Denominator(b) <= Numerator(b) * Denominator(a)
  }

  // ----- `normalizeDecimalString` -----

  function DigitRun(s: Text): (n: nat)
    ensures n <= |s| && AllDigits(s[..n]) && (n < |s| ==> !IsDigit(s[n]))
  {
    if s == [] || !IsDigit(s[0]) then 0 else 1 + DigitRun(s[1..])
  }

  /** `^\d+(?:\.\d+)?$` */
  function MatchDecimal(s: Text): (r: Option<Decimal>)
    ensures r.Some? ==> IsDecimal(r.value)
  {
    var n := DigitRun(s);
    if n == 0 then None
    else if n == |s| then Some(Decimal(s, []))
    else if s[n] == DOT && n + 1 < |s| && AllDigits(s[n + 1..]) then Some(Decimal(s[..n], s[n + 1..]))
    else None
  }

  /** The decimal that an accepted text spells: trimmed, with an optional plus sign. */
  function ReadDecimal(value: Text): (r: Option<Decimal>)
    ensures r.Some? ==> IsDecimal(r.value)
  {
    var raw := Trim(value);
    if raw == [] then None
    else
      var unsigned := if raw[0] == PLUS then raw[1..] else raw;
      if unsigned != [] && unsigned[0] == MINUS then None else MatchDecimal(unsigned)
  }

  /** `replace(/^0+(?=\d)/, '')` */
  function StripLeadingZeros(s: Text): (r: Text)
    ensures |r| <= |s| && r == s[|s| - |r|..]
    ensures s != [] ==> r != []
    ensures |r| >= 2 ==> r[0] != ZERO
    ensures AllDigits(s) ==> AllDigits(r)
  {
    if |s| >= 2 && s[0] == ZERO then StripLeadingZeros(s[1..]) else s
  }

  /** `replace(/0+$/, '')` */
  function StripTrailingZeros(s: Text): (r: Text)
    ensures |r| <= |s| && r == s[..|r|]
    ensures r != [] ==> r[|r| - 1] != ZERO
    ensures AllDigits(s) ==> AllDigits(r)
  {
    if s != [] && s[|s| - 1] == ZERO then StripTrailingZeros(s[..|s| - 1]) else s
  }

  function Normal(d: Decimal): (r: Decimal)
    requires IsDecimal(d)
    ensures IsDecimal(r)
  {
    Decimal(StripLeadingZeros(d.integer), StripTrailingZeros(d.fraction))
  }

  function Spell(d: Decimal): Text {
    if d.fraction == [] then d.integer else d.integer + [DOT] + d.fraction
  }

  function NormalizeDecimal(value: Text): Result<Text> {
    match ReadDecimal(value)
    case None => Err
    case Some(d) => Ok(Spell(Normal(d)))
  }

  // ----- `decimalToScaledInteger` -----

  /** Integer division rounded half up, as the source computes it from quotient and remainder. */
  function RoundHalfUp(numerator: nat, denominator: nat): nat
    requires denominator > 0
  {
    var result := numerator / denominator;
    if 2 * (numerator % denominator) >= denominator then result + 1 else result
  }

  function Times(a: nat, b: nat): (r: nat)
    ensures r == a * b
  {
    a * b
  }

  function DecimalToScaledInteger(value: Text, scale: int): Result<nat> {
    if !(0 < scale <= MAX_SAFE_INTEGER) then Err
    else
      match ReadDecimal(value)
      case None => Err
      case Some(raw) =>
        var d := Normal(raw);
        var result := RoundHalfUp(Times(Numerator(d), scale), Denominator(d));
        if result > MAX_SAFE_INTEGER then Err else Ok(result)
  }

  // ----- digits -----

  lemma {:induction false} PowSplit(a: nat, b: nat)
    ensures Pow10(a + b) == Pow10(a) * Pow10(b)
  {
    hide Pow10;
    PowZero();
    if a > 0 {
      PowSplit(a - 1, b);
      PowStep(a);
      PowStep(a + b);
      MulAssoc(10, Pow10(a - 1), Pow10(b));
    }
  }

  lemma PowZero()
    ensures Pow10(0) == 1
  {
  }

  lemma {:induction false} DigitsConcat(a: Text, b: Text)
    requires AllDigits(a) && AllDigits(b)
    ensures AllDigits(a + b) && Digits(a + b) == Digits(a) * Pow10(|b|) + Digits(b)
  {
    hide Digits, Pow10;
    if b == [] {
      assert a + b == a;
      PowZero();
      NoDigits();
    } else {
      var n := |b| - 1;
      DigitsConcat(a, b[..n]);
      assert a + b == (a + b[..n]) + [b[n]] && b == b[..n] + [b[n]];
      DigitsSnoc(a + b[..n], b[n]);
      DigitsSnoc(b[..n], b[n]);
      PowStep(|b|);
      ShiftedSum(Digits(a), Pow10(n), Digits(b[..n]), b[n] - ZERO);
    }
  }

  lemma NoDigits()
    ensures Digits([]) == 0
  {
  }

  lemma ShiftedSum(d: nat, p: nat, e: nat, c: nat)
    ensures 10 * (d * p + e) + c == d * (10 * p) + (10 * e + c)
  {
    MulCommutes3(d, 10, p);
  }

  lemma {:induction false} DigitsBound(s: Text)
    requires AllDigits(s)
    ensures Digits(s) < Pow10(|s|)
  {
    if s != [] {
      DigitsBound(s[..|s| - 1]);
    }
  }

  lemma {:induction false} DigitsOfZeros(s: Text)
    requires AllDigits(s) && forall i :: 0 <= i < |s| ==> s[i] == ZERO
    ensures Digits(s) == 0
  {
    if s != [] {
      DigitsOfZeros(s[..|s| - 1]);
    }
  }

  lemma {:induction false} DigitsInjective(a: Text, b: Text)
    requires AllDigits(a) && AllDigits(b) && |a| == |b| && Digits(a) == Digits(b)
    ensures a == b
  {
    if a != [] {
      var n := |a| - 1;
      DigitsInjective(a[..n], b[..n]);
      assert a == a[..n] + [a[n]] && b == b[..n] + [b[n]];
    }
  }

  /** A leading digit other than 0 makes the number as large as its length says. */
  lemma DigitsLeading(s: Text)
    requires AllDigits(s) && s != [] && s[0] != ZERO
    ensures Digits(s) >= Pow10(|s| - 1)
  {
    DigitsConcat(s[..1], s[1..]);
    assert s == s[..1] + s[1..] && s[..1][..0] == [];
    var lead := s[0] - ZERO;
    assert Digits(s[..1]) == lead;
    assert lead * Pow10(|s| - 1) >= Pow10(|s| - 1) by {
      MulAtLeast(lead, Pow10(|s| - 1));
    }
  }

  lemma MulAtLeast(k: nat, p: nat)
    requires k >= 1
    ensures k * p >= p
  {
  }

  /** A number has one spelling without leading zeros. */
  lemma IntegerInjective(a: Text, b: Text)
    requires AllDigits(a) && AllDigits(b) && a != [] && b != [] && Digits(a) == Digits(b)
    requires (|a| >= 2 ==> a[0] != ZERO) && (|b| >= 2 ==> b[0] != ZERO)
    ensures a == b
  {
    if |a| < |b| {
      LongerIsLarger(a, b);
    } else if |b| < |a| {
      LongerIsLarger(b, a);
    } else {
      DigitsInjective(a, b);
    }
  }

  lemma LongerIsLarger(a: Text, b: Text)
    requires AllDigits(a) && AllDigits(b) && |a| < |b| && b[0] != ZERO
    ensures Digits(a) < Digits(b)
  {
    DigitsBound(a);
    DigitsLeading(b);
    PowMonotone(|a|, |b| - 1);
  }

  lemma {:induction false} PowMonotone(a: nat, b: nat)
    requires a <= b
    ensures Pow10(a) <= Pow10(b)
    decreases b
  {
    if a < b {
      PowMonotone(a, b - 1);
    }
  }

  // ----- normal forms -----

  ghost predicate IsNormal(d: Decimal) {
    && IsDecimal(d)
    && (|d.integer| >= 2 ==> d.integer[0] != ZERO)
    && (d.fraction != [] ==> d.fraction[|d.fraction| - 1] != ZERO)
  }

  lemma {:induction false} StripLeadingKeepsDigits(s: Text)
    requires AllDigits(s)
    ensures Digits(StripLeadingZeros(s)) == Digits(s)
  {
    hide Digits;
    if |s| >= 2 && s[0] == ZERO {
      StripLeadingKeepsDigits(s[1..]);
      LeadingZero(s[1..]);
      assert s == [ZERO] + s[1..];
    }
  }

  lemma LeadingZero(s: Text)
    requires AllDigits(s)
    ensures AllDigits([ZERO] + s) && Digits([ZERO] + s) == Digits(s)
  {
    hide Pow10;
    DigitsConcat([ZERO], s);
    DigitsOfZeros([ZERO]);
  }

  lemma {:induction false} StrippedAreZeros(s: Text)
    ensures forall i :: |StripTrailingZeros(s)| <= i < |s| ==> s[i] == ZERO
  {
    if s != [] && s[|s| - 1] == ZERO {
      StrippedAreZeros(s[..|s| - 1]);
    }
  }

  lemma MulCommutes3(a: nat, b: nat, c: nat)
    ensures a * b * c == a * c * b
  {
  }

  lemma StripTrailingKeepsDigits(integer: Text, fraction: Text)
    requires AllDigits(integer) && AllDigits(fraction)
    ensures var kept := StripTrailingZeros(fraction);
      Digits(integer + fraction) == Digits(integer + kept) * Pow10(|fraction| - |kept|)
  {
    hide Digits, Pow10;
    var kept := StripTrailingZeros(fraction);
    var tail := fraction[|kept|..];
    StrippedAreZeros(fraction);
    DigitsOfZeros(tail);
    DigitsConcat(integer + kept, tail);
    assert integer + fraction == (integer + kept) + tail;
  }

  /** Dropping the padding zeros keeps the number. */
  lemma NormalKeepsNumber(d: Decimal)
    requires IsDecimal(d)
    ensures IsNormal(Normal(d)) && SameNumber(d, Normal(d))
  {
    hide Digits, Pow10;
    var r := Normal(d);
    var tail := |d.fraction| - |r.fraction|;
    StripTrailingKeepsDigits(d.integer, d.fraction);
    StripLeadingKeepsDigits(d.integer);
    DigitsConcat(d.integer, r.fraction);
    DigitsConcat(r.integer, r.fraction);
    PowSplit(|r.fraction|, tail);
    MulCommutes3(Numerator(r), Pow10(tail), Denominator(r));
    MulAssoc(Numerator(r), Denominator(r), Pow10(tail));
  }

  lemma MulAssoc(a: nat, b: nat, c: nat)
    ensures a * (b * c) == a * b * c
  {
  }

  lemma MulCancel(a: nat, b: nat, p: nat)
    requires p > 0 && a * p == b * p
    ensures a == b
  {
  }

  lemma DivUnique(i: nat, f: nat, j: nat, g: nat, p: nat)
    requires f < p && g < p && i * p + f == j * p + g
    ensures i == j && f == g
  {
    if i < j {
      MulGap(i, j, p);
    } else if j < i {
      MulGap(j, i, p);
    }
  }

  lemma MulGap(i: nat, j: nat, p: nat)
    requires i < j
    ensures i * p + p <= j * p
  {
    MulAtLeast(j - i, p);
    assert j * p == i * p + (j - i) * p;
  }

  lemma PowStep(k: nat)
    requires k > 0
    ensures Pow10(k) == 10 * Pow10(k - 1)
  {
  }

  lemma LastDigit(d: Decimal)
    requires IsDecimal(d) && d.fraction != []
    ensures Numerator(d) % 10 == d.fraction[|d.fraction| - 1] - ZERO
  {
    var s := d.integer + d.fraction;
    assert s[|s| - 1] == d.fraction[|d.fraction| - 1];
    assert Digits(s) == 10 * Digits(s[..|s| - 1]) + (s[|s| - 1] - ZERO);
  }

  lemma EqualNormalFractionLengths(a: Decimal, b: Decimal)
    requires IsNormal(a) && IsNormal(b) && SameNumber(a, b)
    ensures |a.fraction| >= |b.fraction|
  {
    hide Digits, Pow10;
    if |a.fraction| < |b.fraction| {
      var k := |b.fraction| - |a.fraction|;
      PowStep(k);
      PowSplit(k, |a.fraction|);
      MulAssoc(Numerator(a), Pow10(k), Denominator(a));
      MulCancel(Numerator(a) * Pow10(k), Numerator(b), Denominator(a));
      assert Numerator(b) == 10 * (Numerator(a) * Pow10(k - 1)) by {
        MulCommutes3(Numerator(a), 10, Pow10(k - 1));
      }
      LastDigit(b);
      assert false;
    }
  }

  /** A number has one normal form. */
  lemma NormalFormUnique(a: Decimal, b: Decimal)
    requires IsNormal(a) && IsNormal(b) && SameNumber(a, b)
    ensures a == b
  {
    EqualNormalFractionLengths(a, b);
    EqualNormalFractionLengths(b, a);
    MulCancel(Numerator(a), Numerator(b), Denominator(a));
    DigitsConcat(a.integer, a.fraction);
    DigitsConcat(b.integer, b.fraction);
    DigitsBound(a.fraction);
    DigitsBound(b.fraction);
    DivUnique(Digits(a.integer), Digits(a.fraction), Digits(b.integer), Digits(b.fraction), Pow10(|a.fraction|));
    IntegerInjective(a.integer, b.integer);
    DigitsInjective(a.fraction, b.fraction);
  }

  // ----- normal text -----

  lemma {:induction false} DigitRunStops(s: Text, rest: Text)
    requires AllDigits(s) && (rest == [] || !IsDigit(rest[0]))
    ensures DigitRun(s + rest) == |s|
  {
    if s == [] {
      assert s + rest == rest;
    } else {
      assert (s + rest)[1..] == s[1..] + rest;
      DigitRunStops(s[1..], rest);
    }
  }

  /** Reading what is spelled gives the decimal back. */
  lemma ReadSpelled(d: Decimal)
    requires IsDecimal(d)
    ensures ReadDecimal(Spell(d)) == Some(d)
  {
    hide Trim, DigitRun;
    var s := Spell(d);
    TrimTrimmed(s);
    if d.fraction == [] {
      DigitRunStops(d.integer, []);
      assert d.integer + [] == d.integer;
    } else {
      var rest := [DOT] + d.fraction;
      DigitRunStops(d.integer, rest);
      assert s == d.integer + rest;
      assert s[..|d.integer|] == d.integer && s[|d.integer| + 1..] == d.fraction;
    }
  }

  lemma CrossTransitive(a: nat, da: nat, b: nat, db: nat, c: nat, dc: nat)
    requires db > 0 && a * db == b * da && b * dc == c * db
    ensures a * dc == c * da
  {
    assert (a * dc) * db == (a * db) * dc == (b * da) * dc == (b * dc) * da == (c * db) * da == (c * da) * db;
    MulCancel(a * dc, c * da, db);
  }

  /** Normalizing an accepted text keeps its value; the result is accepted and already normal. */
  lemma NormalizeKeepsValue(value: Text)
    requires NormalizeDecimal(value).Ok?
    ensures var normal := NormalizeDecimal(value).value;
      && ReadDecimal(value).Some? && ReadDecimal(normal).Some?
      && SameNumber(ReadDecimal(value).value, ReadDecimal(normal).value)
      && NormalizeDecimal(normal) == Ok(normal)
  {
    hide ReadDecimal, Normal, Digits, Pow10, Spell;
    var d := ReadDecimal(value).value;
    NormalKeepsNumber(d);
    ReadSpelled(Normal(d));
    NormalIsFixed(Normal(d));
  }

  lemma NormalIsFixed(d: Decimal)
    requires IsNormal(d)
    ensures Normal(d) == d
  {
  }

  /** Two accepted texts denote the same number exactly when their normal forms are equal. */
  lemma NormalizeIsCanonical(a: Text, b: Text)
    requires NormalizeDecimal(a).Ok? && NormalizeDecimal(b).Ok?
    ensures SameNumber(ReadDecimal(a).value, ReadDecimal(b).value) <==> NormalizeDecimal(a) == NormalizeDecimal(b)
  {
    hide ReadDecimal, Normal, Spell, Numerator, Denominator, IsNormal;
    var da, db := ReadDecimal(a).value, ReadDecimal(b).value;
    var na, nb := Normal(da), Normal(db);
    NormalKeepsNumber(da);
    NormalKeepsNumber(db);
    ReadSpelled(na);
    ReadSpelled(nb);
    if SameNumber(da, db) {
      CrossTransitive(Numerator(na), Denominator(na), Numerator(da), Denominator(da), Numerator(db), Denominator(db));
      CrossTransitive(Numerator(na), Denominator(na), Numerator(db), Denominator(db), Numerator(nb), Denominator(nb));
      NormalFormUnique(na, nb);
    }
    if na == nb {
      CrossTransitive(Numerator(da), Denominator(da), Numerator(na), Denominator(na), Numerator(db), Denominator(db));
    }
  }

  // ----- rounding -----

  /** `r` is numerator / denominator rounded to the nearest integer, halves up. */
  ghost predicate IsHalfUp(numerator: nat, denominator: nat, r: nat) {
    2 * (denominator * r) <= 2 * numerator + denominator < 2 * (denominator * r) + 2 * denominator
  }

  lemma DivMod(n: nat, d: nat)
    requires d > 0
    ensures n == d * (n / d) + n % d && n % d < d
  {
  }

  lemma RoundHalfUpIs(n: nat, d: nat)
    requires d > 0
    ensures IsHalfUp(n, d, RoundHalfUp(n, d))
  {
    DivMod(n, d);
    var q := n / d;
    assert d * (q + 1) == d * q + d;
  }

  lemma MulLess(a: int, b: int, p: nat)
    requires a < b && p > 0
    ensures a * p < b * p
  {
  }

  lemma MulLessEqual(a: int, b: int, p: nat)
    requires a <= b
    ensures a * p <= b * p
  {
  }

  lemma HalfUpClash(n1: nat, d1: nat, n2: nat, d2: nat, left: int, right: int)
    requires d1 > 0 && d2 > 0 && left <= 2 * n1 && 2 * n2 < right && left * d2 == right * d1
    ensures n1 * d2 > n2 * d1
  {
    MulLessEqual(left, 2 * n1, d2);
    MulLess(2 * n2, right, d1);
    MulTwice(n1, d2);
    MulTwice(n2, d1);
  }

  lemma MulTwice(a: nat, b: nat)
    ensures (2 * a) * b == 2 * (a * b)
  {
  }

  /** Rounding is monotone in the rational value. */
  lemma HalfUpMonotone(n1: nat, d1: nat, r1: nat, n2: nat, d2: nat, r2: nat)
    requires d1 > 0 && d2 > 0 && n1 * d2 <= n2 * d1
    requires IsHalfUp(n1, d1, r1) && IsHalfUp(n2, d2, r2)
    ensures r1 <= r2
  {
    if r1 > r2 {
      MulGap(r2, r1, d2);
      CrossEqual(r1, d1, d2);
      HalfUpClash(n1, d1, n2, d2, 2 * (d1 * r1) - d1, 2 * (d2 * r1) - d2);
    }
  }

  lemma CrossEqual(r: nat, d1: nat, d2: nat)
    ensures (2 * (d1 * r) - d1) * d2 == (2 * (d2 * r) - d2) * d1
  {
    MulCommutes3(d1, r, d2);
    MulCommutes3(d2, r, d1);
    assert (d1 * r) * d2 == (d2 * r) * d1;
  }

  /** Rounding depends on the rational value only. */
  lemma RoundHalfUpOfEqual(n1: nat, d1: nat, n2: nat, d2: nat)
    requires d1 > 0 && d2 > 0 && n1 * d2 == n2 * d1
    ensures RoundHalfUp(n1, d1) == RoundHalfUp(n2, d2)
  {
    hide RoundHalfUp, IsHalfUp;
    RoundHalfUpIs(n1, d1);
    RoundHalfUpIs(n2, d2);
    HalfUpMonotone(n1, d1, RoundHalfUp(n1, d1), n2, d2, RoundHalfUp(n2, d2));
    HalfUpMonotone(n2, d2, RoundHalfUp(n2, d2), n1, d1, RoundHalfUp(n1, d1));
  }

  /** The scaled integer of a text is the half-up rounding of the decimal it spells, padding zeros and
      all; the call throws exactly on a bad scale, an unreadable text or an unsafe result. */
  lemma ScaledIntegerIsHalfUp(value: Text, scale: int)
    ensures DecimalToScaledInteger(value, scale) ==
      if 0 < scale <= MAX_SAFE_INTEGER && ReadDecimal(value).Some?
         && RoundHalfUp(Times(Numerator(ReadDecimal(value).value), scale), Denominator(ReadDecimal(value).value))
           <= MAX_SAFE_INTEGER
      then Ok(RoundHalfUp(Times(Numerator(ReadDecimal(value).value), scale), Denominator(ReadDecimal(value).value)))
      else Err
  {
    hide ReadDecimal, Normal, RoundHalfUp, Numerator, Denominator, IsNormal;
    if 0 < scale <= MAX_SAFE_INTEGER && ReadDecimal(value).Some? {
      var d := ReadDecimal(value).value;
      NormalKeepsNumber(d);
      ScaleBoth(Numerator(d), Denominator(d), Numerator(Normal(d)), Denominator(Normal(d)), scale);
      RoundHalfUpOfEqual(Times(Numerator(d), scale), Denominator(d), Times(Numerator(Normal(d)), scale),
        Denominator(Normal(d)));
    }
  }

  lemma ScaleBoth(n1: nat, d1: nat, n2: nat, d2: nat, scale: nat)
    requires n1 * d2 == n2 * d1
    ensures (n1 * scale) * d2 == (n2 * scale) * d1
  {
    MulCommutes3(n1, scale, d2);
    MulCommutes3(n2, scale, d1);
  }

  /** A text of a larger number has at least as large a scaled integer; equal numbers have equal ones. */
  lemma ScaledIntegerMonotone(a: Text, b: Text, scale: int)
    requires DecimalToScaledInteger(a, scale).Ok? && DecimalToScaledInteger(b, scale).Ok?
    requires AtMost(ReadDecimal(a).value, ReadDecimal(b).value)
    ensures DecimalToScaledInteger(a, scale).value <= DecimalToScaledInteger(b, scale).value
  {
    hide ReadDecimal, RoundHalfUp, Numerator, Denominator, DecimalToScaledInteger, IsHalfUp;
    ScaledIntegerIsHalfUp(a, scale);
    ScaledIntegerIsHalfUp(b, scale);
    var da, db := ReadDecimal(a).value, ReadDecimal(b).value;
    var na, nb := Times(Numerator(da), scale), Times(Numerator(db), scale);
    ScaleAtMost(Numerator(da), Denominator(da), Numerator(db), Denominator(db), scale);
    RoundHalfUpIs(na, Denominator(da));
    RoundHalfUpIs(nb, Denominator(db));
    HalfUpMonotone(na, Denominator(da), RoundHalfUp(na, Denominator(da)), nb, Denominator(db),
      RoundHalfUp(nb, Denominator(db)));
  }

  lemma ScaleAtMost(n1: nat, d1: nat, n2: nat, d2: nat, scale: nat)
    requires n1 * d2 <= n2 * d1
    ensures (n1 * scale) * d2 <= (n2 * scale) * d1
  {
    MulCommutes3(n1, scale, d2);
    MulCommutes3(n2, scale, d1);
    MulLessEqual(n1 * d2, n2 * d1, scale);
  }

  // ----- dollars and micro-dollars -----

  const MICRO_USD := 1_000_000

  /** Below this bound `String(value / 1_000_000)` prints the quotient exactly. */
  const EXACT_PRINT_BOUND := 1_000_000_000_000_000

  function DollarsToMicroUsd(value: Text): Result<nat> {
    DecimalToScaledInteger(value, MICRO_USD)
  }

  /** The decimal digits of a number, without leading zeros. */
  function PrintInteger(n: nat): (r: Text)
    ensures r != [] && AllDigits(r)
  {
    if n < 10 then [ZERO + n] else PrintInteger(n / 10) + [ZERO + n % 10]
  }

  function PrintFixed(n: nat, width: nat): (r: Text)
    ensures |r| == width && AllDigits(r)
  {
    if width == 0 then [] else PrintFixed(n / 10, width - 1) + [ZERO + n % 10]
  }

  function MicroUsdAsDecimal(value: nat): (r: Decimal)
    ensures IsDecimal(r)
  {
    Decimal(PrintInteger(value / MICRO_USD), PrintFixed(value % MICRO_USD, 6))
  }

  /** `microUsdToDollars` */
  function MicroUsdToDollars(value: nat): Text
    requires value < EXACT_PRINT_BOUND
  {
    Spell(Normal(MicroUsdAsDecimal(value)))
  }

  lemma DigitsSnoc(s: Text, c: CodeUnit)
    requires AllDigits(s) && IsDigit(c)
    ensures AllDigits(s + [c]) && Digits(s + [c]) == 10 * Digits(s) + (c - ZERO)
  {
    assert (s + [c])[..|s|] == s;
  }

  lemma {:induction false} PrintIntegerDigits(n: nat)
    ensures Digits(PrintInteger(n)) == n
  {
    hide Digits;
    if n < 10 {
      var nothing: Text := [];
      DigitsSnoc(nothing, ZERO + n);
      DigitsOfZeros(nothing);
      assert nothing + [ZERO + n] == [ZERO + n];
    } else {
      PrintIntegerDigits(n / 10);
      DigitsSnoc(PrintInteger(n / 10), ZERO + n % 10);
    }
  }

  lemma {:induction false} PrintFixedDigits(n: nat, width: nat)
    requires n < Pow10(width)
    ensures Digits(PrintFixed(n, width)) == n
  {
    hide Digits, Pow10;
    if width == 0 {
      PowZero();
      NoDigits();
    } else {
      PowStep(width);
      PrintFixedDigits(n / 10, width - 1);
      DigitsSnoc(PrintFixed(n / 10, width - 1), ZERO + n % 10);
    }
  }

  lemma MicroUsdValue(value: nat)
    ensures Numerator(MicroUsdAsDecimal(value)) == value && Denominator(MicroUsdAsDecimal(value)) == MICRO_USD
  {
    hide Digits;
    assert Pow10(6) == MICRO_USD by {
      assert Pow10(2) == 100 && Pow10(4) == 10_000;
    }
    PrintIntegerDigits(value / MICRO_USD);
    PrintFixedDigits(value % MICRO_USD, 6);
    DigitsConcat(PrintInteger(value / MICRO_USD), PrintFixed(value % MICRO_USD, 6));
  }

  lemma RoundHalfUpExact(v: nat, d: nat)
    requires d > 0
    ensures RoundHalfUp(v * d, d) == v
  {
    DivMod(v * d, d);
    DivUnique(v, 0, (v * d) / d, (v * d) % d, d);
  }

  /** Reading a printed price gives the price back. */
  lemma DollarsRoundTrip(value: nat)
    requires value < EXACT_PRINT_BOUND
    ensures DollarsToMicroUsd(MicroUsdToDollars(value)) == Ok(value)
  {
    hide ReadDecimal, Normal, RoundHalfUp, Numerator, Denominator, IsNormal, DecimalToScaledInteger, Spell,
         MicroUsdAsDecimal;
    var d := MicroUsdAsDecimal(value);
    var n := Normal(d);
    MicroUsdValue(value);
    NormalKeepsNumber(d);
    ReadSpelled(n);
    ScaledIntegerIsHalfUp(MicroUsdToDollars(value), MICRO_USD);
    RoundHalfUpExact(value, Denominator(n));
    assert Times(Numerator(n), MICRO_USD) == value * Denominator(n);
  }
}
