/** CSPR amounts as text and motes as integers (src/types/Conversions.ts). */
module Conversions {
  import opened Basics
  import opened Numerals

  function ZeroDigits(k: nat): (s: JsString)
    ensures |s| == k && AllDigits(s)
    ensures forall i :: 0 <= i < k ==> s[i] == ZERO
  {
    seq(k, i => ZERO)
  }

  lemma {:induction false} ZeroDigitsValue(k: nat)
    ensures DecimalValue(ZeroDigits(k)) == 0
  {
    if k > 0 {
      ZeroDigitsValue(k - 1);
      assert ZeroDigits(k)[..k - 1] == ZeroDigits(k - 1);
    }
  }

  lemma NinePlaces()
    ensures Pow10(9) == 1_000_000_000
  {
    assert Pow10(3) == 10 * Pow10(2) == 100 * Pow10(1) == 1000;
    assert Pow10(6) == 10 * Pow10(5) == 100 * Pow10(4) == 1000 * Pow10(3);
    assert Pow10(9) == 10 * Pow10(8) == 100 * Pow10(7) == 1000 * Pow10(6);
  }

  // ---------------------------------------------------------- csprToMotes

  /** Where the first '.' is; the length when there is none. */
  function DotAt(s: JsString): (d: nat)
    ensures d <= |s| && (d < |s| ==> s[d] == DOT)
    ensures forall i :: 0 <= i < d ==> s[i] != DOT
  {
    if s == [] || s[0] == DOT then 0 else 1 + DotAt(s[1..])
  }

  function IntegerPart(s: JsString): (a: JsString) {
    s[..DotAt(s)]
  }

  function FractionPart(s: JsString): (b: JsString) {
    if DotAt(s) < |s| then s[DotAt(s) + 1..] else []
  }

  /** Digits, then perhaps a dot and more digits. */
  predicate IsAmount(s: JsString) {
    && IntegerPart(s) != [] && AllDigits(IntegerPart(s)) && AllDigits(FractionPart(s))
    && (DotAt(s) < |s| ==> FractionPart(s) != [])
  }

  /** The fraction filled up or cut off to nine places. */
  function NineDigits(b: JsString): (f: JsString)
    ensures |f| == 9
  {
    (b + ZeroDigits(9))[..9]
  }

  lemma NineDigitsAreDigits(b: JsString)
    requires AllDigits(b)
    ensures AllDigits(NineDigits(b))
  {
    AllDigitsConcat(b, ZeroDigits(9));
  }

  /** `csprToMotes` of a string. */
  function CsprToMotes(s: JsString): (r: Result<nat>) {
    if !IsAmount(s) then Err(InvalidFormat)
    else
      var whole := DecimalValue(IntegerPart(s)) * 1_000_000_000;
      if FractionPart(s) == [] then Ok(whole)
      else
        NineDigitsAreDigits(FractionPart(s));
        Ok(whole + DecimalValue(NineDigits(FractionPart(s))))
  }

  lemma PartsOfWhole(a: JsString)
    requires AllDigits(a)
    ensures IntegerPart(a) == a && FractionPart(a) == [] && DotAt(a) == |a|
  {
  }

  lemma PartsOfDotted(a: JsString, b: JsString)
    requires AllDigits(a)
    ensures IntegerPart(a + [DOT] + b) == a && FractionPart(a + [DOT] + b) == b && DotAt(a + [DOT] + b) == |a|
  {
    var s := a + [DOT] + b;
    assert s[|a|] == DOT;
    assert forall i :: 0 <= i < |a| ==> s[i] == a[i];
    assert DotAt(s) == |a|;
    assert s[..|a|] == a && s[|a| + 1..] == b;
  }

  /** `s` is digits, or digits with a dot and more digits: a match of /^\d+(\.\d+)?$/. */
  predicate Spells(s: JsString, a: JsString, b: JsString) {
    && a != [] && AllDigits(a) && AllDigits(b)
    && s == (if b == [] then a else a + [DOT] + b)
  }

  lemma AcceptsExactlyAmounts(s: JsString)
    ensures CsprToMotes(s).Ok? <==> exists a: JsString, b: JsString :: Spells(s, a, b)
  {
    if IsAmount(s) {
      assert Spells(s, IntegerPart(s), FractionPart(s));
    }
    if a: JsString, b: JsString :| Spells(s, a, b) {
      if b == [] {
        PartsOfWhole(a);
      } else {
        PartsOfDotted(a, b);
      }
    }
  }

  /** With or without a fraction, the motes are the whole part and the nine digits side by side. */
  lemma MotesAreNinePlaces(s: JsString)
    requires IsAmount(s)
    ensures AllDigits(NineDigits(FractionPart(s)))
    ensures CsprToMotes(s) ==
            Ok(DecimalValue(IntegerPart(s)) * 1_000_000_000 + DecimalValue(NineDigits(FractionPart(s))))
    ensures DecimalValue(NineDigits(FractionPart(s))) < 1_000_000_000
  {
    var b := FractionPart(s);
    NineDigitsAreDigits(b);
    DecimalValueBound(NineDigits(b));
    NinePlaces();
    if b == [] {
      ZeroDigitsValue(9);
      assert NineDigits(b) == ZeroDigits(9);
    }
  }

  lemma Pow10Adds(j: nat, k: nat)
    ensures Pow10(j + k) == Pow10(j) * Pow10(k)
    decreases k
  {
    if k > 0 {
      Pow10Adds(j, k - 1);
    }
  }

  /** A short fraction keeps its value, a long one loses less than one unit of the ninth place. */
  lemma ShortFraction(b: JsString)
    requires AllDigits(b) && |b| <= 9
    ensures AllDigits(NineDigits(b)) && Pow10(9) == Pow10(9 - |b|) * Pow10(|b|)
    ensures DecimalValue(NineDigits(b)) == DecimalValue(b) * Pow10(9 - |b|)
  {
    hide DecimalValue, Pow10;
    var z := 9 - |b|;
    assert NineDigits(b) == b + ZeroDigits(z);
    ZeroDigitsValue(z);
    DecimalValueConcat(b, ZeroDigits(z));
    Pow10Adds(z, |b|);
  }

  lemma LongFraction(b: JsString)
    requires AllDigits(b) && |b| > 9
    ensures NineDigits(b) == b[..9] && AllDigits(b[..9]) && AllDigits(b[9..])
    ensures Pow10(|b|) == Pow10(9) * Pow10(|b| - 9) && DecimalValue(b[9..]) < Pow10(|b| - 9)
    ensures DecimalValue(b) == DecimalValue(b[..9]) * Pow10(|b| - 9) + DecimalValue(b[9..])
  {
    assert b == b[..9] + b[9..];
    DecimalValueConcat(b[..9], b[9..]);
    DecimalValueBound(b[9..]);
    Pow10Adds(9, |b| - 9);
  }

  lemma NineDigitsTruncate(b: JsString)
    requires AllDigits(b)
    ensures AllDigits(NineDigits(b))
    ensures DecimalValue(NineDigits(b)) * Pow10(|b|) <= DecimalValue(b) * Pow10(9)
            < (DecimalValue(NineDigits(b)) + 1) * Pow10(|b|)
  {
    hide NineDigits, DecimalValue, Pow10;
    if |b| <= 9 {
      ShortFraction(b);
      ScaleUp(DecimalValue(b), Pow10(9 - |b|), Pow10(|b|));
    } else {
      LongFraction(b);
      ScaleDown(DecimalValue(b[..9]), Pow10(|b| - 9), DecimalValue(b[9..]), Pow10(9));
    }
  }

  lemma ScaleUp(v: nat, p: nat, q: nat)
    requires p >= 1 && q >= 1
    ensures v * p * q <= v * (p * q) < (v * p + 1) * q
  {
  }

  lemma ScaleDown(v: nat, p: nat, w: nat, q: nat)
    requires w < p && q >= 1
    ensures v * (q * p) <= (v * p + w) * q < (v + 1) * (q * p)
  {
    assert (v * p + w) * q == v * (q * p) + w * q;
    assert w * q < p * q;
  }

  /**
   The motes are the floor of the amount times 10^9: read as the number `digits / 10^places`, the
   amount satisfies motes <= amount * 10^9 < motes + 1.
   */
  lemma MotesAreTheFloor(s: JsString)
    requires CsprToMotes(s).Ok?
    ensures var a, b := IntegerPart(s), FractionPart(s);
            && AllDigits(a + b)
            && CsprToMotes(s).value * Pow10(|b|) <= DecimalValue(a + b) * 1_000_000_000
               < (CsprToMotes(s).value + 1) * Pow10(|b|)
  {
    var a, b := IntegerPart(s), FractionPart(s);
    MotesAreNinePlaces(s);
    DecimalValueConcat(a, b);
    NineDigitsTruncate(b);
    NinePlaces();
    FloorStep(DecimalValue(a), DecimalValue(b), DecimalValue(NineDigits(b)), Pow10(|b|), 1_000_000_000);
  }

  lemma FloorStep(a: nat, b: nat, f: nat, p: nat, q: nat)
    requires f * p <= b * q < (f + 1) * p
    ensures (a * q + f) * p <= (a * p + b) * q < (a * q + f + 1) * p
  {
    assert (a * q + f) * p == (a * p) * q + f * p;
    assert (a * p + b) * q == (a * p) * q + b * q;
    assert (a * q + f + 1) * p == (a * p) * q + (f + 1) * p;
  }

  // ---------------------------------------------------------- motesToCSPR

  function TrailingZeros(s: JsString): (z: nat)
    ensures z <= |s|
    ensures forall i :: |s| - z <= i < |s| ==> s[i] == ZERO
    ensures z < |s| ==> s[|s| - z - 1] != ZERO
  {
    if s == [] || s[|s| - 1] != ZERO then 0 else 1 + TrailingZeros(s[..|s| - 1])
  }

  /** `.replace(/\.?0+$/, '')`: the trailing zeros, and a dot before them. */
  function StripZeros(s: JsString): (t: JsString) {
    var z := TrailingZeros(s);
    if z == 0 then s
    else if z < |s| && s[|s| - z - 1] == DOT then s[..|s| - z - 1]
    else s[..|s| - z]
  }

  /** `text.slice(0, -9) || '0'`. */
  function WholeOf(text: JsString): (a: JsString) {
    if |text| > 9 then text[..|text| - 9] else [ZERO]
  }

  /** `text.slice(-9).padStart(9, '0')`. */
  function LastNine(text: JsString): (f: JsString)
    ensures |f| == 9
  {
    if |text| > 9 then text[|text| - 9..] else ZeroDigits(9 - |text|) + text
  }

  /** `motesToCSPR`. */
  function MotesToCspr(motes: int): (r: Result<JsString>) {
    if motes < 0 then Err(OutOfBounds)
    else
      var text := Decimal(motes);
      Ok(StripZeros(WholeOf(text) + [DOT] + LastNine(text)))
  }

  /** No superfluous zero: none in front of the whole part, none at the end of a fraction of at most nine places. */
  predicate NoLeadingZero(a: JsString) {
    a != [] && (|a| == 1 || a[0] != ZERO)
  }

  predicate NoTrailingZero(b: JsString) {
    |b| <= 9 && (b != [] ==> b[|b| - 1] != ZERO)
  }

  predicate Canonical(s: JsString) {
    IsAmount(s) && NoLeadingZero(IntegerPart(s)) && NoTrailingZero(FractionPart(s))
  }

  lemma {:induction false} LongIsLarge(s: JsString)
    requires AllDigits(s) && s != [] && s[0] != ZERO
    ensures Pow10(|s| - 1) <= DecimalValue(s)
  {
    if |s| > 1 {
      LongIsLarge(s[..|s| - 1]);
    }
  }

  lemma {:induction false} Pow10Monotone(j: nat, k: nat)
    requires j <= k
    ensures Pow10(j) <= Pow10(k)
  {
    if j < k {
      Pow10Monotone(j, k - 1);
    }
  }

  /** A number has one digit string without leading zeros. */
  lemma NoLeadingZeroUnique(a: JsString, b: JsString)
    requires AllDigits(a) && AllDigits(b) && NoLeadingZero(a) && NoLeadingZero(b)
    requires DecimalValue(a) == DecimalValue(b)
    ensures a == b
  {
    if |a| < |b| {
      NotShorter(a, b);
    } else if |b| < |a| {
      NotShorter(b, a);
    }
    DecimalValueInjective(a, b);
  }

  lemma NotShorter(a: JsString, b: JsString)
    requires AllDigits(a) && AllDigits(b) && 1 <= |a| < |b| && NoLeadingZero(b)
    ensures DecimalValue(a) < DecimalValue(b)
  {
    DecimalValueBound(a);
    LongIsLarge(b);
    Pow10Monotone(|a|, |b| - 1);
  }

  lemma NineDigitsAt(b: JsString, i: nat)
    requires |b| <= 9 && i < 9
    ensures NineDigits(b)[i] == if i < |b| then b[i] else ZERO
  {
  }

  lemma NotLonger(b: JsString, c: JsString)
    requires NoTrailingZero(b) && NoTrailingZero(c) && NineDigits(b) == NineDigits(c)
    ensures |c| <= |b|
  {
    hide NineDigits;
    if |c| > |b| {
      NineDigitsAt(b, |c| - 1);
      NineDigitsAt(c, |c| - 1);
    }
  }

  /** A fraction without trailing zeros is known from its nine digits. */
  lemma NoTrailingZeroUnique(b: JsString, c: JsString)
    requires NoTrailingZero(b) && NoTrailingZero(c) && NineDigits(b) == NineDigits(c)
    ensures b == c
  {
    hide NineDigits;
    NotLonger(b, c);
    NotLonger(c, b);
    forall i | 0 <= i < |b| ensures b[i] == c[i] {
      NineDigitsAt(b, i);
      NineDigitsAt(c, i);
    }
  }

  /** Two canonical amounts of the same motes are the same text. */
  lemma CanonicalUnique(s: JsString, t: JsString)
    requires Canonical(s) && Canonical(t) && CsprToMotes(s) == CsprToMotes(t)
    ensures s == t
  {
    MotesAreNinePlaces(s);
    MotesAreNinePlaces(t);
    var f, g := NineDigits(FractionPart(s)), NineDigits(FractionPart(t));
    assert DecimalValue(f) == CsprToMotes(s).value % 1_000_000_000 == DecimalValue(g);
    NoLeadingZeroUnique(IntegerPart(s), IntegerPart(t));
    DecimalValueInjective(f, g);
    NoTrailingZeroUnique(FractionPart(s), FractionPart(t));
    Reassemble(s);
    Reassemble(t);
  }

  lemma Reassemble(s: JsString)
    requires IsAmount(s)
    ensures s == if FractionPart(s) == [] then IntegerPart(s) else IntegerPart(s) + [DOT] + FractionPart(s)
  {
  }

  /** The text before stripping: the whole CSPR and nine digits. */
  lemma PaddedText(motes: nat)
    ensures var a, f := WholeOf(Decimal(motes)), LastNine(Decimal(motes));
            && AllDigits(a) && AllDigits(f) && NoLeadingZero(a) && a != []
            && DecimalValue(a) * 1_000_000_000 + DecimalValue(f) == motes
  {
    hide Decimal, DecimalValue;
    var text := Decimal(motes);
    NinePlaces();
    if |text| <= 9 {
      var zeros := ZeroDigits(9 - |text|);
      DecimalValueConcat(zeros, text);
      ZeroDigitsValue(9 - |text|);
      ZeroIsZero();
    } else {
      var whole, low := text[..|text| - 9], text[|text| - 9..];
      assert text == whole + low;
      DecimalValueConcat(whole, low);
      OneDigitOfZero();
    }
  }

  lemma ZeroIsZero()
    ensures AllDigits([ZERO]) && DecimalValue([ZERO]) == 0
  {
    assert [ZERO][..0] == [];
  }

  /** Zero is written with one digit. */
  lemma OneDigitOfZero()
    ensures |Decimal(0)| == 1
  {
  }

  /** Stripping nine fraction digits leaves the fraction without its trailing zeros, and no bare dot. */
  lemma StripNine(a: JsString, f: JsString)
    requires AllDigits(a) && a != [] && AllDigits(f) && |f| == 9
    ensures var b := f[..9 - TrailingZeros(f)];
            && StripZeros(a + [DOT] + f) == (if b == [] then a else a + [DOT] + b)
            && AllDigits(b) && NoTrailingZero(b) && NineDigits(b) == f
  {
    hide DecimalValue, TrailingZeros;
    var s := a + [DOT] + f;
    var z := TrailingZeros(f);
    var b := f[..9 - z];
    forall i | |s| - z <= i < |s| ensures s[i] == ZERO {
      assert s[i] == f[i - |a| - 1];
    }
    assert s[|s| - z - 1] == if z < 9 then f[9 - z - 1] else DOT;
    assert TrailingZeros(s) == z;
    assert NineDigits(b) == b + ZeroDigits(z) == f;
    if z == 9 {
      assert s[..|a|] == a;
    } else {
      assert s[..|s| - z] == a + [DOT] + b;
    }
  }

  /** Every natural number of motes survives the trip through text, and the text is canonical. */
  lemma MotesRoundTrip(motes: nat)
    ensures MotesToCspr(motes).Ok? && Canonical(MotesToCspr(motes).value)
    ensures CsprToMotes(MotesToCspr(motes).value) == Ok(motes)
  {
    hide *;
    var text := Decimal(motes);
    var a, f := WholeOf(text), LastNine(text);
    PaddedText(motes);
    StripNine(a, f);
    MotesText(motes);
    CanonicalParts(a, f[..9 - TrailingZeros(f)], motes);
  }

  lemma MotesText(motes: nat)
    ensures MotesToCspr(motes) == Ok(StripZeros(WholeOf(Decimal(motes)) + [DOT] + LastNine(Decimal(motes))))
  {
  }

  lemma CanonicalParts(a: JsString, b: JsString, motes: nat)
    requires AllDigits(a) && NoLeadingZero(a) && AllDigits(b) && NoTrailingZero(b) && AllDigits(NineDigits(b))
    requires DecimalValue(a) * 1_000_000_000 + DecimalValue(NineDigits(b)) == motes
    ensures var s := if b == [] then a else a + [DOT] + b;
            Canonical(s) && CsprToMotes(s) == Ok(motes)
  {
    hide DecimalValue, NineDigits, CsprToMotes;
    if b == [] {
      PartsOfWhole(a);
      MotesAreNinePlaces(a);
    } else {
      PartsOfDotted(a, b);
      MotesAreNinePlaces(a + [DOT] + b);
    }
  }

  /** The other way round, an amount comes back as the same text exactly when it has no superfluous zeros or places. */
  lemma AmountRoundTrip(s: JsString)
    requires CsprToMotes(s).Ok?
    ensures MotesToCspr(CsprToMotes(s).value) == Ok(s) <==> Canonical(s)
  {
    hide IsAmount, Canonical, MotesToCspr, CsprToMotes;
    MotesRoundTrip(CsprToMotes(s).value);
    if Canonical(s) {
      CanonicalUnique(s, MotesToCspr(CsprToMotes(s).value).value);
    }
  }
}
