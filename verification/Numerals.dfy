/** Decimal and hexadecimal text, as `BigNumber.toString`, `Number.toString(16)` and `parseInt` read and write it. */
module Numerals {
  import opened Basics

  const ZERO: CodeUnit := 48  // '0'
  const DOT: CodeUnit := 46   // '.'

  /** The code units of a text that only uses the basic plane, for literals. */
  function Js(s: string): (r: JsString)
    ensures |r| == |s|
  {
    seq(|s|, i requires 0 <= i < |s| => if s[i] as int < 0x80 then s[i] as int else 0x3F)
  }

  // -------------------------------------------------------------- decimal

  predicate IsDigit(c: CodeUnit) {
    ZERO <= c < ZERO + 10
  }

  predicate AllDigits(s: JsString) {
    forall i :: 0 <= i < |s| ==> IsDigit(s[i])
  }

  /** The value of a string of decimal digits. */
  function DecimalValue(s: JsString): (n: nat)
    requires AllDigits(s)
  {
    if s == [] then 0 else 10 * DecimalValue(s[..|s| - 1]) + (s[|s| - 1] - ZERO)
  }

  /** The shortest decimal text of a natural number. */
  function Decimal(n: nat): (s: JsString)
    ensures |s| >= 1 && AllDigits(s)
    ensures DecimalValue(s) == n
    ensures n > 0 ==> s[0] != ZERO
  {
    if n < 10 then
      assert [ZERO + n][..0] == [];
      [ZERO + n]
    else
      var init := Decimal(n / 10);
      var s := init + [ZERO + n % 10];
      assert s[..|s| - 1] == init;
      s
  }

  /** `BigNumber.toString()` for any integer. */
  function DecimalInt(n: int): (s: JsString) {
    if n < 0 then [45] + Decimal(-n) else Decimal(n)
  }

  function Pow10(k: nat): (p: nat)
    ensures p >= 1
  {
    if k == 0 then 1 else 10 * Pow10(k - 1)
  }

  lemma {:induction false} DecimalValueBound(s: JsString)
    requires AllDigits(s)
    ensures DecimalValue(s) < Pow10(|s|)
  {
    if s != [] {
      DecimalValueBound(s[..|s| - 1]);
    }
  }

  lemma AllDigitsConcat(a: JsString, b: JsString)
    ensures AllDigits(a + b) <==> AllDigits(a) && AllDigits(b)
  {
    if AllDigits(a + b) {
      assert forall i :: 0 <= i < |a| ==> a[i] == (a + b)[i];
      assert forall i :: 0 <= i < |b| ==> b[i] == (a + b)[|a| + i];
    }
  }

  lemma ShiftDigit(v: int, p: int, w: int, d: int)
    ensures 10 * (v * p + w) + d == v * (10 * p) + (10 * w + d)
  {
  }

  lemma {:induction false} DecimalValueConcat(a: JsString, b: JsString)
    requires AllDigits(a) && AllDigits(b)
    ensures AllDigits(a + b)
    ensures DecimalValue(a + b) == DecimalValue(a) * Pow10(|b|) + DecimalValue(b)
  {
    AllDigitsConcat(a, b);
    if b == [] {
      assert a + b == a;
    } else {
      var init := b[..|b| - 1];
      DecimalValueConcat(a, init);
      assert (a + b)[..|a + b| - 1] == a + init;
      ShiftDigit(DecimalValue(a), Pow10(|init|), DecimalValue(init), b[|b| - 1] - ZERO);
    }
  }

  /** Digit strings of the same length are equal when their values are. */
  lemma {:induction false} DecimalValueInjective(a: JsString, b: JsString)
    requires AllDigits(a) && AllDigits(b) && |a| == |b|
    requires DecimalValue(a) == DecimalValue(b)
    ensures a == b
  {
    if a != [] {
      var m, n := |a| - 1, |b| - 1;
      assert (a[m] - ZERO) == DecimalValue(a) % 10 == (b[n] - ZERO);
      DecimalValueInjective(a[..m], b[..n]);
      assert a == a[..m] + [a[m]] && b == b[..n] + [b[n]];
    }
  }

  // ---------------------------------------------------------- hexadecimal

  /** A lower-case hexadecimal digit. */
  function HexDigit(d: int): (c: CodeUnit)
    requires 0 <= d < 16
  {
    if d < 10 then ZERO + d else 87 + d
  }

  /** The value of a hexadecimal digit of either case, -1 for anything else. */
  function HexValue(c: CodeUnit): (d: int)
    ensures -1 <= d < 16
  {
    if IsDigit(c) then c - ZERO
    else if 97 <= c < 103 then c - 87
    else if 65 <= c < 71 then c - 55
    else -1
  }

  /** Two lower-case digits per byte: `Buffer.toString('hex')` and `HexBytes.toHex`. */
  function Hex(b: Bytes): (s: JsString)
    ensures |s| == 2 * |b|
  {
    if b == [] then [] else [HexDigit(b[0] / 16), HexDigit(b[0] % 16)] + Hex(b[1..])
  }

  /** `Buffer.from(text, 'hex')`: whole pairs up to the first that is not hexadecimal. */
  function FromHex(s: JsString): (b: Bytes)
  {
    if |s| < 2 || HexValue(s[0]) < 0 || HexValue(s[1]) < 0 then []
    else [16 * HexValue(s[0]) + HexValue(s[1])] + FromHex(s[2..])
  }

  lemma HexDigitValue(d: int)
    requires 0 <= d < 16
    ensures HexValue(HexDigit(d)) == d
  {
  }

  /** Reading hexadecimal text back gives the bytes. */
  lemma {:induction false} FromHexOfHex(b: Bytes)
    ensures FromHex(Hex(b)) == b
  {
    if b != [] {
      HexDigitValue(b[0] / 16);
      HexDigitValue(b[0] % 16);
      FromHexOfHex(b[1..]);
      assert Hex(b)[2..] == Hex(b[1..]);
      assert b == [b[0]] + b[1..];
    }
  }

  lemma {:induction false} HexConcat(a: Bytes, b: Bytes)
    ensures Hex(a + b) == Hex(a) + Hex(b)
  {
    if a == [] {
      assert a + b == b;
    } else {
      assert (a + b)[1..] == a[1..] + b;
      HexConcat(a[1..], b);
    }
  }
}
