/**
 Hexadecimal text as `HexBytes` reads and writes it (src/types/HexBytes.ts): pairs of characters
 go through `parseInt`, whatever they are.
 */
module HexTexts {
  import opened Basics
  import opened Numerals

  predicate IsSpace(c: CodeUnit) {
    c == 9 || c == 11 || c == 12 || c == 32 || c == 0xA0 || c == 0xFEFF || c == 0x1680
    || 0x2000 <= c <= 0x200A || c == 0x202F || c == 0x205F || c == 0x3000
  }

  predicate IsLineEnd(c: CodeUnit) {
    c == 10 || c == 13 || c == 0x2028 || c == 0x2029
  }

  /** `parseInt(two characters, 16)` stored in a byte; what is no number is stored as 0. */
  function TwoValue(c: CodeUnit, d: CodeUnit): (b: Byte) {
    var x, y := HexValue(c), HexValue(d);
    if x >= 0 && y >= 0 then 16 * x + y
    else if x >= 0 then x
    else if y >= 0 && (IsSpace(c) || c == 43) then y
    else if y >= 0 && c == 45 then (256 - y) % 256
    else 0
  }

  /** `HexBytes.fromHex` up to the null check: the bytes of the one- and two-character matches of /.{1,2}/g. */
  function HexBytesOf(s: JsString): (b: Bytes)
    decreases |s|
  {
    if s == [] then []
    else if IsLineEnd(s[0]) then HexBytesOf(s[1..])
    else if |s| == 1 || IsLineEnd(s[1]) then [if HexValue(s[0]) >= 0 then HexValue(s[0]) else 0] + HexBytesOf(s[1..])
    else [TwoValue(s[0], s[1])] + HexBytesOf(s[2..])
  }

  /** `match` is null when nothing matches. */
  function HexBytesFromHex(s: JsString): (r: Result<Bytes>) {
    if HexBytesOf(s) == [] then Err(InvalidFormat) else Ok(HexBytesOf(s))
  }

  /** Lower-case hexadecimal digits in pairs: what `toHex` writes. */
  predicate LowerHex(s: JsString) {
    |s| % 2 == 0 && forall i :: 0 <= i < |s| ==> (ZERO <= s[i] < ZERO + 10 || 97 <= s[i] < 103)
  }

  lemma {:induction false} HexIsLower(b: Bytes)
    ensures LowerHex(Hex(b))
  {
    if b != [] {
      HexIsLower(b[1..]);
    }
  }

  lemma LowerDigits(c: CodeUnit, d: CodeUnit)
    requires ZERO <= c < ZERO + 10 || 97 <= c < 103
    requires ZERO <= d < ZERO + 10 || 97 <= d < 103
    ensures HexValue(c) >= 0 && HexValue(d) >= 0 && !IsLineEnd(c) && !IsLineEnd(d)
    ensures TwoValue(c, d) == 16 * HexValue(c) + HexValue(d)
    ensures HexDigit(TwoValue(c, d) / 16) == c && HexDigit(TwoValue(c, d) % 16) == d
  {
  }

  /** On lower-case texts the pairs read and write back, and `Buffer` reads the same. */
  lemma {:induction false} PairsRoundTrip(s: JsString)
    ensures Hex(HexBytesOf(s)) == s <==> LowerHex(s)
    ensures LowerHex(s) ==> FromHex(s) == HexBytesOf(s) && |HexBytesOf(s)| == |s| / 2
  {
    hide TwoValue, HexValue, HexDigit, IsLineEnd;
    if LowerHex(s) {
      if s != [] {
        LowerDigits(s[0], s[1]);
        PairsRoundTrip(s[2..]);
        assert s == [s[0], s[1]] + s[2..];
        var b := HexBytesOf(s);
        assert b[1..] == HexBytesOf(s[2..]);
      }
    } else {
      HexIsLower(HexBytesOf(s));
    }
  }

  /** `fromHex`, then `toHex`, give a text back exactly when it is lower-case hexadecimal and not empty. */
  lemma HexBytesRoundTrip(s: JsString)
    ensures HexBytesFromHex(s).Ok? && Hex(HexBytesFromHex(s).value) == s <==> LowerHex(s) && s != []
    ensures HexBytesFromHex([]).Err?
  {
    hide Hex, LowerHex;
    PairsRoundTrip(s);
    EmptyHex();
  }

  lemma EmptyHex()
    ensures Hex([]) == []
  {
  }
}
