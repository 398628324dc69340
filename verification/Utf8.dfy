/**
 UTF-8 (RFC 3629, section 3) as JavaScript applies it: `TextEncoder` and `Buffer.from`
 encode UTF-16 strings and turn lone surrogates into U+FFFD; `Buffer.toString` and
 `TextDecoder` decode and replace each maximal broken part by U+FFFD.
 */
module Utf8 {
  import opened Basics

  const REPLACEMENT: CodeUnit := 0xFFFD
  const BOM: Bytes := [0xEF, 0xBB, 0xBF]

  predicate High(u: int) {
    0xD800 <= u < 0xDC00
  }

  predicate Low(u: int) {
    0xDC00 <= u < 0xE000
  }

  /** The string starts with a surrogate pair. */
  predicate StartsWithPair(s: JsString) {
    |s| >= 2 && High(s[0]) && Low(s[1])
  }

  /** No surrogate stands alone. */
  predicate WellFormed(s: JsString) {
    s == [] ||
    if StartsWithPair(s) then WellFormed(s[2..])
    else !High(s[0]) && !Low(s[0]) && WellFormed(s[1..])
  }

  predicate Ascii(s: JsString) {
    forall i :: 0 <= i < |s| ==> s[i] < 0x80
  }

  // -------------------------------------------------------------- encoder

  function EncodeUnit(u: CodeUnit): (b: Bytes)
    ensures 1 <= |b| <= 3
    ensures |b| == 1 <==> u < 0x80
  {
    if u < 0x80 then [u]
    else if u < 0x800 then [0xC0 + u / 64, 0x80 + u % 64]
    else if High(u) || Low(u) then [0xEF, 0xBF, 0xBD]
    else [0xE0 + u / 4096, 0x80 + u / 64 % 64, 0x80 + u % 64]
  }

  function PairPoint(high: CodeUnit, low: CodeUnit): (p: int)
    requires High(high) && Low(low)
    ensures 0x1_0000 <= p < 0x11_0000
  {
    0x1_0000 + (high - 0xD800) * 0x400 + (low - 0xDC00)
  }

  function EncodePair(high: CodeUnit, low: CodeUnit): (b: Bytes)
    requires High(high) && Low(low)
    ensures |b| == 4
  {
    var p := PairPoint(high, low);
    [0xF0 + p / 0x4_0000, 0x80 + p / 4096 % 64, 0x80 + p / 64 % 64, 0x80 + p % 64]
  }

  /** The units one encoding step consumes. */
  function Head(s: JsString): (h: JsString)
    requires s != []
    ensures 1 <= |h| <= |s| && h == s[..|h|]
  {
    if StartsWithPair(s) then s[..2] else s[..1]
  }

  function EncodeHead(s: JsString): (b: Bytes)
    requires s != []
    ensures |b| >= 1
  {
    if StartsWithPair(s) then EncodePair(s[0], s[1]) else EncodeUnit(s[0])
  }

  function Encode(s: JsString): (b: Bytes)
  {
    if s == [] then [] else EncodeHead(s) + Encode(s[|Head(s)|..])
  }

  // -------------------------------------------------------------- decoder

  predicate Continuation(b: Bytes, i: nat) {
    i < |b| && 0x80 <= b[i] < 0xC0
  }

  /** The second byte allowed after a given lead byte (RFC 3629, section 4). */
  predicate SecondByte(b: Bytes) {
    |b| >= 2 &&
    (if b[0] == 0xE0 then 0xA0 else if b[0] == 0xF0 then 0x90 else 0x80)
    <= b[1] <=
    (if b[0] == 0xED then 0x9F else if b[0] == 0xF4 then 0x8F else 0xBF)
  }

  /** One decoding step: the units produced and the bytes consumed. */
  function Step(b: Bytes): (r: (JsString, nat))
    requires b != []
    ensures 1 <= r.1 <= |b|
  {
    var b0: int := b[0];
    var b1: int := if |b| > 1 then b[1] else 0;
    var b2: int := if |b| > 2 then b[2] else 0;
    var b3: int := if |b| > 3 then b[3] else 0;
    if b0 < 0x80 then ([b0], 1)
    else if b0 < 0xC2 || 0xF4 < b0 then ([REPLACEMENT], 1)
    else if !SecondByte(b) then ([REPLACEMENT], 1)
    else if b0 < 0xE0 then ([(b0 - 0xC0) * 64 + b1 - 0x80], 2)
    else if !Continuation(b, 2) then ([REPLACEMENT], 2)
    else if b0 < 0xF0 then ([(b0 - 0xE0) * 4096 + (b1 - 0x80) * 64 + b2 - 0x80], 3)
    else if !Continuation(b, 3) then ([REPLACEMENT], 3)
    else
      var p := (b0 - 0xF0) * 0x4_0000 + (b1 - 0x80) * 4096 + (b2 - 0x80) * 64 + b3 - 0x80;
      ([0xD800 + (p - 0x1_0000) / 0x400, 0xDC00 + (p - 0x1_0000) % 0x400], 4)
  }

  /** `Buffer.from(bytes).toString()`. */
  function Decode(b: Bytes): (s: JsString)
  {
    if b == [] then [] else Step(b).0 + Decode(b[Step(b).1..])
  }

  /** `new TextDecoder().decode(bytes)`: as `Decode`, but a leading byte-order mark is dropped. */
  function DecodeText(b: Bytes): (s: JsString)
  {
    if BOM <= b then Decode(b[3..]) else Decode(b)
  }

  // --------------------------------------------------------------- proofs

  lemma StepOfUnit(u: CodeUnit, r: Bytes)
    requires !High(u) && !Low(u)
    ensures Step(EncodeUnit(u) + r) == ([u], |EncodeUnit(u)|)
  {
  }

  /** The four 6-bit groups of a code point above the basic plane, put back together. */
  lemma GroupsOfPoint(p: int)
    requires 0x1_0000 <= p < 0x11_0000
    ensures p / 0x4_0000 * 0x4_0000 + p / 4096 % 64 * 4096 + p / 64 % 64 * 64 + p % 64 == p
    ensures 0 <= p / 0x4_0000 <= 4
    ensures p / 0x4_0000 == 0 ==> p / 4096 % 64 >= 0x10
    ensures p / 0x4_0000 == 4 ==> p / 4096 % 64 <= 0x0F
  {
    var x := p / 64;
    var y := x / 64;
    assert y == p / 4096;
    assert y / 64 == p / 0x4_0000;
  }

  lemma UnitsOfPoint(a: int, c: int)
    requires 0 <= a < 0x400 && 0 <= c < 0x400
    ensures (a * 0x400 + c) / 0x400 == a && (a * 0x400 + c) % 0x400 == c
  {
  }

  lemma StepOfFourBytes(b: Bytes, p: int)
    requires |b| >= 4 && 0x1_0000 <= p < 0x11_0000
    requires b[0] == 0xF0 + p / 0x4_0000 && b[1] == 0x80 + p / 4096 % 64
    requires b[2] == 0x80 + p / 64 % 64 && b[3] == 0x80 + p % 64
    ensures Step(b) == ([0xD800 + (p - 0x1_0000) / 0x400, 0xDC00 + (p - 0x1_0000) % 0x400], 4)
  {
    GroupsOfPoint(p);
    assert SecondByte(b);
  }

  lemma StepOfPair(high: CodeUnit, low: CodeUnit, r: Bytes)
    requires High(high) && Low(low)
    ensures Step(EncodePair(high, low) + r) == ([high, low], 4)
  {
    StepOfFourBytes(EncodePair(high, low) + r, PairPoint(high, low));
    UnitsOfPoint(high - 0xD800, low - 0xDC00);
  }

  /** One step on an encoded well-formed string yields exactly its first character. */
  lemma StepOfHead(s: JsString, r: Bytes)
    requires s != [] && WellFormed(s)
    ensures Step(EncodeHead(s) + r) == (Head(s), |EncodeHead(s)|)
    ensures WellFormed(s[|Head(s)|..])
  {
    if StartsWithPair(s) {
      StepOfPair(s[0], s[1], r);
      assert s[..2] == [s[0], s[1]];
    } else {
      StepOfUnit(s[0], r);
      assert s[..1] == [s[0]];
    }
  }

  lemma {:induction false} DecodeOfFormed(s: JsString)
    requires WellFormed(s)
    ensures Decode(Encode(s)) == s
  {
    hide Step, EncodeHead, WellFormed;
    if s != [] {
      var n := |Head(s)|;
      var tail := Encode(s[n..]);
      StepOfHead(s, tail);
      DecodeOfFormed(s[n..]);
      assert (EncodeHead(s) + tail)[|EncodeHead(s)|..] == tail;
      assert s == Head(s) + s[n..];
    }
  }

  // ------------------------------------------------------ lone surrogates

  /** What is left of a text once it is written: each lone surrogate has become U+FFFD. */
  function NormText(s: JsString): (t: JsString) {
    Decode(Encode(s))
  }

  function NormHead(s: JsString): (h: JsString)
    requires s != []
    ensures |h| == |Head(s)|
  {
    if StartsWithPair(s) then s[..2] else if High(s[0]) || Low(s[0]) then [REPLACEMENT] else s[..1]
  }

  lemma StepOfAnyHead(s: JsString, r: Bytes)
    requires s != []
    ensures Step(EncodeHead(s) + r) == (NormHead(s), |EncodeHead(s)|)
  {
    if StartsWithPair(s) {
      StepOfPair(s[0], s[1], r);
      assert s[..2] == [s[0], s[1]];
    } else if High(s[0]) || Low(s[0]) {
      StepOfUnit(REPLACEMENT, r);
      assert EncodeHead(s) == EncodeUnit(REPLACEMENT);
    } else {
      StepOfUnit(s[0], r);
      assert s[..1] == [s[0]];
    }
  }

  /** The replaced head in front of well-formed text is written like the head. */
  lemma EncodeOfNormHead(s: JsString, tail: JsString)
    requires s != [] && WellFormed(tail)
    ensures Encode(NormHead(s) + tail) == EncodeHead(s) + Encode(tail)
    ensures WellFormed(NormHead(s) + tail)
  {
    var t := NormHead(s) + tail;
    if StartsWithPair(s) {
      assert t[2..] == tail;
    } else {
      assert !StartsWithPair(t);
      assert t[1..] == tail;
      assert EncodeHead(t) == EncodeHead(s);
    }
  }

  /** Writing replaces lone surrogates and nothing else: same length, same bytes, well-formed. */
  lemma {:induction false} NormTextKeeps(s: JsString)
    ensures |NormText(s)| == |s|
    ensures Encode(NormText(s)) == Encode(s)
    ensures WellFormed(NormText(s))
    ensures NormText(s) == s <==> WellFormed(s)
  {
    hide Step, EncodeHead, Head, WellFormed;
    if s == [] {
      EmptyIsFormed();
    } else {
      var n := |Head(s)|;
      var tail := Encode(s[n..]);
      NormTextKeeps(s[n..]);
      StepOfAnyHead(s, tail);
      assert (EncodeHead(s) + tail)[|EncodeHead(s)|..] == tail;
      EncodeOfNormHead(s, NormText(s[n..]));
    }
    if WellFormed(s) {
      DecodeOfFormed(s);
    }
  }

  lemma EmptyIsFormed()
    ensures WellFormed([])
  {
  }

  /** Decoding gives a string back exactly when no surrogate stands alone in it. */
  lemma DecodeOfEncode(s: JsString)
    ensures Decode(Encode(s)) == s <==> WellFormed(s)
  {
    NormTextKeeps(s);
  }

  /** A text of n UTF-16 units in front of more bytes, as a decoder that counts units reads it. */
  function ReadUnits(b: Bytes, n: nat): (r: Option<(JsString, Bytes)>)
    decreases |b|
  {
    if n == 0 then Some(([], b))
    else if b == [] then None
    else
      var (u, k) := Step(b);
      if |u| > n then None
      else
        var tail := ReadUnits(b[k..], n - |u|);
        if tail.None? then None else Some((u + tail.value.0, tail.value.1))
  }

  /** Counting units finds the end of any written text, whatever follows it. */
  lemma {:induction false} ReadUnitsOfEncode(s: JsString, rest: Bytes)
    ensures ReadUnits(Encode(s) + rest, |s|) == Some((NormText(s), rest))
  {
    hide Step, EncodeHead, Head, NormHead;
    if s == [] {
      assert [] + rest == rest;
    } else {
      var h, n := EncodeHead(s), |Head(s)|;
      var tail := Encode(s[n..]);
      StepOfAnyHead(s, tail);
      StepOfAnyHead(s, tail + rest);
      ReadUnitsOfEncode(s[n..], rest);
      assert h + tail + rest == h + (tail + rest);
      assert (h + tail)[|h|..] == tail && (h + (tail + rest))[|h|..] == tail + rest;
    }
  }

  /** UTF-16 length and bytes, whatever follows them, determine a string up to its lone surrogates. */
  lemma EncodeIsPrefixFree(s: JsString, t: JsString, q: Bytes, r: Bytes)
    requires |s| == |t| && Encode(s) + q == Encode(t) + r
    ensures NormText(s) == NormText(t) && q == r
  {
    hide *;
    ReadUnitsOfEncode(s, q);
    ReadUnitsOfEncode(t, r);
  }

  lemma HeadLength(s: JsString)
    requires s != []
    ensures |Head(s)| <= |EncodeHead(s)| <= 3 * |Head(s)|
    ensures |EncodeHead(s)| == |Head(s)| <==> s[0] < 0x80
    ensures s[0] < 0x80 ==> EncodeHead(s) == Head(s) == [s[0]]
  {
  }

  lemma AsciiOfTail(s: JsString)
    requires s != []
    ensures Ascii(s) <==> s[0] < 0x80 && Ascii(s[1..])
  {
    if s[0] < 0x80 && Ascii(s[1..]) {
      forall i | 0 <= i < |s| ensures s[i] < 0x80 {
        assert i > 0 ==> s[i] == s[1..][i - 1];
      }
    }
  }

  lemma LengthStep(s: JsString)
    requires s != []
    requires var t := s[|Head(s)|..];
             |t| <= |Encode(t)| <= 3 * |t| && (|Encode(t)| == |t| <==> Ascii(t)) && (Ascii(t) ==> Encode(t) == t)
    ensures |s| <= |Encode(s)| <= 3 * |s|
    ensures |Encode(s)| == |s| <==> Ascii(s)
    ensures Ascii(s) ==> Encode(s) == s
  {
    hide EncodeHead, Head, Ascii;
    HeadLength(s);
    AsciiOfTail(s);
  }

  /** UTF-8 never has fewer bytes than UTF-16 units, and as many only for ASCII. */
  lemma {:induction false} EncodeLength(s: JsString)
    ensures |s| <= |Encode(s)| <= 3 * |s|
    ensures |Encode(s)| == |s| <==> Ascii(s)
    ensures Ascii(s) ==> Encode(s) == s
  {
    if s != [] {
      EncodeLength(s[|Head(s)|..]);
      LengthStep(s);
    }
  }

  lemma {:induction false} AsciiIsWellFormed(s: JsString)
    requires Ascii(s)
    ensures WellFormed(s)
  {
    if s != [] {
      AsciiIsWellFormed(s[1..]);
    }
  }

  /** ASCII bytes decode to themselves, whatever decoder is used. */
  lemma DecodeOfAscii(s: JsString)
    requires Ascii(s)
    ensures Decode(Encode(s)) == s && DecodeText(Encode(s)) == s
    ensures Encode(s) == s
  {
    AsciiIsWellFormed(s);
    DecodeOfEncode(s);
    EncodeLength(s);
  }

  lemma StepOfBom(b: Bytes)
    requires BOM <= b
    ensures Step(b) == ([0xFEFF], 3)
  {
    assert b[0] == BOM[0] && b[1] == BOM[1] && b[2] == BOM[2];
  }

  lemma EncodeOfBom(s: JsString)
    requires s != [] && s[0] == 0xFEFF
    ensures Encode(s) == BOM + Encode(s[1..])
  {
    assert !StartsWithPair(s);
    assert EncodeHead(s) == BOM;
  }

  lemma BomIsTheFirstCharacter(s: JsString)
    requires WellFormed(s)
    ensures BOM <= Encode(s) <==> s != [] && s[0] == 0xFEFF
    ensures BOM <= Encode(s) ==> Encode(s)[3..] == Encode(s[1..]) && WellFormed(s[1..])
  {
    if s != [] {
      if s[0] == 0xFEFF {
        EncodeOfBom(s);
      } else if BOM <= Encode(s) {
        StepOfBom(Encode(s));
        StepOfHead(s, Encode(s[|Head(s)|..]));
        assert false;
      }
    }
  }

  /** `TextDecoder` after `TextEncoder`: lone surrogates are replaced and a leading byte-order mark is dropped. */
  lemma DecodeTextOfNormText(s: JsString)
    ensures var t := NormText(s);
            DecodeText(Encode(s)) == if t != [] && t[0] == 0xFEFF then t[1..] else t
  {
    hide Decode, Encode, WellFormed;
    var t := NormText(s);
    NormTextKeeps(s);
    BomIsTheFirstCharacter(t);
    if BOM <= Encode(s) {
      DecodeOfEncode(t[1..]);
    }
  }

  /** It gives a text back exactly when there is neither. */
  lemma DecodeTextOfEncode(s: JsString)
    ensures DecodeText(Encode(s)) == s <==> WellFormed(s) && !(s != [] && s[0] == 0xFEFF)
  {
    hide NormText, DecodeText, Encode, WellFormed;
    NormTextKeeps(s);
    DecodeTextOfNormText(s);
  }
}
