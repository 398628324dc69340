/** The length-prefixed big-endian helpers of src/types/clvalue/UintBig.ts: `bigToBytes` and `bigFromBuffer`. */
module UintBigs {
  import opened Basics
  import opened ByteConverters
  import opened HexTexts
  import opened Numerals

  const LETTER_X: CodeUnit := 120

  // ----------------------------------------------------------- specification

  /** The magnitude in as few big-endian bytes as possible, behind a zero byte for a negative number. */
  function Magnitude(n: int): (b: Bytes)
    ensures b != []
  {
    if n < 0 then [0] + Arrayify(-n) else Arrayify(n)
  }

  /** What `bigToBytes` writes: the number of bytes modulo 256, then the bytes. */
  function BigBytes(n: int): (b: Bytes) {
    [|Magnitude(n)| % 256] + Magnitude(n)
  }

  /** `toHexString().slice(2)`, padded to whole pairs: the cut leaves the x of a negative number's 0x. */
  function BigHex(n: int): (s: JsString)
    ensures |s| == 2 * |Magnitude(n)|
  {
    if n < 0 then [ZERO, LETTER_X] + Hex(Arrayify(-n)) else Hex(Arrayify(n))
  }

  /** What `bigFromBuffer` reads; '0x' alone is no number. */
  function BigOf(b: Bytes): (r: Result<nat>) {
    if b == [] then Err(EarlyEnd)
    else
      var size: int := b[0];
      var data := Slice(b, 1, size + 1);
      if data == [] then Err(InvalidFormat) else Ok(FromBE(data))
  }

  // --------------------------------------------------------------- the loops

  lemma {:induction false} HexAt(b: Bytes, k: nat)
    requires k < |b|
    ensures Hex(b)[2 * k] == HexDigit(b[k] / 16) && Hex(b)[2 * k + 1] == HexDigit(b[k] % 16)
  {
    if k > 0 {
      HexAt(b[1..], k - 1);
    }
  }

  lemma PairOfByte(x: Byte)
    ensures TwoValue(HexDigit(x / 16), HexDigit(x % 16)) == x
  {
    HexDigitValue(x / 16);
    HexDigitValue(x % 16);
  }

  /** The pairs of the text parse to the bytes of the magnitude, the "0x" of a negative number to 0. */
  lemma PairsOfBigHex(n: int, k: nat)
    requires k < |Magnitude(n)|
    ensures TwoValue(BigHex(n)[2 * k], BigHex(n)[2 * k + 1]) == Magnitude(n)[k]
  {
    hide TwoValue, HexDigit, Hex, Arrayify;
    if n >= 0 {
      HexAt(Arrayify(n), k);
      PairOfByte(Arrayify(n)[k]);
    } else if k > 0 {
      var tail := Arrayify(-n);
      var j := k - 1;
      assert BigHex(n)[2 * j + 2] == Hex(tail)[2 * j] && BigHex(n)[2 * j + 3] == Hex(tail)[2 * j + 1];
      HexAt(tail, j);
      PairOfByte(tail[j]);
    } else {
      ZeroX();
    }
  }

  lemma ZeroX()
    ensures TwoValue(ZERO, LETTER_X) == 0
  {
  }

  method BigToBytes(val: int) returns (result: array<Byte>)
    ensures fresh(result) && result[..] == BigBytes(val)
  {
    hide TwoValue, BigHex, Magnitude;
    var hex := BigHex(val);
    var data := new Byte[|hex| / 2](_ => 0);
    var i := 0;
    while i < |hex|
      invariant 0 <= i <= |hex| && i % 2 == 0
      invariant data[..i / 2] == Magnitude(val)[..i / 2]
    {
      var b: Byte := TwoValue(hex[i], hex[i + 1]);
      PairsOfBigHex(val, i / 2);
      assert Magnitude(val)[..i / 2 + 1] == Magnitude(val)[..i / 2] + [b];
      data[i / 2] := b;
      i := i + 2;
    }
    assert data[..] == data[..i / 2] == Magnitude(val);
    var numberLen := data.Length;
    result := new Byte[numberLen + 1](_ => 0);
    result[0] := numberLen % 256;
    SetBytes(result, 1, data[..]);
    assert result[..] == result[..1 + numberLen];
  }

  /** The number a text of hexadecimal digits stands for. */
  function HexNumber(s: JsString): (n: int) {
    if s == [] then 0 else 16 * HexNumber(s[..|s| - 1]) + HexValue(s[|s| - 1])
  }

  lemma {:induction false} HexNumberOfHex(b: Bytes)
    ensures HexNumber(Hex(b)) == FromBE(b)
  {
    hide HexDigit, HexValue;
    if b != [] {
      var n := |b| - 1;
      var last := b[n];
      HexNumberOfHex(b[..n]);
      assert b == b[..n] + [last];
      HexConcat(b[..n], [last]);
      var s, t := Hex(b[..n]), Hex(b);
      assert Hex([last]) == [HexDigit(last / 16), HexDigit(last % 16)] by {
        assert [last][1..] == [];
      }
      assert t[..|t| - 1] == s + [HexDigit(last / 16)];
      assert (s + [HexDigit(last / 16)])[..|s|] == s;
      HexDigitValue(last / 16);
      HexDigitValue(last % 16);
    }
  }

  method BigFromBuffer(buffer: Bytes) returns (r: Result<int>)
    ensures r == BigOf(buffer)
  {
    hide Hex, HexNumber, HexDigit;
    if buffer == [] {
      return Err(EarlyEnd);
    }
    var size: int := buffer[0];
    var data := Slice(buffer, 1, size + 1);
    var hex: JsString := [];
    HexOfNothing();
    for i := 0 to |data|
      invariant hex == Hex(data[..i])
    {
      var byte := data[i];
      assert data[..i + 1] == data[..i] + [byte];
      HexConcat(data[..i], [byte]);
      ByteText(byte);
      hex := hex + (if byte < 16 then [ZERO] else []) + HexText(byte);
    }
    assert data[..|data|] == data;
    HexNumberOfHex(data);
    if hex == [] {
      return Err(InvalidFormat);
    }
    r := Ok(HexNumber(hex));
  }

  /** `byte.toString(16)`. */
  function HexText(x: Byte): (s: JsString) {
    if x < 16 then [HexDigit(x)] else [HexDigit(x / 16), HexDigit(x % 16)]
  }

  lemma ByteText(x: Byte)
    ensures forall s: JsString :: s + (if x < 16 then [ZERO] else []) + HexText(x) == s + Hex([x])
  {
    assert [x][1..] == [];
    assert Hex([x]) == [HexDigit(x / 16), HexDigit(x % 16)];
    assert x < 16 ==> [ZERO] + HexText(x) == Hex([x]);
    forall s: JsString ensures s + (if x < 16 then [ZERO] else []) + HexText(x) == s + Hex([x]) {
      assert s + [] == s;
    }
  }

  lemma HexOfNothing()
    ensures Hex([]) == []
  {
  }

  // ------------------------------------------------------------- properties

  lemma {:induction false} FromBEOfArrayify(n: nat)
    ensures FromBE(Arrayify(n)) == n
  {
    var b := Arrayify(n);
    if n < 256 {
      assert b[..0] == [];
    } else {
      FromBEOfArrayify(n / 256);
      assert b[..|b| - 1] == Arrayify(n / 256);
    }
  }

  /** Reading fewer bytes than were written gives a smaller number. */
  lemma {:induction false} FrontIsSmaller(b: Bytes, k: nat)
    requires k < |b| && b[0] > 0
    ensures FromBE(b[..k]) < FromBE(b)
    decreases |b|
  {
    var n := |b| - 1;
    if n == 0 {
      assert b[..0] == [];
    } else if k < n {
      FrontIsSmaller(b[..n], k);
      assert b[..n][..k] == b[..k];
    } else {
      assert b[..n] == b[..k];
      FrontIsPositive(b[..n]);
    }
  }

  lemma {:induction false} FrontIsPositive(b: Bytes)
    requires b != [] && b[0] > 0
    ensures FromBE(b) > 0
    decreases |b|
  {
    if |b| > 1 {
      FrontIsPositive(b[..|b| - 1]);
    }
  }

  lemma {:induction false} NoLeadingZeroByte(n: nat)
    requires n > 0
    ensures Arrayify(n)[0] > 0
  {
    if n >= 256 {
      NoLeadingZeroByte(n / 256);
    }
  }

  /** A number comes back from its length-prefixed bytes exactly when it is not negative and fits 255 bytes. */
  lemma BigBytesRoundTrip(n: int)
    ensures BigOf(BigBytes(n)) == Ok(n) <==> 0 <= n < Pow256(255)
  {
    hide Arrayify, FromBE, Pow256;
    var d := Magnitude(n);
    var b := BigBytes(n);
    if n >= 0 {
      FromBEOfArrayify(n);
      FitsExactly(n, 255);
      if |d| <= 255 {
        SmallMod(|d|, 256);
        assert b[1..|d| + 1] == d;
      } else {
        var k := |d| % 256;
        assert b[1..k + 1] == d[..k];
        NoLeadingZeroByte(n);
        FrontIsSmaller(d, k);
      }
    }
  }

  /** k bytes are enough exactly below 256^k. */
  lemma FitsExactly(n: nat, k: nat)
    requires k > 0
    ensures |Arrayify(n)| <= k <==> n < Pow256(k)
    ensures n == 0 ==> |Arrayify(n)| == 1
  {
    hide Arrayify;
    if n < Pow256(k) {
      ArrayifyLength(n, k);
    } else {
      ArrayifyIsMinimal(n);
      if |Arrayify(n)| <= k {
        Pow256Monotone(|Arrayify(n)|, k);
      }
    }
    ZeroIsOneByte();
  }

  lemma ZeroIsOneByte()
    ensures |Arrayify(0)| == 1
  {
  }
}
