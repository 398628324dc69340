/** Numbers to bytes and back, and the hand-grown write buffers (src/types/ByteConverters.ts, clvalue/UintBig.ts). */
module ByteConverters {
  import opened Basics
  import opened Utf8

  // ------------------------------------------------------ toBytesNumber

  /** ethers' `arrayify`: the shortest big-endian bytes, one byte for zero. */
  function Arrayify(n: nat): (b: Bytes)
    ensures |b| >= 1
  {
    if n < 256 then [n] else Arrayify(n / 256) + [n % 256]
  }

  /** `BigNumber.toTwos(bitSize).mask(bitSize)`. */
  function MaskedTwos(value: int, bitSize: nat): (n: int)
  {
    (if value < 0 then value + Pow2(bitSize) else value) % Pow2(bitSize)
  }

  /** The values `toBytesNumber(bitSize, signed)` is meant for. */
  predicate InRange(bitSize: nat, signed: bool, value: int)
    requires bitSize > 0
  {
    var half: int := Pow2(bitSize - 1);
    if signed then -half <= value < half
    else 0 <= value < Pow2(bitSize)
  }

  function ToBytesNumber(bitSize: nat, signed: bool, value: int): (r: Result<Bytes>)
    requires bitSize > 0 && bitSize % 8 == 0
  {
    var maxUint := Pow2(bitSize) - 1;
    var bounds := Pow2(bitSize - 1) - 1;
    if signed && (value > bounds || value < (bounds + 1) * -1) then Err(OutOfBounds)
    else if !signed && (value < 0 || value > maxUint) then Err(OutOfBounds)
    else
      var twos := MaskedTwos(value, bitSize);
      TwosFits(value, bitSize);
      var bytes := Arrayify(twos);
      if bitSize > 64 then
        var framed: Bytes := bytes + [|bytes| % 256];
        if twos == 0 then Ok(bytes) else Ok(Reverse(framed))
      else
        Ok(Reverse(bytes) + Zeros(bitSize / 8 - |bytes|))
  }

  /** The masked value is never negative, so the encoder's last branch is dead, and it needs at most bitSize/8 bytes. */
  lemma TwosFits(value: int, bitSize: nat)
    requires bitSize > 0 && bitSize % 8 == 0
    ensures 0 <= MaskedTwos(value, bitSize) < Pow256(bitSize / 8)
    ensures |Arrayify(MaskedTwos(value, bitSize))| <= bitSize / 8
  {
    Pow2OfBytes(bitSize / 8);
    ArrayifyLength(MaskedTwos(value, bitSize), bitSize / 8);
  }

  lemma {:induction false} ArrayifyLength(n: nat, k: nat)
    requires k > 0 && n < Pow256(k)
    ensures |Arrayify(n)| <= k
  {
    if n >= 256 {
      assert k > 1 by {
        assert Pow256(1) == 256;
      }
      ArrayifyLength(n / 256, k - 1);
    }
  }

  /** Reversed, the shortest bytes are the little-endian ones, and no shorter ones would do. */
  lemma {:induction false} ArrayifyIsMinimal(n: nat)
    ensures Reverse(Arrayify(n)) == LE(n, |Arrayify(n)|)
    ensures n < Pow256(|Arrayify(n)|)
    ensures n > 0 ==> Pow256(|Arrayify(n)| - 1) <= n
  {
    if n < 256 {
      assert LE(n, 1) == [n % 256] + LE(n / 256, 0);
      assert Pow256(1) == 256;
    } else {
      ArrayifyIsMinimal(n / 256);
      var low: Byte := n % 256;
      ReverseAppend(Arrayify(n / 256), low);
      var j := |Arrayify(n / 256)|;
      assert LE(n, j + 1) == [n % 256] + LE(n / 256, j);
      assert Pow256(j + 1) == 256 * Pow256(j);
      assert Pow256(j) == 256 * Pow256(j - 1);
    }
  }

  lemma {:induction false} LEPadded(n: nat, j: nat, k: nat)
    requires j <= k && n < Pow256(j)
    ensures LE(n, j) + Zeros(k - j) == LE(n, k)
  {
    if k > 0 {
      if j == 0 {
        LEPadded(0, 0, k - 1);
        assert Zeros(k) == [0] + Zeros(k - 1);
      } else {
        LEPadded(n / 256, j - 1, k - 1);
        assert LE(n, j) + Zeros(k - j) == [n % 256] + (LE(n / 256, j - 1) + Zeros(k - j));
      }
    }
  }

  /** The encoder accepts exactly the values in range. */
  lemma ToBytesNumberAccepts(bitSize: nat, signed: bool, value: int)
    requires bitSize > 0 && bitSize % 8 == 0
    ensures ToBytesNumber(bitSize, signed, value).Ok? <==> InRange(bitSize, signed, value)
  {
  }

  /** The two's complement residue of a value in range. */
  lemma TwosOfInRange(bitSize: nat, signed: bool, value: int)
    requires bitSize > 0 && bitSize % 8 == 0 && InRange(bitSize, signed, value)
    ensures MaskedTwos(value, bitSize) == if value < 0 then value + Pow2(bitSize) else value
  {
    assert Pow2(bitSize) == 2 * Pow2(bitSize - 1);
    var n := if value < 0 then value + Pow2(bitSize) else value;
    assert 0 <= n < Pow2(bitSize);
    SmallMod(n, Pow2(bitSize));
  }

  lemma SmallMod(n: nat, m: nat)
    requires n < m
    ensures n % m == n
  {
  }

  /** Up to 64 bits: exactly bitSize/8 little-endian two's complement bytes. */
  lemma ToBytesNumberFixed(bitSize: nat, signed: bool, value: int)
    requires 0 < bitSize <= 64 && bitSize % 8 == 0 && InRange(bitSize, signed, value)
    ensures ToBytesNumber(bitSize, signed, value) ==
            Ok(LE(if value < 0 then value + Pow2(bitSize) else value, bitSize / 8))
  {
    TwosFits(value, bitSize);
    TwosOfInRange(bitSize, signed, value);
    var twos := MaskedTwos(value, bitSize);
    ArrayifyIsMinimal(twos);
    LEPadded(twos, |Arrayify(twos)|, bitSize / 8);
  }

  /** Above 64 bits: a length byte and the shortest little-endian magnitude; a lone 0 for zero. */
  lemma ToBytesNumberBig(bitSize: nat, value: int)
    requires 64 < bitSize <= 2040 && bitSize % 8 == 0 && InRange(bitSize, false, value)
    ensures value == 0 ==> ToBytesNumber(bitSize, false, value) == Ok([0])
    ensures value > 0 ==>
              var j := |Arrayify(value)|;
              && 1 <= j <= bitSize / 8
              && Pow256(j - 1) <= value < Pow256(j)
              && ToBytesNumber(bitSize, false, value) == Ok([j] + LE(value, j))
  {
    TwosFits(value, bitSize);
    TwosOfInRange(bitSize, false, value);
    if value > 0 {
      var j: Byte := |Arrayify(value)|;
      ArrayifyIsMinimal(value);
      ReverseAppend(Arrayify(value), j);
      SmallMod(j, 256);
    }
  }

  // --------------------------------------------------------- decoders

  /** The fixed-width `fromBytes` of the numeric values: bitSize/8 bytes, `fromTwos` when signed. */
  function FromBytesFixed(bitSize: nat, signed: bool, b: Bytes): (r: Result<(int, Bytes)>)
    requires bitSize > 0 && bitSize % 8 == 0
  {
    var k := bitSize / 8;
    if |b| < k then Err(EarlyEnd)
    else
      var n := FromLE(b[..k]);
      Ok((if signed && n >= Pow2(bitSize - 1) then n - Pow2(bitSize) else n, b[k..]))
  }

  /** `fromBytesBigIntBase`. */
  function FromBytesBig(bitSize: nat, b: Bytes): (r: Result<(nat, Bytes)>)
    ensures r.Ok? ==> |r.value.1| < |b|
  {
    if |b| < 1 then Err(EarlyEnd)
    else if b[0] > bitSize / 8 then Err(InvalidFormat)
    else if b[0] + 1 > |b| then Err(EarlyEnd)
    else Ok((FromLE(b[1..1 + b[0]]), b[1 + b[0]..]))
  }

  lemma Pow2Doubles(n: nat)
    requires n > 0
    ensures Pow2(n) == 2 * Pow2(n - 1)
  {
  }

  /** The fixed-width decoder inverts the encoder and leaves the rest of the input. */
  lemma FixedRoundTrip(bitSize: nat, signed: bool, value: int, rest: Bytes)
    requires 0 < bitSize <= 64 && bitSize % 8 == 0
    requires ToBytesNumber(bitSize, signed, value).Ok?
    ensures |ToBytesNumber(bitSize, signed, value).value| == bitSize / 8
    ensures FromBytesFixed(bitSize, signed, ToBytesNumber(bitSize, signed, value).value + rest) == Ok((value, rest))
  {
    hide ToBytesNumber, MaskedTwos, LE, FromLE, Arrayify, Pow2, Pow256;
    ToBytesNumberAccepts(bitSize, signed, value);
    ToBytesNumberFixed(bitSize, signed, value);
    Pow2OfBytes(bitSize / 8);
    Pow2Doubles(bitSize);
    var n := if value < 0 then value + Pow2(bitSize) else value;
    FromLEOfLE(n, bitSize / 8);
    var b := LE(n, bitSize / 8);
    assert (b + rest)[..bitSize / 8] == b && (b + rest)[bitSize / 8..] == rest;
  }

  /** The big-integer decoder inverts the encoder and leaves the rest of the input. */
  lemma BigRoundTrip(bitSize: nat, value: int, rest: Bytes)
    requires 64 < bitSize <= 2040 && bitSize % 8 == 0
    requires ToBytesNumber(bitSize, false, value).Ok?
    ensures value >= 0
    ensures ToBytesNumber(bitSize, false, value).value != []
    ensures FromBytesBig(bitSize, ToBytesNumber(bitSize, false, value).value + rest) == Ok((value, rest))
  {
    ToBytesNumberAccepts(bitSize, false, value);
    ToBytesNumberBig(bitSize, value);
    var b := ToBytesNumber(bitSize, false, value).value;
    if value == 0 {
      assert (b + rest)[1..] == rest;
    } else {
      var j := |Arrayify(value)|;
      FromLEOfLE(value, j);
      assert (b + rest)[1..1 + j] == LE(value, j);
      assert (b + rest)[1 + j..] == rest;
    }
  }

  // ---------------------------------------------------- u16, u32, strings

  /** `toBytesNumber` at the widths everything else is framed with, in closed form. */
  function ToBytesU8(n: int): (r: Result<Bytes>) {
    if 0 <= n < 0x100 then Ok(LE(n, 1)) else Err(OutOfBounds)
  }

  function ToBytesU16(n: int): (r: Result<Bytes>) {
    if 0 <= n < 0x1_0000 then Ok(LE(n, 2)) else Err(OutOfBounds)
  }

  function ToBytesU32(n: int): (r: Result<Bytes>) {
    if 0 <= n < 0x1_0000_0000 then Ok(LE(n, 4)) else Err(OutOfBounds)
  }

  function ToBytesU64(n: int): (r: Result<Bytes>) {
    if 0 <= n < 0x1_0000_0000_0000_0000 then Ok(LE(n, 8)) else Err(OutOfBounds)
  }

  /** The closed forms are `toBytesNumber` of 8, 16, 32 and 64 bits on every integer. */
  lemma UnsignedWidths(n: int)
    ensures ToBytesU8(n) == ToBytesNumber(8, false, n)
    ensures ToBytesU16(n) == ToBytesNumber(16, false, n)
    ensures ToBytesU32(n) == ToBytesNumber(32, false, n)
    ensures ToBytesU64(n) == ToBytesNumber(64, false, n)
  {
    hide ToBytesNumber, LE, Pow2, Pow256;
    SmallPowers();
    Pow2OfBytes(1);
    Pow2OfBytes(2);
    Pow2OfBytes(4);
    Pow2OfBytes(8);
    UnsignedWidth(8, n);
    UnsignedWidth(16, n);
    UnsignedWidth(32, n);
    UnsignedWidth(64, n);
  }

  lemma UnsignedWidth(bitSize: nat, n: int)
    requires 0 < bitSize <= 64 && bitSize % 8 == 0
    ensures ToBytesNumber(bitSize, false, n) ==
            if 0 <= n < Pow2(bitSize) then Ok(LE(n, bitSize / 8)) else Err(OutOfBounds)
  {
    hide LE, MaskedTwos, Arrayify;
    if 0 <= n < Pow2(bitSize) {
      ToBytesNumberFixed(bitSize, false, n);
    }
  }

  /** What is written in four or eight bytes is read back by the numeric decoders, with the rest. */
  lemma U32RoundTrip(n: int, rest: Bytes)
    requires ToBytesU32(n).Ok?
    ensures |ToBytesU32(n).value| == 4
    ensures FromBytesFixed(32, false, ToBytesU32(n).value + rest) == Ok((n, rest))
  {
    hide ToBytesNumber, FromBytesFixed;
    UnsignedWidths(n);
    FixedRoundTrip(32, false, n, rest);
  }

  /** `toBytesString`: the byte length, then UTF-8. */
  function ToBytesString(s: JsString): (r: Result<Bytes>) {
    var size :- ToBytesU32(|Encode(s)|);
    Ok(size + Encode(s))
  }

  /** `toBytesArrayU8`. */
  function ToBytesArrayU8(b: Bytes): (r: Result<Bytes>) {
    var size :- ToBytesU32(|b|);
    Ok(size + b)
  }

  function ParseU16(b: Bytes): (r: Result<nat>)
  {
    if |b| < 2 then Err(EarlyEnd)
    else
      var b0: int, b1: int := b[0], b[1];
      Ok(b0 + b1 * 0x100)
  }

  function ParseU32(b: Bytes): (r: Result<nat>)
  {
    if |b| < 4 then Err(EarlyEnd)
    else
      var b0: int, b1: int, b2: int, b3: int := b[0], b[1], b[2], b[3];
      Ok(b0 + b1 * 0x100 + b2 * 0x1_0000 + b3 * 0x100_0000)
  }

  /** Both parsers read the little-endian number at the front. */
  lemma ParsersReadLE(b: Bytes)
    ensures |b| >= 2 ==> ParseU16(b) == Ok(FromLE(b[..2]))
    ensures |b| >= 4 ==> ParseU32(b) == Ok(FromLE(b[..4]))
  {
    if |b| >= 2 {
      FromLEOfTwo(b[..2]);
    }
    if |b| >= 4 {
      FromLEOfTwo(b[2..4]);
      assert b[..4][1..][1..] == b[2..4];
      assert FromLE(b[..4]) == b[0] + 256 * FromLE(b[..4][1..]);
      assert FromLE(b[..4][1..]) == b[1] + 256 * FromLE(b[2..4]);
    }
  }

  lemma FromLEOfTwo(b: Bytes)
    requires |b| == 2
    ensures var b0: int, b1: int := b[0], b[1];
            FromLE(b) == b0 + 256 * b1
  {
    assert FromLE(b) == b[0] + 256 * FromLE(b[1..]);
    assert FromLE(b[1..]) == b[1] + 256 * FromLE(b[1..][1..]);
  }

  lemma ParseU16OfLE(n: nat, b: Bytes)
    requires n < 0x1_0000 && LE(n, 2) <= b
    ensures ParseU16(b) == Ok(n)
  {
    ParsersReadLE(b);
    SmallPowers();
    FromLEOfLE(n, 2);
    assert b[..2] == LE(n, 2);
  }

  lemma ParseU32OfLE(n: nat, b: Bytes)
    requires n < 0x1_0000_0000 && LE(n, 4) <= b
    ensures ParseU32(b) == Ok(n)
  {
    ParsersReadLE(b);
    SmallPowers();
    FromLEOfLE(n, 4);
    assert b[..4] == LE(n, 4);
  }

  /** The number `fromBytesU64` returns. */
  function U64Of(b: Bytes): (r: Result<nat>) {
    if |b| != 8 then Err(InvalidFormat) else Ok(FromLE(b))
  }

  /** The number of a big-endian byte string, as `BigNumber.from(bytes)` reads it. */
  function FromBE(b: Bytes): (n: nat) {
    if b == [] then 0 else 256 * FromBE(b[..|b| - 1]) + b[|b| - 1]
  }

  lemma {:induction false} FromBEOfReverse(b: Bytes)
    ensures FromBE(Reverse(b)) == FromLE(b)
  {
    if b != [] {
      FromBEOfReverse(b[1..]);
      var r := Reverse(b);
      assert r[..|r| - 1] == Reverse(b[1..]) && r[|r| - 1] == b[0];
    }
  }

  lemma {:induction false} ReverseAt<T>(s: seq<T>, i: nat)
    requires i < |s|
    ensures Reverse(s)[i] == s[|s| - 1 - i]
  {
    if i < |s| - 1 {
      ReverseAt(s[1..], i);
    }
  }

  /**
   `fromBytesU64` reverses the caller's array in place before reading it: the result is the
   little-endian number, and the argument is left byte-swapped.
   */
  method FromBytesU64(a: array<Byte>) returns (r: Result<nat>)
    modifies a
    ensures r == U64Of(old(a[..]))
    ensures a[..] == if r.Ok? then Reverse(old(a[..])) else old(a[..])
  {
    if a.Length != 8 {
      return Err(InvalidFormat);
    }
    var i := 0;
    while i < a.Length / 2
      invariant 0 <= i <= a.Length / 2
      invariant forall k :: 0 <= k < i ==> a[k] == old(a[a.Length - 1 - k]) && a[a.Length - 1 - k] == old(a[k])
      invariant forall k :: i <= k < a.Length - i ==> a[k] == old(a[k])
    {
      a[i], a[a.Length - 1 - i] := a[a.Length - 1 - i], a[i];
      i := i + 1;
    }
    ghost var was := old(a[..]);
    forall k | 0 <= k < a.Length ensures a[..][k] == Reverse(was)[k] {
      ReverseAt(was, k);
    }
    assert a[..] == Reverse(was);
    FromBEOfReverse(was);
    r := Ok(FromBE(a[..]));
  }

  // -------------------------------------------------------- write buffers

  /** `DataView.setUint16/setInt32/setUint32(offset, value, true)`: wraps modulo 256^k, throws past the end. */
  method SetLE(view: array<Byte>, offset: nat, value: nat, k: nat)
    requires offset + k <= view.Length
    modifies view
    ensures view[..] == old(view[..offset]) + LE(value, k) + old(view[offset + k..])
  {
    var b := LE(value, k);
    forall i | 0 <= i < k {
      view[offset + i] := b[i];
    }
  }

  /** Writing the low k bytes is writing modulo 256^k. */
  lemma {:induction false} LEWraps(n: nat, k: nat)
    ensures LE(n % Pow256(k), k) == LE(n, k)
  {
    if k > 0 {
      var p := Pow256(k - 1);
      ModBytes(n, p);
      LEWraps(n / 256, k - 1);
    }
  }

  /** The low byte of a remainder modulo 256 * p, and what is above it. */
  lemma ModBytes(n: nat, p: nat)
    requires p >= 1
    ensures n % (256 * p) % 256 == n % 256
    ensures n % (256 * p) / 256 == n / 256 % p
  {
    var q, r := n / 256, n % 256;
    var d, m := q / p, q % p;
    assert n == 256 * (d * p + m) + r;
    assert 256 * (d * p) == d * (256 * p);
    assert n == d * (256 * p) + (256 * m + r);
    assert 0 <= 256 * m + r < 256 * p;
    RemainderIs(n, 256 * p, d, 256 * m + r);
  }

  lemma RemainderIs(n: nat, m: nat, d: nat, r: nat)
    requires m > 0 && r < m && n == d * m + r
    ensures n % m == r
  {
    SameQuotient(n / m, n % m, d, r, m);
  }

  lemma SameQuotient(e: int, s: int, d: int, r: int, m: nat)
    requires 0 <= s < m && 0 <= r < m && e * m + s == d * m + r
    ensures e == d && s == r
  {
    Distributes(d, e, m);
    Distributes(e, d, m);
    if e < d {
      AtLeastOnce(d - e, m);
    } else if d < e {
      AtLeastOnce(e - d, m);
    }
  }

  lemma Distributes(a: int, b: int, m: int)
    ensures (a - b) * m == a * m - b * m
  {
  }

  lemma AtLeastOnce(k: int, m: nat)
    requires k >= 1
    ensures k * m >= m
  {
  }

  /** `setInt32`: the value modulo 2^32, negative ones included. */
  method WriteInteger(view: array<Byte>, offset: nat, value: int) returns (next: nat)
    requires offset + 4 <= view.Length
    modifies view
    ensures next == offset + 4
    ensures view[..next] == old(view[..offset]) + LE(value % 0x1_0000_0000, 4)
    ensures value >= 0 ==> view[..next] == old(view[..offset]) + LE(value, 4)
    ensures view[next..] == old(view[next..])
  {
    hide LE, Pow256;
    SetLE(view, offset, value % 0x1_0000_0000, 4);
    next := offset + 4;
    SmallPowers();
    if value >= 0 {
      LEWraps(value, 4);
    }
  }

  /** `setUint16`: the value modulo 2^16, negative ones included. */
  method WriteUShort(view: array<Byte>, offset: nat, value: int) returns (next: nat)
    requires offset + 2 <= view.Length
    modifies view
    ensures next == offset + 2
    ensures view[..next] == old(view[..offset]) + LE(value % 0x1_0000, 2)
    ensures value >= 0 ==> view[..next] == old(view[..offset]) + LE(value, 2)
    ensures view[next..] == old(view[next..])
  {
    hide LE, Pow256;
    SetLE(view, offset, value % 0x1_0000, 2);
    next := offset + 2;
    SmallPowers();
    if value >= 0 {
      LEWraps(value, 2);
    }
  }

  /** `new Uint8Array(buffer, offset).set(value)`. */
  method SetBytes(buffer: array<Byte>, offset: nat, value: Bytes)
    requires offset + |value| <= buffer.Length
    modifies buffer
    ensures buffer[..offset + |value|] == old(buffer[..offset]) + value
    ensures buffer[offset + |value|..] == old(buffer[offset + |value|..])
  {
    forall i | 0 <= i < |value| {
      buffer[offset + i] := value[i];
    }
  }

  method WriteBytes(view: array<Byte>, offset: nat, value: Bytes) returns (next: nat)
    requires offset + |value| <= view.Length
    modifies view
    ensures next == offset + |value|
    ensures view[..next] == old(view[..offset]) + value
    ensures view[next..] == old(view[next..])
  {
    var i := 0;
    while i < |value|
      invariant 0 <= i <= |value|
      invariant view[..offset] == old(view[..offset])
      invariant view[offset..offset + i] == value[..i]
      invariant view[offset + i..] == old(view[offset + i..])
    {
      view[offset + i] := value[i];
      i := i + 1;
    }
    next := offset + |value|;
    assert view[..next] == view[..offset] + view[offset..next];
    assert value[..i] == value;
  }

  /**
   `expandBuffer`: doubles until the size fits and copies. An empty buffer would double for ever,
   so it must not be asked to grow.
   */
  method ExpandBuffer(current: array<Byte>, requiredSize: nat) returns (grown: array<Byte>)
    requires current.Length > 0 || requiredSize == 0
    ensures fresh(grown)
    ensures requiredSize <= grown.Length && current.Length <= grown.Length
    ensures grown[..current.Length] == current[..] && grown[current.Length..] == Zeros(grown.Length - current.Length)
    ensures if requiredSize <= current.Length then grown.Length == current.Length
            else grown.Length < 2 * requiredSize
    ensures exists k: nat :: grown.Length == current.Length * Pow2(k)
  {
    var newSize := current.Length;
    ghost var k: nat := 0;
    while newSize < requiredSize
      invariant current.Length <= newSize
      invariant newSize == current.Length || newSize < 2 * requiredSize
      invariant requiredSize <= current.Length ==> newSize == current.Length
      invariant newSize == current.Length * Pow2(k)
      decreases requiredSize - newSize
    {
      assert current.Length * Pow2(k + 1) == 2 * newSize;
      newSize := newSize * 2;
      k := k + 1;
    }
    grown := new Byte[newSize](_ => 0);
    forall i | 0 <= i < current.Length {
      grown[i] := current[i];
    }
    assert grown[current.Length..] == Zeros(grown.Length - current.Length);
  }
}
