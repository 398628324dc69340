/**
 The bytes of every numeric CLValue in numerals (src/types/clvalue/Numeric): which numbers are
 accepted, what is written for them, and what the decoders make of any bytes.
 */
module NumberLayouts {
  import opened Basics
  import opened ByteConverters
  import opened CLTypes
  import opened CLValues

  const TWO_64: nat := 0x1_0000_0000_0000_0000
  const TWO_128: nat := TWO_64 * TWO_64
  const TWO_256: nat := TWO_128 * TWO_128
  const TWO_512: nat := TWO_256 * TWO_256

  lemma {:induction false} Pow256Adds(j: nat, k: nat)
    ensures Pow256(j + k) == Pow256(j) * Pow256(k)
    decreases k
  {
    if k > 0 {
      Pow256Adds(j, k - 1);
      assert Pow256(j + k) == 256 * Pow256(j + k - 1);
    }
  }

  lemma PowersOfTwo()
    ensures Pow2(8) == 0x100
    ensures Pow2(32) == 0x1_0000_0000 && Pow2(31) == 0x8000_0000
    ensures Pow2(64) == TWO_64 && Pow2(63) == 0x8000_0000_0000_0000
    ensures Pow2(128) == TWO_128 && Pow2(256) == TWO_256 && Pow2(512) == TWO_512
  {
    hide Pow2, Pow256;
    SmallPowers();
    Pow2OfBytes(1);
    Pow2OfBytes(4);
    Pow2OfBytes(8);
    Pow2OfBytes(16);
    Pow2OfBytes(32);
    Pow2OfBytes(64);
    Pow256Adds(8, 8);
    Pow256Adds(16, 16);
    Pow256Adds(32, 32);
    Pow2Doubles(32);
    Pow2Doubles(64);
  }

  /** Fixed widths: the range in numerals, then two's complement, least significant byte first. */
  lemma FixedLayout(n: int)
    ensures ValueBytes(VFixed(U8, n)) == if 0 <= n < 0x100 then Ok(LE(n, 1)) else Err(OutOfBounds)
    ensures ValueBytes(VFixed(U32, n)) == if 0 <= n < 0x1_0000_0000 then Ok(LE(n, 4)) else Err(OutOfBounds)
    ensures ValueBytes(VFixed(U64, n)) == if 0 <= n < 0x1_0000_0000_0000_0000 then Ok(LE(n, 8)) else Err(OutOfBounds)
    ensures ValueBytes(VFixed(I32, n)) ==
            if -0x8000_0000 <= n < 0x8000_0000 then Ok(LE(if n < 0 then n + 0x1_0000_0000 else n, 4))
            else Err(OutOfBounds)
    ensures ValueBytes(VFixed(I64, n)) ==
            if -0x8000_0000_0000_0000 <= n < 0x8000_0000_0000_0000
            then Ok(LE(if n < 0 then n + 0x1_0000_0000_0000_0000 else n, 8))
            else Err(OutOfBounds)
  {
    hide ToBytesNumber, LE, Pow2;
    PowersOfTwo();
    FixedWidth(8, false, n);
    FixedWidth(32, false, n);
    FixedWidth(64, false, n);
    FixedWidth(32, true, n);
    FixedWidth(64, true, n);
  }

  lemma FixedWidth(bitSize: nat, signed: bool, n: int)
    requires 0 < bitSize <= 64 && bitSize % 8 == 0
    ensures ToBytesNumber(bitSize, signed, n) ==
            if InRange(bitSize, signed, n) then Ok(LE(if n < 0 then n + Pow2(bitSize) else n, bitSize / 8))
            else Err(OutOfBounds)
  {
    hide LE, MaskedTwos, Arrayify;
    if InRange(bitSize, signed, n) {
      ToBytesNumberFixed(bitSize, signed, n);
    }
  }

  /** What a big kind holds at most, in numerals. */
  function Limit(k: BigKind): (n: nat) {
    match k
    case U128 => TWO_128
    case U256 => TWO_256
    case U512 => TWO_512
  }

  /** The bytes of a positive number: their count, then as few as hold it. */
  ghost predicate ShortestBytes(b: Bytes, n: nat) {
    exists j: Byte :: j >= 1 && Pow256(j - 1) <= n < Pow256(j) && b == [j] + LE(n, j)
  }

  /** Big kinds: the range in numerals, zero as one byte, and the two bytes of a kept zero. */
  lemma BigLayout(k: BigKind, n: int)
    ensures ValueBytes(VBig(k, n, false)).Ok? <==> 0 <= n < Limit(k)
    ensures n == 0 ==> ValueBytes(VBig(k, n, false)) == Ok([0])
    ensures 0 < n < Limit(k) ==> ShortestBytes(ValueBytes(VBig(k, n, false)).value, n)
    ensures ValueBytes(VBig(k, n, true)) == Ok([1, 0])
  {
    hide ToBytesNumber, LE, Pow2, Pow256, Arrayify;
    PowersOfTwo();
    ToBytesNumberAccepts(BitSize(k), false, n);
    if 0 <= n < Limit(k) {
      ToBytesNumberBig(BitSize(k), n);
    }
  }

  lemma FixedKindReads(k: FixedKind, b: Bytes)
    ensures var r := FromBytesFixed(BitSize(k), Signed(k), b);
            FromBytes(Simple(k), b) == if r.Ok? then Ok((VFixed(k, r.value.0), r.value.1)) else Err(r.error)
  {
    hide FromBytesFixed, BitSize, Signed;
  }

  /** The decoders on any input: how many bytes they want, what they make of them, and what they leave. */
  lemma UnsignedReading(b: Bytes)
    ensures FromBytes(Simple(U8), b) ==
            if |b| < 1 then Err(EarlyEnd) else Ok((VFixed(U8, FromLE(b[..1])), b[1..]))
    ensures FromBytes(Simple(U32), b) ==
            if |b| < 4 then Err(EarlyEnd) else Ok((VFixed(U32, FromLE(b[..4])), b[4..]))
    ensures FromBytes(Simple(U64), b) ==
            if |b| < 8 then Err(EarlyEnd) else Ok((VFixed(U64, FromLE(b[..8])), b[8..]))
  {
    hide FromLE, Pow2, FromBytes;
    FixedKindReads(U8, b);
    FixedKindReads(U32, b);
    FixedKindReads(U64, b);
  }

  /** A signed number is negative from half of the range on. */
  lemma SignedReading(b: Bytes)
    ensures FromBytes(Simple(I32), b) ==
            if |b| < 4 then Err(EarlyEnd)
            else
              var n := FromLE(b[..4]);
              Ok((VFixed(I32, if n < 0x8000_0000 then n else n - 0x1_0000_0000), b[4..]))
    ensures FromBytes(Simple(I64), b) ==
            if |b| < 8 then Err(EarlyEnd)
            else
              var n := FromLE(b[..8]);
              Ok((VFixed(I64, if n < 0x8000_0000_0000_0000 then n else n - 0x1_0000_0000_0000_0000), b[8..]))
  {
    hide FromLE, Pow2, FromBytes;
    PowersOfTwo();
    FixedKindReads(I32, b);
    FixedKindReads(I64, b);
  }

  /** A big number has at most 16, 32 or 64 bytes, all of which must be there; [1, 0] alone is kept as it is. */
  lemma BigReading(k: BigKind, b: Bytes)
    ensures FromBytes(Simple(k), b).Ok? <==>
            b != [] && b[0] <= (match k case U128 => 16 case U256 => 32 case U512 => 64) && 1 + b[0] <= |b|
    ensures FromBytes(Simple(k), b).Ok? ==>
              FromBytes(Simple(k), b).value == (VBig(k, FromLE(b[1..1 + b[0]]), b == [1, 0]), b[1 + b[0]..])
  {
    hide FromLE;
  }
}
