/**
 `CLValueParser.normalizeJsonClType`: nodes label some List<U8> values as List<List<U8>>; the
 parser retypes such a value when its bytes have the length of a List<U8>.
 */
module TypeRepair {
  import opened Basics
  import opened ByteConverters
  import opened CLTypes
  import opened CLValues
  import opened CodecLaw

  const BYTE_LIST := ListOf(Simple(U8))
  const BYTE_LISTS := ListOf(ListOf(Simple(U8)))

  /** `readU32LE`: the bit operations yield a signed 32-bit number. */
  function ReadU32LE(b: Bytes): (r: Option<int>) {
    if |b| < 4 then None
    else
      var n := FromLE(b[..4]);
      Some(if n >= 0x8000_0000 then n - 0x1_0000_0000 else n)
  }

  /** The type the value is decoded by. */
  function Normalize(t: CLType, raw: Bytes): (r: CLType) {
    if t != BYTE_LISTS then t
    else
      var len := ReadU32LE(raw);
      if len.Some? && |raw| == 4 + len.value then BYTE_LIST else t
  }

  /** Every other type is kept, and a retyped value has bytes of exactly the length in front of them. */
  lemma OnlyByteListsAreRetyped(t: CLType, raw: Bytes)
    ensures Normalize(t, raw) == t ||
            (t == ListOf(ListOf(Simple(U8))) && Normalize(t, raw) == ListOf(Simple(U8))
             && |raw| >= 4 && |raw| == 4 + FromLE(raw[..4]))
  {
    hide FromLE, Pow256;
    if |raw| >= 4 {
      FromLEBound(raw[..4]);
      SmallPowers();
    }
  }

  lemma ReadU32LEOf(n: nat, rest: Bytes)
    requires n < 0x1_0000_0000
    ensures ReadU32LE(LE(n, 4) + rest) == Some(if n >= 0x8000_0000 then n - 0x1_0000_0000 else n)
  {
    SmallPowers();
    FromLEOfLE(n, 4);
    assert (LE(n, 4) + rest)[..4] == LE(n, 4);
  }

  /** A list value whose elements are all of the given type. */
  predicate ListOfType(v: CLValue, t: CLType) {
    v.VList? && v.elemType == t
    && forall i :: 0 <= i < |v.elems| ==> TypeOf(v.elems[i]) == t && Travels(v.elems[i], false)
  }

  lemma {:induction false} ByteElems(es: seq<CLValue>)
    requires forall i :: 0 <= i < |es| ==> TypeOf(es[i]) == Simple(U8)
    requires ElemsBytes(es).Ok?
    ensures |ElemsBytes(es).value| == |es|
  {
    if es != [] {
      assert TypeOf(es[0]) == Simple(U8);
      FixedRoundTrip(8, false, es[0].n, []);
      ByteElems(es[1..]);
    }
  }

  lemma ByteListWidth(v: CLValue)
    requires TypeOf(v) == BYTE_LIST && ValueBytes(v).Ok?
    ensures v.VList? && |ValueBytes(v).value| >= 4
  {
    assert v.VList? && v.elemType == Simple(U8);
    assert ListBytes(v).value == ToBytesU32(|v.elems|).value + ElemsBytes(v.elems).value;
  }

  /** Inner lists take at least their four length bytes each. */
  lemma {:induction false} ListElems(es: seq<CLValue>)
    requires forall i :: 0 <= i < |es| ==> TypeOf(es[i]) == BYTE_LIST
    requires ElemsBytes(es).Ok?
    ensures |ElemsBytes(es).value| >= 4 * |es|
  {
    if es != [] {
      assert TypeOf(es[0]) == BYTE_LIST;
      ByteListWidth(es[0]);
      ListElems(es[1..]);
    }
  }

  /** Complete: a mislabelled byte list is retyped exactly below 2^31 bytes, and then it decodes to itself. */
  lemma ByteListIsRepaired(v: CLValue)
    requires ListOfType(v, Simple(U8)) && ValueBytes(v).Ok?
    ensures Normalize(BYTE_LISTS, ValueBytes(v).value) == BYTE_LIST <==> |v.elems| < 0x8000_0000
    ensures |v.elems| < 0x8000_0000 ==>
              FromBytes(Normalize(BYTE_LISTS, ValueBytes(v).value), ValueBytes(v).value) == Ok((v, []))
  {
    var b := ValueBytes(v).value;
    ByteElems(v.elems);
    ReadU32LEOf(|v.elems|, ElemsBytes(v.elems).value);
    RoundTrip(v, [], false);
    assert b + [] == b;
  }

  /** Sound: a genuine list of byte lists is retyped only when it is empty. */
  lemma ListOfListsIsKept(v: CLValue)
    requires ListOfType(v, BYTE_LIST) && ValueBytes(v).Ok?
    ensures Normalize(BYTE_LISTS, ValueBytes(v).value) == (if v.elems == [] then BYTE_LIST else BYTE_LISTS)
  {
    ListElems(v.elems);
    ReadU32LEOf(|v.elems|, ElemsBytes(v.elems).value);
  }
}
