/**
 Values written in no bytes at all, inside lists and maps (src/types/clvalue/List.ts,
 src/types/clvalue/Map.ts): the decoding loops stop reading at the end of the input.
 */
module ZeroWidths {
  import opened Basics
  import opened ByteConverters
  import opened CLTypes
  import opened CLValues
  import opened CodecLaw

  /** Unit, empty byte arrays and tuples of them. */
  predicate ZeroValue(v: CLValue)
    decreases v
  {
    if v.VByteArray? then v.size == 0 && v.data == []
    else if v.VTuple1? then ZeroValue(v.inner1)
    else if v.VTuple2? then ZeroValue(v.inner1) && ZeroValue(v.inner2)
    else if v.VTuple3? then ZeroValue(v.inner1) && ZeroValue(v.inner2) && ZeroValue(v.inner3)
    else v.VUnit?
  }

  /** A type with a Unit in it, which only decodes from nothing. */
  predicate HasUnit(t: CLType) {
    if t.Tuple1Of? then HasUnit(t.inner1)
    else if t.Tuple2Of? then HasUnit(t.inner1) || HasUnit(t.inner2)
    else if t.Tuple3Of? then HasUnit(t.inner1) || HasUnit(t.inner2) || HasUnit(t.inner3)
    else t == Simple(Unit)
  }

  lemma {:induction false} ZeroValueWritesNothing(v: CLValue)
    requires ZeroValue(v)
    ensures ValueBytes(v) == Ok([]) && ZeroWidth(TypeOf(v))
    decreases v
  {
    hide ToBytesNumber;
    var none: Bytes := [];
    assert none + none == none;
    if v.VTuple1? {
      ZeroValueWritesNothing(v.inner1);
    } else if v.VTuple2? {
      ZeroValueWritesNothing(v.inner1);
      ZeroValueWritesNothing(v.inner2);
    } else if v.VTuple3? {
      ZeroValueWritesNothing(v.inner1);
      ZeroValueWritesNothing(v.inner2);
      ZeroValueWritesNothing(v.inner3);
    }
  }

  /** Such a value is read without consuming anything, unless a Unit in it meets input that goes on. */
  lemma {:induction false} ZeroValueReads(v: CLValue, b: Bytes)
    requires ZeroValue(v)
    ensures if b == [] || !HasUnit(TypeOf(v)) then FromBytes(TypeOf(v), b) == Ok((v, b))
            else FromBytes(TypeOf(v), b).Err?
    decreases v
  {
    hide NumberFromBytes;
    if v.VTuple1? {
      ZeroValueReads(v.inner1, b);
    } else if v.VTuple2? {
      ZeroValueReads(v.inner1, b);
      ZeroValueReads(v.inner2, b);
    } else if v.VTuple3? {
      ZeroValueReads(v.inner1, b);
      ZeroValueReads(v.inner2, b);
      ZeroValueReads(v.inner3, b);
    } else if v.VByteArray? {
      assert b[..0] == [] && b[0..] == b;
    }
  }

  lemma {:induction false} ZeroElemsRead(t: CLType, es: seq<CLValue>, b: Bytes)
    requires t.ListOf? && forall i :: 0 <= i < |es| ==> ZeroValue(es[i]) && TypeOf(es[i]) == t.elem
    ensures if es == [] || (b != [] && !HasUnit(t.elem)) then DecodeElems(t, |es|, b) == Ok((es, b))
            else if b == [] then DecodeElems(t, |es|, b) == Ok(([], b))
            else DecodeElems(t, |es|, b).Err?
  {
    hide ZeroValue, TypeOf, FromBytes, HasUnit;
    if es != [] && b != [] {
      ZeroValueReads(es[0], b);
      if !HasUnit(t.elem) {
        ZeroElemsRead(t, es[1..], b);
        assert es == [es[0]] + es[1..];
      }
    }
  }

  /** A list of zero-width values comes back exactly when empty, or when input follows and the type has no Unit. */
  lemma ZeroWidthListTravels(t: CLType, es: seq<CLValue>, rest: Bytes)
    requires ToBytesU32(|es|).Ok? && forall i :: 0 <= i < |es| ==> ZeroValue(es[i]) && TypeOf(es[i]) == t
    requires t != Simple(Any)
    ensures ValueBytes(VList(t, es)).Ok?
    ensures FromBytes(ListOf(t), ValueBytes(VList(t, es)).value + rest) == Ok((VList(t, es), rest))
            <==> es == [] || (rest != [] && !HasUnit(t))
  {
    hide ZeroValue, TypeOf, ToBytesU32, FromBytesFixed, DecodeElems, ElemsBytes, HasUnit;
    forall i | 0 <= i < |es| ensures ValueBytes(es[i]) == Ok([]) {
      ZeroValueWritesNothing(es[i]);
    }
    EmptyElems(es);
    var size := ToBytesU32(|es|).value;
    assert size + [] == size;
    U32RoundTrip(|es|, rest);
    ZeroElemsRead(ListOf(t), es, rest);
  }

  lemma {:induction false} EmptyEntries(es: seq<Entry>)
    requires forall i :: 0 <= i < |es| ==> ZeroValue(es[i].key) && ZeroValue(es[i].val)
    ensures EntriesBytes(es) == Ok([])
  {
    hide ZeroValue, ValueBytes;
    if es != [] {
      ZeroValueWritesNothing(es[0].key);
      ZeroValueWritesNothing(es[0].val);
      EmptyEntries(es[1..]);
      var none: Bytes := [];
      assert none + none == none;
    }
  }

  /** Entries of zero width are lost at the end of the input: the map comes back empty. */
  lemma ZeroWidthEntriesAreDropped(k: CLType, t: CLType, es: seq<Entry>)
    requires ToBytesU32(|es|).Ok?
    requires forall i :: 0 <= i < |es| ==> ZeroValue(es[i].key) && ZeroValue(es[i].val)
    ensures ValueBytes(VMap(k, t, es)).Ok?
    ensures FromBytes(MapOf(k, t), ValueBytes(VMap(k, t, es)).value) == Ok((VMap(k, t, []), []))
  {
    hide ZeroValue, ToBytesU32, FromBytesFixed, EntriesBytes;
    EmptyEntries(es);
    var size := ToBytesU32(|es|).value;
    assert size + [] == size;
    assert MapBytes(VMap(k, t, es)) == Ok(size);
    U32RoundTrip(|es|, []);
    assert MapSpec(MapOf(k, t), size) == Ok((VMap(k, t, []), []));
  }
}
