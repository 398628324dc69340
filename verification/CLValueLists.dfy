/**
 The mutable CLValueList (src/types/clvalue/List.ts). Unlike the map it never checks the type of
 what is put in; what that costs is seen when the bytes are read back.
 */
module CLValueLists {
  import opened Basics
  import opened ByteConverters
  import opened CLTypes
  import opened CLValues
  import opened CodecLaw

  /** Where `splice(index, 1)` cuts: negative positions count from the end, both ends are clamped. */
  function SplicePoint(n: nat, index: int): (k: nat)
    ensures k <= n
  {
    if index < 0 then (if n + index < 0 then 0 else n + index) else if index > n then n else index
  }

  class CLValueList {
    const elementsType: CLType
    var elements: seq<CLValue>

    constructor (elementsType: CLType, elements: seq<CLValue>)
      ensures this.elementsType == elementsType && this.elements == elements
    {
      this.elementsType := elementsType;
      this.elements := elements;
    }

    method Append(value: CLValue)
      modifies this
      ensures elements == old(elements) + [value]
    {
      elements := elements + [value];
    }

    /** Removes one element, or nothing past the end. */
    method Remove(index: int)
      modifies this
      ensures var k := SplicePoint(|old(elements)|, index);
              if k == |old(elements)| then elements == old(elements)
              else |elements| == |old(elements)| - 1
                   && old(elements) == elements[..k] + [old(elements)[k]] + elements[k..]
    {
      var k := SplicePoint(|elements|, index);
      if k < |elements| {
        elements := elements[..k] + elements[k + 1..];
      }
    }

    method Pop() returns (last: Option<CLValue>)
      modifies this
      ensures last.None? <==> old(elements) == []
      ensures elements + (if last.Some? then [last.value] else []) == old(elements)
    {
      if elements == [] {
        assert elements + [] == elements;
        return None;
      }
      last := Some(elements[|elements| - 1]);
      elements := elements[..|elements| - 1];
    }

    /** Only the upper bound is checked; a negative index throws nothing and changes no element. */
    method Set(index: int, item: CLValue) returns (e: Option<Error>)
      modifies this
      ensures e == if index >= |old(elements)| then Some(OutOfBounds) else None
      ensures |elements| == |old(elements)|
      ensures forall i :: 0 <= i < |elements| ==> elements[i] == if i == index then item else old(elements)[i]
    {
      if index >= |elements| {
        return Some(OutOfBounds);
      }
      if index >= 0 {
        elements := elements[index := item];
      }
      return None;
    }

    /** A negative index yields undefined. */
    method Get(index: int) returns (r: Result<Option<CLValue>>)
      ensures r == if index >= |elements| then Err(OutOfBounds)
                   else if index < 0 then Ok(None) else Ok(Some(elements[index]))
    {
      if index >= |elements| {
        return Err(OutOfBounds);
      }
      r := if index < 0 then Ok(None) else Ok(Some(elements[index]));
    }

    /** The bytes give the list back exactly when every element put in has the declared type. */
    method ToBytes() returns (r: Result<Bytes>)
      ensures r == ValueBytes(VList(elementsType, elements))
      ensures r.Ok? && !ZeroWidth(elementsType) && elementsType != Simple(Any)
              && (forall i :: 0 <= i < |elements| ==> Travels(elements[i], false)) ==>
                (FromBytes(ListOf(elementsType), r.value) == Ok((VList(elementsType, elements), [])) <==>
                 forall i :: 0 <= i < |elements| ==> TypeOf(elements[i]) == elementsType)
    {
      hide FromBytes, Travels, TypeOf, ZeroWidth;
      r := ListBytes(VList(elementsType, elements));
      if r.Ok? && !ZeroWidth(elementsType) && elementsType != Simple(Any)
         && forall i :: 0 <= i < |elements| ==> Travels(elements[i], false) {
        ListTravelsExactlyWhenTyped(elementsType, elements);
      }
    }
  }

  /** A decoder by type only yields elements of that type. */
  lemma {:induction false} DecodedElements(t: CLType, n: nat, b: Bytes)
    requires t.ListOf? && DecodeElems(t, n, b).Ok?
    ensures forall i :: 0 <= i < |DecodeElems(t, n, b).value.0| ==> TypeOf(DecodeElems(t, n, b).value.0[i]) == t.elem
    decreases n
  {
    hide FromBytes, TypeOf;
    if n != 0 && b != [] {
      var (v, rest) := FromBytes(t.elem, b).value;
      DecodedType(t.elem, b);
      DecodedElements(t, n - 1, rest);
      var tail := DecodeElems(t, n - 1, rest).value.0;
      var all := DecodeElems(t, n, b).value.0;
      assert all == [v] + tail;
      forall i | 0 <= i < |all| ensures TypeOf(all[i]) == t.elem {
        assert i > 0 ==> all[i] == tail[i - 1];
      }
    }
  }

  lemma ListTravelsExactlyWhenTyped(t: CLType, es: seq<CLValue>)
    requires t != Simple(Any) && !ZeroWidth(t) && ValueBytes(VList(t, es)).Ok?
    requires forall i :: 0 <= i < |es| ==> Travels(es[i], false)
    ensures FromBytes(ListOf(t), ValueBytes(VList(t, es)).value) == Ok((VList(t, es), [])) <==>
            forall i :: 0 <= i < |es| ==> TypeOf(es[i]) == t
  {
    hide ValueBytes, ZeroWidth;
    var v := VList(t, es);
    var b := ValueBytes(v).value;
    if forall i :: 0 <= i < |es| ==> TypeOf(es[i]) == t {
      RoundTrip(v, [], false);
      assert b + [] == b;
    } else if FromBytes(ListOf(t), b) == Ok((v, [])) {
      ElementsOfDecodedList(t, es, b);
    }
  }

  lemma ElementsOfDecodedList(t: CLType, es: seq<CLValue>, b: Bytes)
    requires t != Simple(Any) && FromBytes(ListOf(t), b) == Ok((VList(t, es), []))
    ensures forall i :: 0 <= i < |es| ==> TypeOf(es[i]) == t
  {
    hide TypeOf, DecodeElems;
    assert ListSpec(ListOf(t), b) == Ok((VList(t, es), []));
    var (size, rest) := FromBytesFixed(32, false, b).value;
    DecodedElements(ListOf(t), size, rest);
  }
}
