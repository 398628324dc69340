/**
 The constructor check of CLValueResult (src/types/clvalue/Result.ts): it compares the names of
 types, not the types.
 */
module CLValueResults {
  import opened Basics
  import opened CLTypes
  import opened CLValues
  import opened CodecLaw

  /** `getName()`: a composite type's name says nothing about its parts. */
  datatype TypeName =
    | SimpleName(kind: SimpleKind)
    | OptionName | ListName | ByteArrayName | ResultName | MapName | Tuple1Name | Tuple2Name | Tuple3Name

  function NameOf(t: CLType): (n: TypeName) {
    match t
    case Simple(k) => SimpleName(k)
    case OptionOf(_) => OptionName
    case ListOf(_) => ListName
    case ByteArrayOf(_) => ByteArrayName
    case ResultOf(_, _) => ResultName
    case MapOf(_, _) => MapName
    case Tuple1Of(_) => Tuple1Name
    case Tuple2Of(_, _) => Tuple2Name
    case Tuple3Of(_, _, _) => Tuple3Name
  }

  function Expected(ok: CLType, err: CLType, isSuccess: bool): (t: CLType) {
    if isSuccess then ok else err
  }

  /** `newCLResult`. */
  function NewResult(ok: CLType, err: CLType, isSuccess: bool, inner: CLValue): (r: Result<CLValue>) {
    if NameOf(Expected(ok, err, isSuccess)) != NameOf(TypeOf(inner)) then Err(InvalidFormat)
    else Ok(VResult(ok, err, isSuccess, inner))
  }

  /** A type other than the given one. */
  function OtherType(t: CLType): (u: CLType)
    ensures u.Simple? && u != t
  {
    if t == Simple(U8) then Simple(Bool) else Simple(U8)
  }

  /** A value of it. */
  function OtherValue(t: CLType): (v: CLValue)
    ensures TypeOf(v) == OtherType(t)
  {
    if t == Simple(U8) then VBool(false) else VFixed(U8, 0)
  }

  /** For every composite type, a value of another type with the same name. */
  function Namesake(t: CLType): (v: CLValue)
    requires !t.Simple?
    ensures NameOf(TypeOf(v)) == NameOf(t) && TypeOf(v) != t
  {
    match t
    case OptionOf(a) => VOption(None, OtherType(a))
    case ListOf(a) => VList(OtherType(a), [])
    case ByteArrayOf(n) => VByteArray(n + 1, Zeros(n + 1))
    case ResultOf(a, e) => VResult(OtherType(a), e, true, OtherValue(a))
    case MapOf(a, b) => VMap(OtherType(a), b, [])
    case Tuple1Of(a) => VTuple1(OtherValue(a))
    case Tuple2Of(a, b) => VTuple2(OtherValue(a), OtherValue(b))
    case Tuple3Of(a, b, c) => VTuple3(OtherValue(a), OtherValue(b), OtherValue(c))
  }

  /** The constructor never refuses a value of the full type. */
  lemma WellTypedIsAccepted(ok: CLType, err: CLType, isSuccess: bool, inner: CLValue)
    ensures TypeOf(inner) == Expected(ok, err, isSuccess) ==> NewResult(ok, err, isSuccess, inner).Ok?
    ensures Expected(ok, err, isSuccess).Simple? && NewResult(ok, err, isSuccess, inner).Ok?
            ==> TypeOf(inner) == Expected(ok, err, isSuccess)
  {
    hide TypeOf;
  }

  /** The check accepts exactly the well-typed values if and only if the expected type is simple. */
  lemma CheckIsExactForSimpleTypes(ok: CLType, err: CLType, isSuccess: bool)
    ensures (forall inner: CLValue ::
              NewResult(ok, err, isSuccess, inner).Ok? <==> TypeOf(inner) == Expected(ok, err, isSuccess))
            <==> Expected(ok, err, isSuccess).Simple?
  {
    hide TypeOf, Namesake;
    var t := Expected(ok, err, isSuccess);
    if t.Simple? {
      forall inner: CLValue ensures NewResult(ok, err, isSuccess, inner).Ok? <==> TypeOf(inner) == t {
        WellTypedIsAccepted(ok, err, isSuccess, inner);
      }
    } else {
      var inner := Namesake(t);
      assert NewResult(ok, err, isSuccess, inner).Ok? && TypeOf(inner) != t;
    }
  }

  /** What the constructor lets through comes back from its bytes exactly when the full types agree. */
  lemma ResultTravelsExactlyWhenTyped(ok: CLType, err: CLType, isSuccess: bool, inner: CLValue)
    requires NewResult(ok, err, isSuccess, inner).Ok? && Travels(inner, true)
    requires ValueBytes(VResult(ok, err, isSuccess, inner)).Ok?
    ensures FromBytes(ResultOf(ok, err), ValueBytes(VResult(ok, err, isSuccess, inner)).value)
              == Ok((VResult(ok, err, isSuccess, inner), []))
            <==> TypeOf(inner) == Expected(ok, err, isSuccess)
  {
    hide ValueBytes, TypeOf, FromBytes;
    var v := VResult(ok, err, isSuccess, inner);
    var b := ValueBytes(v).value;
    if TypeOf(inner) == Expected(ok, err, isSuccess) {
      ResultTravels(v);
      RoundTrip(v, [], true);
      assert b + [] == b;
    } else if FromBytes(ResultOf(ok, err), b) == Ok((v, [])) {
      DecodedResult(ok, err, b);
    }
  }

  lemma ResultTravels(v: CLValue)
    requires v.VResult? && Travels(v.inner, true) && TypeOf(v.inner) == Expected(v.okType, v.errType, v.isSuccess)
    ensures Travels(v, true) && TypeOf(v) == ResultOf(v.okType, v.errType)
  {
  }

  /** A decoded result has an inner value of the full type, so the constructor never throws on one. */
  lemma DecodedResult(ok: CLType, err: CLType, b: Bytes)
    requires FromBytes(ResultOf(ok, err), b).Ok?
    ensures var v := FromBytes(ResultOf(ok, err), b).value.0;
            && v.VResult? && TypeOf(v.inner) == Expected(ok, err, v.isSuccess)
            && NewResult(ok, err, v.isSuccess, v.inner) == Ok(v)
  {
    hide TypeOf;
    var t := Expected(ok, err, b[0] == 1);
    assert FromBytes(t, b[1..]).Ok?;
    DecodedType(t, b[1..]);
  }
}
