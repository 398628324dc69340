/** CLType descriptors and their byte form (src/types/clvalue/cltype). */
module CLTypes {
  import opened Basics
  import opened ByteConverters

  datatype SimpleKind =
    | Bool | I32 | I64 | U8 | U32 | U64 | U128 | U256 | U512
    | Unit | String | Key | URef | Any | PublicKey

  datatype CLType =
    | Simple(kind: SimpleKind)
    | OptionOf(inner: CLType)
    | ListOf(elem: CLType)
    | ByteArrayOf(size: nat)
    | ResultOf(ok: CLType, err: CLType)
    | MapOf(key: CLType, val: CLType)
    | Tuple1Of(inner1: CLType)
    | Tuple2Of(inner1: CLType, inner2: CLType)
    | Tuple3Of(inner1: CLType, inner2: CLType, inner3: CLType)

  /** `TypeID` of the simple types. */
  function SimpleTag(k: SimpleKind): (tag: Byte)
  {
    match k
    case Bool => 0
    case I32 => 1
    case I64 => 2
    case U8 => 3
    case U32 => 4
    case U64 => 5
    case U128 => 6
    case U256 => 7
    case U512 => 8
    case Unit => 9
    case String => 10
    case Key => 11
    case URef => 12
    case Any => 21
    case PublicKey => 22
  }

  /** `CLTypeParser.simpleTypeByID`. */
  function SimpleOf(tag: Byte): (k: Option<SimpleKind>)
    ensures k.Some? ==> SimpleTag(k.value) == tag
    ensures k.None? ==> forall s :: SimpleTag(s) != tag
  {
    match tag
    case 0 => Some(Bool)
    case 1 => Some(I32)
    case 2 => Some(I64)
    case 3 => Some(U8)
    case 4 => Some(U32)
    case 5 => Some(U64)
    case 6 => Some(U128)
    case 7 => Some(U256)
    case 8 => Some(U512)
    case 9 => Some(Unit)
    case 10 => Some(String)
    case 11 => Some(Key)
    case 12 => Some(URef)
    case 21 => Some(Any)
    case 22 => Some(PublicKey)
    case _ => None
  }

  /** `CLType.toBytes`: the tag, then the children; a byte array carries its size. */
  function TypeBytes(t: CLType): (r: Result<Bytes>)
    ensures r.Ok? ==> r.value != []
  {
    match t
    case Simple(k) => Ok([SimpleTag(k)])
    case OptionOf(a) =>
      var x :- TypeBytes(a);
      Ok([13] + x)
    case ListOf(a) =>
      var x :- TypeBytes(a);
      Ok([14] + x)
    case ByteArrayOf(n) =>
      var x :- ToBytesU32(n);
      Ok([15] + x)
    case ResultOf(a, b) =>
      var x :- TypeBytes(a);
      var y :- TypeBytes(b);
      Ok([16] + x + y)
    case MapOf(a, b) =>
      var x :- TypeBytes(a);
      var y :- TypeBytes(b);
      Ok([17] + x + y)
    case Tuple1Of(a) =>
      var x :- TypeBytes(a);
      Ok([18] + x)
    case Tuple2Of(a, b) =>
      var x :- TypeBytes(a);
      var y :- TypeBytes(b);
      Ok([19] + x + y)
    case Tuple3Of(a, b, c) =>
      var x :- TypeBytes(a);
      var y :- TypeBytes(b);
      var z :- TypeBytes(c);
      Ok([20] + x + y + z)
  }

  /** The simple types numbered from 0, up to the two at the end. */
  const NUMBERED: seq<SimpleKind> := [Bool, I32, I64, U8, U32, U64, U128, U256, U512, Unit, String, Key, URef]

  /** A simple type is its tag, in numerals. */
  lemma SimpleTags(i: nat)
    requires i < 13
    ensures TypeBytes(Simple(NUMBERED[i])) == Ok([i])
    ensures TypeBytes(Simple(Any)) == Ok([21]) && TypeBytes(Simple(PublicKey)) == Ok([22])
  {
  }

  /** The tag in front of every other type's bytes, in numerals. */
  lemma CompositeTags(t: CLType)
    requires TypeBytes(t).Ok? && !t.Simple?
    ensures TypeBytes(t).value[0] == match t
                                     case OptionOf(_) => 13
                                     case ListOf(_) => 14
                                     case ByteArrayOf(_) => 15
                                     case ResultOf(_, _) => 16
                                     case MapOf(_, _) => 17
                                     case Tuple1Of(_) => 18
                                     case Tuple2Of(_, _) => 19
                                     case Tuple3Of(_, _, _) => 20
  {
    hide ToBytesU32;
  }

  /** `CLTypeParser.matchBytesToCLType`. */
  function MatchBytesToType(b: Bytes): (r: Result<(CLType, Bytes)>)
    ensures r.Ok? ==> |r.value.1| < |b|
    decreases |b|, 1
  {
    if b == [] then Err(UnknownTag)
    else if SimpleOf(b[0]).Some? then Ok((Simple(SimpleOf(b[0]).value), b[1..]))
    else if b[0] == 13 || b[0] == 14 || b[0] == 18 then MatchOneChild(b)
    else if b[0] == 16 || b[0] == 17 || b[0] == 19 then MatchTwoChildren(b)
    else if b[0] == 20 then MatchThreeChildren(b)
    else if b[0] == 15 then
      var (n, r1) :- FromBytesFixed(32, false, b[1..]);
      Ok((ByteArrayOf(n), r1))
    else Err(UnknownTag)
  }

  /** The types with one, two and three children, by tag. */
  function OneChildType(tag: Byte, a: CLType): (t: CLType) {
    if tag == 13 then OptionOf(a) else if tag == 14 then ListOf(a) else Tuple1Of(a)
  }

  function TwoChildrenType(tag: Byte, a: CLType, c: CLType): (t: CLType) {
    if tag == 16 then ResultOf(a, c) else if tag == 17 then MapOf(a, c) else Tuple2Of(a, c)
  }

  function MatchOneChild(b: Bytes): (r: Result<(CLType, Bytes)>)
    requires b != []
    ensures r.Ok? ==> |r.value.1| < |b|
    decreases |b|, 0
  {
    var (a, r1) :- MatchBytesToType(b[1..]);
    Ok((OneChildType(b[0], a), r1))
  }

  function MatchTwoChildren(b: Bytes): (r: Result<(CLType, Bytes)>)
    requires b != []
    ensures r.Ok? ==> |r.value.1| < |b|
    decreases |b|, 0
  {
    var (a, r1) :- MatchBytesToType(b[1..]);
    var (c, r2) :- MatchBytesToType(r1);
    Ok((TwoChildrenType(b[0], a, c), r2))
  }

  function MatchThreeChildren(b: Bytes): (r: Result<(CLType, Bytes)>)
    requires b != []
    ensures r.Ok? ==> |r.value.1| < |b|
    decreases |b|, 0
  {
    var (a, r1) :- MatchBytesToType(b[1..]);
    var (c, r2) :- MatchBytesToType(r1);
    var (d, r3) :- MatchBytesToType(r2);
    Ok((Tuple3Of(a, c, d), r3))
  }

  lemma Dispatch(b: Bytes)
    requires b != []
    ensures b[0] == 13 || b[0] == 14 || b[0] == 18 ==> MatchBytesToType(b) == MatchOneChild(b)
    ensures b[0] == 16 || b[0] == 17 || b[0] == 19 ==> MatchBytesToType(b) == MatchTwoChildren(b)
    ensures b[0] == 20 ==> MatchBytesToType(b) == MatchThreeChildren(b)
  {
    hide MatchOneChild, MatchTwoChildren, MatchThreeChildren;
  }

  /** What the parser does after a tag whose children it can parse. */
  lemma OneChildStep(tag: Byte, x: Bytes, a: CLType, rest: Bytes)
    requires MatchBytesToType(x + rest) == Ok((a, rest))
    ensures MatchOneChild([tag] + x + rest) == Ok((OneChildType(tag, a), rest))
  {
    hide MatchBytesToType;
    assert ([tag] + x + rest)[1..] == x + rest;
  }

  lemma TwoChildrenStep(tag: Byte, x: Bytes, a: CLType, y: Bytes, c: CLType, rest: Bytes)
    requires MatchBytesToType(x + (y + rest)) == Ok((a, y + rest))
    requires MatchBytesToType(y + rest) == Ok((c, rest))
    ensures MatchTwoChildren([tag] + x + y + rest) == Ok((TwoChildrenType(tag, a, c), rest))
  {
    hide MatchBytesToType;
    assert ([tag] + x + y + rest)[1..] == x + (y + rest);
  }

  lemma ThreeChildrenStep(x: Bytes, a: CLType, y: Bytes, c: CLType, z: Bytes, d: CLType, rest: Bytes)
    requires MatchBytesToType(x + (y + (z + rest))) == Ok((a, y + (z + rest)))
    requires MatchBytesToType(y + (z + rest)) == Ok((c, z + rest))
    requires MatchBytesToType(z + rest) == Ok((d, rest))
    ensures MatchThreeChildren([20] + x + y + z + rest) == Ok((Tuple3Of(a, c, d), rest))
  {
    hide MatchBytesToType;
    Reassociate(x, y, z, rest);
    var b: Bytes := [20] + x + y + z + rest;
    assert b == [20] + (x + y + z + rest);
    assert b[1..] == x + (y + (z + rest));
  }

  lemma MatchLeaf(t: CLType, rest: Bytes)
    requires t.Simple? || t.ByteArrayOf?
    requires TypeBytes(t).Ok?
    ensures MatchBytesToType(TypeBytes(t).value + rest) == Ok((t, rest))
  {
    var b := TypeBytes(t).value + rest;
    if t.Simple? {
      assert SimpleOf(SimpleTag(t.kind)) == Some(t.kind);
      assert b[1..] == rest;
    } else {
      U32RoundTrip(t.size, rest);
      assert b[1..] == ToBytesU32(t.size).value + rest;
    }
  }

  /** The type parser inverts the type encoder and leaves the rest of the input. */
  lemma {:induction false} TypeRoundTrip(t: CLType, rest: Bytes)
    requires TypeBytes(t).Ok?
    ensures MatchBytesToType(TypeBytes(t).value + rest) == Ok((t, rest))
  {
    hide MatchBytesToType, MatchOneChild, MatchTwoChildren, MatchThreeChildren;
    if t.Simple? || t.ByteArrayOf? {
      MatchLeaf(t, rest);
    } else if t.OptionOf? || t.ListOf? || t.Tuple1Of? {
      var tag: Byte, a := if t.OptionOf? then 13 else if t.ListOf? then 14 else 18,
                          if t.OptionOf? then t.inner else if t.ListOf? then t.elem else t.inner1;
      TypeRoundTrip(a, rest);
      OneChildStep(tag, TypeBytes(a).value, a, rest);
      Dispatch([tag] + TypeBytes(a).value + rest);
    } else if t.Tuple3Of? {
      var a, c, d := t.inner1, t.inner2, t.inner3;
      var x, y, z := TypeBytes(a).value, TypeBytes(c).value, TypeBytes(d).value;
      TypeRoundTrip(d, rest);
      TypeRoundTrip(c, z + rest);
      TypeRoundTrip(a, y + (z + rest));
      ThreeChildrenStep(x, a, y, c, z, d, rest);
      Dispatch([20] + x + y + z + rest);
    } else {
      var tag: Byte, a, c := if t.ResultOf? then 16 else if t.MapOf? then 17 else 19,
                             if t.ResultOf? then t.ok else if t.MapOf? then t.key else t.inner1,
                             if t.ResultOf? then t.err else if t.MapOf? then t.val else t.inner2;
      var x, y := TypeBytes(a).value, TypeBytes(c).value;
      TypeRoundTrip(c, rest);
      TypeRoundTrip(a, y + rest);
      TwoChildrenStep(tag, x, a, y, c, rest);
      Dispatch([tag] + x + y + rest);
    }
  }

  /** Equal descriptor bytes come from equal types, whatever follows them. */
  lemma TypeBytesPrefixFree(s: CLType, t: CLType, q: Bytes, r: Bytes)
    requires TypeBytes(s).Ok? && TypeBytes(t).Ok?
    requires TypeBytes(s).value + q == TypeBytes(t).value + r
    ensures s == t && q == r
  {
    TypeRoundTrip(s, q);
    TypeRoundTrip(t, r);
  }
}
