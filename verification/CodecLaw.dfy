/**
 The prefix-codec law of the CLValue codec: decoding `bytes(v) ++ rest` by the type of v gives
 back v and leaves exactly `rest`, together with the exact places where the code breaks it.
 */
module CodecLaw {
  import opened Basics
  import opened Utf8
  import opened ByteConverters
  import opened CLTypes
  import opened CLValues

  predicate URefOk(u: URef) {
    |u.data| == 32 && u.access <= 7
  }

  predicate PublicKeyOk(pk: PublicKey) {
    (pk.alg == 1 && |pk.key| == 32) || (pk.alg == 2 && |pk.key| == 33)
  }

  predicate KeyOk(k: Key) {
    match k
    case HashKey(tag, hash) => IsHashTag(tag) && |hash| == 32
    case URefKey(u) => URefOk(u)
  }

  /** Types all of whose values are written in no bytes at all. */
  predicate ZeroWidth(t: CLType) {
    match t
    case Simple(k) => k == Unit
    case ByteArrayOf(n) => n == 0
    case Tuple1Of(a) => ZeroWidth(a)
    case Tuple2Of(a, b) => ZeroWidth(a) && ZeroWidth(b)
    case Tuple3Of(a, b, c) => ZeroWidth(a) && ZeroWidth(b) && ZeroWidth(c)
    case _ => false
  }

  /** No two entries are filed under the same key text: what `append` keeps true. */
  predicate DistinctKeys(es: seq<Entry>) {
    forall i, j :: 0 <= i < j < |es| ==> ToString(es[i].key) != ToString(es[j].key)
  }

  predicate LeafTravels(v: CLValue, atEnd: bool)
    requires IsLeaf(v)
  {
    match v
    case VBool(_) => true
    case VFixed(_, _) => true
    case VBig(_, n, z) => z ==> atEnd && n == 0
    case VUnit => atEnd
    case VString(s) => Ascii(s) && |s| < 0x1_0000_0000
    case VKey(k) => KeyOk(k) && (if k.HashKey? then k.tag != CHAINSPEC_TAG else atEnd)
    case VURef(u) => URefOk(u) && atEnd
    case VPublicKey(pk) => PublicKeyOk(pk)
    case VAny(_) => atEnd
    case VByteArray(n, b) => |b| == n
  }

  /**
   The values the decoder gives back. `atEnd` says the value is the last thing in the input:
   only there may Unit, Any, a URef or a kept [1, 0] occur.
   */
  predicate Travels(v: CLValue, atEnd: bool)
    decreases v, 1
  {
    if IsLeaf(v) then LeafTravels(v, atEnd)
    else if v.VList? || v.VMap? then ContainerTravels(v)
    else match v
    case VOption(c, t) => c.Some? ==> TypeOf(c.value) == t && Travels(c.value, atEnd)
    case VResult(t, e, ok, x) => TypeOf(x) == (if ok then t else e) && Travels(x, atEnd)
    case VTuple1(a) => Travels(a, atEnd)
    case VTuple2(a, b) => Travels(a, false) && Travels(b, atEnd)
    case VTuple3(a, b, c) => Travels(a, false) && Travels(b, false) && Travels(c, atEnd)
  }

  predicate ContainerTravels(v: CLValue)
    requires v.VList? || v.VMap?
    decreases v, 0
  {
    match v
    case VList(t, es) =>
      && t != Simple(Any)
      && (es == [] || !ZeroWidth(t))
      && forall i :: 0 <= i < |es| ==> TypeOf(es[i]) == t && Travels(es[i], false)
    case VMap(k, t, es) =>
      && (es == [] || !ZeroWidth(k) || !ZeroWidth(t))
      && DistinctKeys(es)
      && forall i :: 0 <= i < |es| ==> EntryTravels(es[i], k, t)
  }

  predicate EntryTravels(e: Entry, k: CLType, t: CLType)
    decreases e
  {
    TypeOf(e.key) == k && TypeOf(e.val) == t && Travels(e.key, false) && Travels(e.val, false)
  }

  // ------------------------------------------------------------ the leaves

  lemma StringRoundTrip(s: JsString, rest: Bytes)
    requires |s| < 0x1_0000_0000
    ensures Ascii(s) ==> StringFromBytes(StringBytes(s) + rest) == Ok((s, rest))
    ensures !Ascii(s) ==> StringFromBytes(StringBytes(s) + rest).Ok?
                          && |StringFromBytes(StringBytes(s) + rest).value.1| > |rest|
  {
    hide ToBytesNumber, LE, FromBytesFixed, Encode, Decode, Ascii;
    var b := StringBytes(s) + rest;
    U32RoundTrip(|s|, Encode(s) + rest);
    assert b == LE(|s|, 4) + (Encode(s) + rest);
    EncodeLength(s);
    if Ascii(s) {
      DecodeOfAscii(s);
      assert (Encode(s) + rest)[..|s|] == Encode(s) && (Encode(s) + rest)[|s|..] == rest;
    }
  }

  /** A string value comes back exactly when it is ASCII: the length written counts UTF-16 units, the text is UTF-8. */
  lemma StringTravelsExactlyWhenAscii(s: JsString, rest: Bytes)
    requires |s| < 0x1_0000_0000
    ensures FromBytes(Simple(String), ValueBytes(VString(s)).value + rest) == Ok((VString(s), rest)) <==> Ascii(s)
  {
    StringRoundTrip(s, rest);
  }

  lemma URefRoundTrip(u: URef)
    requires URefOk(u)
    ensures URefFromBytes(URefBytes(u)) == Ok((u, []))
  {
    assert URefBytes(u)[..32] == u.data;
  }

  /** A URef is only ever decoded from the end of the input. */
  lemma URefTravelsOnlyAtEnd(u: URef, rest: Bytes)
    requires URefOk(u)
    ensures URefFromBytes(URefBytes(u) + rest).Ok? <==> rest == []
  {
    if rest == [] {
      URefRoundTrip(u);
      assert URefBytes(u) + rest == URefBytes(u);
    }
  }

  lemma PublicKeyRoundTrip(pk: PublicKey, rest: Bytes)
    requires PublicKeyOk(pk)
    ensures PublicKeyFromBytes(PublicKeyBytes(pk) + rest) == Ok((pk, rest))
  {
    var b := PublicKeyBytes(pk) + rest;
    var size := |pk.key|;
    assert b[1..size + 1] == pk.key && b[size + 1..] == rest;
  }

  lemma HashKeyRoundTrip(k: Key, rest: Bytes)
    requires KeyOk(k) && k.HashKey? && (k.tag != CHAINSPEC_TAG || rest != [])
    ensures KeyFromBytes(KeyBytes(k) + rest) == Ok((k, rest))
  {
    var b := KeyBytes(k) + rest;
    assert b[1..33] == k.hash && b[33..] == rest;
  }

  /** A chainspec-registry key, kind 13, comes back exactly when something follows it. */
  lemma ChainspecKeyNeedsMore(hash: Bytes, rest: Bytes)
    requires |hash| == 32
    ensures KeyFromBytes(KeyBytes(HashKey(13, hash)) + rest) == Ok((HashKey(13, hash), rest)) <==> rest != []
  {
    if rest != [] {
      HashKeyRoundTrip(HashKey(13, hash), rest);
    }
  }

  /** Which bytes are a key for the decoder: fourteen kinds of one hash, and a URef that fills the input. */
  lemma WhichKeysDecode(b: Bytes)
    ensures KeyFromBytes(b).Ok? <==>
            b != [] && if b[0] == 2 then |b| == 34 && b[33] <= 7
                       else b[0] in {0, 1, 3, 4, 6, 7, 8, 9, 10, 11, 12, 13, 14, 16}
                            && |b| >= (if b[0] == 13 then 34 else 33)
  {
  }

  lemma NumberRoundTrip(v: CLValue, rest: Bytes)
    requires v.VFixed? || (v.VBig? && (v.zeroOne ==> v.n == 0 && rest == []))
    requires ValueBytes(v).Ok?
    ensures ValueBytes(v).value != []
    ensures FromBytes(TypeOf(v), ValueBytes(v).value + rest) == Ok((v, rest))
  {
    var b := ValueBytes(v).value;
    if v.VFixed? {
      FixedRoundTrip(BitSize(v.kind), Signed(v.kind), v.n, rest);
    } else if v.zeroOne {
      assert b + rest == [1, 0];
      assert FromLE([0]) == 0 + 256 * FromLE([0][1..]);
      assert [1, 0][1..2] == [0];
    } else {
      BigRoundTrip(BitSize(v.big), v.n, rest);
      BigIsNeverOneZero(BitSize(v.big), v.n, rest);
    }
  }

  /** A canonical big integer never starts with the bytes [1, 0]. */
  lemma BigIsNeverOneZero(bitSize: nat, n: int, rest: Bytes)
    requires 64 < bitSize <= 2040 && bitSize % 8 == 0
    requires ToBytesNumber(bitSize, false, n).Ok?
    ensures !([1, 0] <= ToBytesNumber(bitSize, false, n).value + rest)
  {
    ToBytesNumberAccepts(bitSize, false, n);
    ToBytesNumberBig(bitSize, n);
    var b := ToBytesNumber(bitSize, false, n).value;
    assert (b + rest)[0] == b[0];
    if n > 0 && b[0] == 1 {
      assert Pow256(1) == 256;
      assert LE(n, 1) == [n % 256] + LE(n / 256, 0);
      assert (b + rest)[1] == b[1] == n;
    }
  }

  lemma KeyRoundTrip(k: Key, rest: Bytes, atEnd: bool)
    requires LeafTravels(VKey(k), atEnd) && (atEnd ==> rest == [])
    ensures KeyFromBytes(KeyBytes(k) + rest) == Ok((k, rest))
  {
    if k.HashKey? {
      HashKeyRoundTrip(k, rest);
    } else {
      URefRoundTrip(k.uref);
      assert KeyBytes(k) + rest == [2] + URefBytes(k.uref);
    }
  }

  lemma LeafRoundTrip(v: CLValue, rest: Bytes, atEnd: bool)
    requires IsLeaf(v) && LeafTravels(v, atEnd) && LeafBytes(v).Ok? && (atEnd ==> rest == [])
    ensures FromBytes(TypeOf(v), LeafBytes(v).value + rest) == Ok((v, rest))
  {
    if v.VFixed? || v.VBig? {
      NumberRoundTrip(v, rest);
    } else if v.VByteArray? {
      assert (v.data + rest)[..v.size] == v.data && (v.data + rest)[v.size..] == rest;
    } else {
      SimpleRoundTrip(v, rest, atEnd);
    }
  }

  lemma SimpleRoundTrip(v: CLValue, rest: Bytes, atEnd: bool)
    requires IsLeaf(v) && !v.VFixed? && !v.VBig? && !v.VByteArray?
    requires LeafTravels(v, atEnd) && (atEnd ==> rest == [])
    ensures SimpleFromBytes(TypeOf(v).kind, LeafBytes(v).value + rest) == Ok((v, rest))
  {
    if v.VString? {
      StringRoundTrip(v.s, rest);
    } else if v.VKey? {
      KeyRoundTrip(v.k, rest, atEnd);
    } else if v.VPublicKey? {
      PublicKeyRoundTrip(v.pk, rest);
    } else {
      PlainRoundTrip(v, rest, atEnd);
    }
  }

  lemma PlainRoundTrip(v: CLValue, rest: Bytes, atEnd: bool)
    requires v.VBool? || v.VUnit? || v.VURef? || v.VAny?
    requires LeafTravels(v, atEnd) && (atEnd ==> rest == [])
    ensures SimpleFromBytes(TypeOf(v).kind, LeafBytes(v).value + rest) == Ok((v, rest))
  {
    if v.VBool? {
      BoolRoundTrip(v.b, rest);
    } else {
      assert LeafBytes(v).value + rest == LeafBytes(v).value;
      if v.VURef? {
        URefRoundTrip(v.uref);
      }
    }
  }

  lemma BoolRoundTrip(b: bool, rest: Bytes)
    ensures SimpleFromBytes(Bool, [if b then 1 else 0] + rest) == Ok((VBool(b), rest))
  {
    var all: Bytes := [if b then 1 else 0] + rest;
    assert all[1..] == rest;
  }

  // -------------------------------------------------------------- the law

  /** A value of a type of nonzero width writes at least one byte. */
  lemma {:induction false} WritesSomething(v: CLValue)
    requires Travels(v, false) && ValueBytes(v).Ok? && !ZeroWidth(TypeOf(v))
    ensures ValueBytes(v).value != []
    decreases v
  {
    if v.VFixed? || v.VBig? {
      NumberRoundTrip(v, [0]);
    } else if v.VTuple1? {
      WritesSomething(v.inner1);
    } else if v.VTuple2? {
      if !ZeroWidth(TypeOf(v.inner1)) { WritesSomething(v.inner1); } else { WritesSomething(v.inner2); }
    } else if v.VTuple3? {
      if !ZeroWidth(TypeOf(v.inner1)) { WritesSomething(v.inner1); }
      else if !ZeroWidth(TypeOf(v.inner2)) { WritesSomething(v.inner2); }
      else { WritesSomething(v.inner3); }
    } else if v.VList? {
    } else if v.VMap? {
    }
  }

  /** What the decoders of the composite types do once the parts decode. */
  lemma OptionStep(t: CLType, x: CLValue, xb: Bytes, rest: Bytes)
    requires FromBytes(t, xb + rest) == Ok((x, rest))
    ensures OptionFromBytes(OptionOf(t), [1] + xb + rest) == Ok((VOption(Some(x), t), rest))
  {
    hide FromBytes;
    assert ([1] + xb + rest)[1..] == xb + rest;
  }

  lemma ResultStep(t: CLType, e: CLType, ok: bool, x: CLValue, xb: Bytes, rest: Bytes)
    requires FromBytes(if ok then t else e, xb + rest) == Ok((x, rest))
    ensures ResultFromBytes(ResultOf(t, e), [if ok then 1 else 0] + xb + rest) == Ok((VResult(t, e, ok, x), rest))
  {
    hide FromBytes;
    var b: Bytes := [if ok then 1 else 0] + xb + rest;
    assert b[1..] == xb + rest;
  }

  lemma Tuple2Step(a: CLType, b: CLType, x: CLValue, y: CLValue, xb: Bytes, yb: Bytes, rest: Bytes)
    requires FromBytes(a, xb + (yb + rest)) == Ok((x, yb + rest))
    requires FromBytes(b, yb + rest) == Ok((y, rest))
    ensures Tuple2FromBytes(Tuple2Of(a, b), xb + yb + rest) == Ok((VTuple2(x, y), rest))
  {
    hide FromBytes;
    assert xb + yb + rest == xb + (yb + rest);
  }

  lemma Tuple3Step(a: CLType, b: CLType, c: CLType, x: CLValue, y: CLValue, z: CLValue,
                   xb: Bytes, yb: Bytes, zb: Bytes, rest: Bytes)
    requires FromBytes(a, xb + (yb + (zb + rest))) == Ok((x, yb + (zb + rest)))
    requires FromBytes(b, yb + (zb + rest)) == Ok((y, zb + rest))
    requires FromBytes(c, zb + rest) == Ok((z, rest))
    ensures Tuple3FromBytes(Tuple3Of(a, b, c), xb + yb + zb + rest) == Ok((VTuple3(x, y, z), rest))
  {
    hide FromBytes;
    Reassociate(xb, yb, zb, rest);
  }

  lemma ListStep(t: CLType, es: seq<CLValue>, size: Bytes, body: Bytes, rest: Bytes)
    requires t != Simple(Any) && ToBytesU32(|es|) == Ok(size)
    requires DecodeElems(ListOf(t), |es|, body + rest) == Ok((es, rest))
    ensures ListSpec(ListOf(t), size + body + rest) == Ok((VList(t, es), rest))
  {
    hide DecodeElems;
    U32RoundTrip(|es|, body + rest);
    var b := size + body + rest;
    assert b == size + (body + rest);
    assert FromBytesFixed(32, false, b) == Ok((|es|, body + rest));
  }

  lemma MapStep(k: CLType, t: CLType, es: seq<Entry>, size: Bytes, body: Bytes, rest: Bytes)
    requires ToBytesU32(|es|) == Ok(size)
    requires DecodeEntries(MapOf(k, t), |es|, body + rest, []) == Ok((es, rest))
    ensures MapSpec(MapOf(k, t), size + body + rest) == Ok((VMap(k, t, es), rest))
  {
    hide DecodeEntries;
    U32RoundTrip(|es|, body + rest);
    assert size + body + rest == size + (body + rest);
  }

  /** The prefix-codec law, for every value that travels and every rest of the input. */
  lemma {:induction false} RoundTrip(v: CLValue, rest: Bytes, atEnd: bool)
    requires Travels(v, atEnd) && ValueBytes(v).Ok? && (atEnd ==> rest == [])
    ensures FromBytes(TypeOf(v), ValueBytes(v).value + rest) == Ok((v, rest))
    decreases v, 1
  {
    if IsLeaf(v) {
      LeafRoundTrip(v, rest, atEnd);
    } else if v.VOption? || v.VResult? {
      TaggedRoundTrip(v, rest, atEnd);
    } else if v.VList? || v.VMap? {
      ContainerRoundTrip(v, rest);
    } else {
      TupleRoundTrip(v, rest, atEnd);
    }
  }

  lemma {:induction false} TaggedRoundTrip(v: CLValue, rest: Bytes, atEnd: bool)
    requires v.VOption? || v.VResult?
    requires Travels(v, atEnd) && TaggedBytes(v).Ok? && (atEnd ==> rest == [])
    ensures FromBytes(TypeOf(v), TaggedBytes(v).value + rest) == Ok((v, rest))
    decreases v, 0
  {
    match v
    case VOption(None, t) =>
      assert ([0] + rest)[1..] == rest;
    case VOption(Some(x), t) =>
      RoundTrip(x, rest, atEnd);
      OptionStep(t, x, ValueBytes(x).value, rest);
    case VResult(t, e, ok, x) =>
      RoundTrip(x, rest, atEnd);
      ResultStep(t, e, ok, x, ValueBytes(x).value, rest);
  }

  lemma {:induction false} TupleRoundTrip(v: CLValue, rest: Bytes, atEnd: bool)
    requires v.VTuple1? || v.VTuple2? || v.VTuple3?
    requires Travels(v, atEnd) && TupleBytes(v).Ok? && (atEnd ==> rest == [])
    ensures FromBytes(TypeOf(v), TupleBytes(v).value + rest) == Ok((v, rest))
    decreases v, 0
  {
    hide Tuple2FromBytes, Tuple3FromBytes, OptionFromBytes, ResultFromBytes, ListSpec, MapSpec, SimpleFromBytes;
    hide LeafBytes, ListBytes, MapBytes, TaggedBytes, LeafTravels, ContainerTravels;
    match v
    case VTuple1(a) =>
      RoundTrip(a, rest, atEnd);
    case VTuple2(a, b) =>
      var x, y := ValueBytes(a).value, ValueBytes(b).value;
      RoundTrip(a, y + rest, false);
      RoundTrip(b, rest, atEnd);
      Tuple2Step(TypeOf(a), TypeOf(b), a, b, x, y, rest);
    case VTuple3(a, b, c) =>
      var x, y, z := ValueBytes(a).value, ValueBytes(b).value, ValueBytes(c).value;
      RoundTrip(a, y + (z + rest), false);
      RoundTrip(b, z + rest, false);
      RoundTrip(c, rest, atEnd);
      Tuple3Step(TypeOf(a), TypeOf(b), TypeOf(c), a, b, c, x, y, z, rest);
  }

  lemma {:induction false} ContainerRoundTrip(v: CLValue, rest: Bytes)
    requires v.VList? || v.VMap?
    requires ContainerTravels(v) && ValueBytes(v).Ok?
    ensures FromBytes(TypeOf(v), ValueBytes(v).value + rest) == Ok((v, rest))
    decreases v, 0
  {
    hide ElemsBytes, EntriesBytes, DecodeElems, DecodeEntries, ListSpec, MapSpec, ToBytesNumber, Travels, EntryTravels;
    match v
    case VList(t, es) =>
      ElemsRoundTrip(ListOf(t), es, rest);
      ListStep(t, es, ToBytesU32(|es|).value, ElemsBytes(es).value, rest);
    case VMap(k, t, es) =>
      assert [] + es == es;
      EntriesRoundTrip(MapOf(k, t), es, rest, []);
      MapStep(k, t, es, ToBytesU32(|es|).value, EntriesBytes(es).value, rest);
  }

  lemma {:induction false} ElemsRoundTrip(t: CLType, es: seq<CLValue>, rest: Bytes)
    requires t.ListOf? && (es == [] || !ZeroWidth(t.elem))
    requires forall i :: 0 <= i < |es| ==> TypeOf(es[i]) == t.elem && Travels(es[i], false)
    requires ElemsBytes(es).Ok?
    ensures DecodeElems(t, |es|, ElemsBytes(es).value + rest) == Ok((es, rest))
    decreases es
  {
    if es == [] {
      assert [] + rest == rest;
    } else {
      var x, xs := ValueBytes(es[0]).value, ElemsBytes(es[1..]).value;
      RoundTrip(es[0], xs + rest, false);
      WritesSomething(es[0]);
      ElemsRoundTrip(t, es[1..], rest);
      assert x + xs + rest == x + (xs + rest);
      assert [es[0]] + es[1..] == es;
    }
  }

  lemma AppendDistinct(acc: seq<Entry>, es: seq<Entry>)
    requires es != [] && DistinctKeys(acc + es)
    ensures AppendEntry(acc, es[0]) == acc + [es[0]]
    ensures acc + [es[0]] + es[1..] == acc + es
  {
    assert (acc + es)[|acc|] == es[0];
    assert forall i :: 0 <= i < |acc| ==> (acc + es)[i] == acc[i];
  }

  lemma {:induction false} EntriesRoundTrip(t: CLType, es: seq<Entry>, rest: Bytes, acc: seq<Entry>)
    requires t.MapOf? && (es == [] || !ZeroWidth(t.key) || !ZeroWidth(t.val))
    requires forall i :: 0 <= i < |es| ==> EntryTravels(es[i], t.key, t.val)
    requires DistinctKeys(acc + es)
    requires EntriesBytes(es).Ok?
    ensures DecodeEntries(t, |es|, EntriesBytes(es).value + rest, acc) == Ok((acc + es, rest))
    decreases es
  {
    hide FromBytes, EntryTravels, AppendEntry, DistinctKeys, EntryBytes, ZeroWidth;
    if es == [] {
      assert [] + rest == rest && acc + es == acc;
    } else {
      var e := es[0];
      var b, bs := EntryBytes(e).value, EntriesBytes(es[1..]).value;
      EntryRoundTrip(e, t.key, t.val, bs + rest);
      assert b + bs + rest == b + (bs + rest);
      AppendDistinct(acc, es);
      EntriesRoundTrip(t, es[1..], rest, acc + [e]);
    }
  }

  lemma {:induction false} EntryRoundTrip(e: Entry, k: CLType, t: CLType, rest: Bytes)
    requires EntryTravels(e, k, t) && (!ZeroWidth(k) || !ZeroWidth(t)) && EntryBytes(e).Ok?
    ensures EntryBytes(e).value != []
    ensures FromBytes(k, EntryBytes(e).value + rest) == Ok((e.key, ValueBytes(e.val).value + rest))
    ensures FromBytes(t, ValueBytes(e.val).value + rest) == Ok((e.val, rest))
    decreases e
  {
    var x, y := ValueBytes(e.key).value, ValueBytes(e.val).value;
    RoundTrip(e.key, y + rest, false);
    RoundTrip(e.val, rest, false);
    if !ZeroWidth(k) { WritesSomething(e.key); } else { WritesSomething(e.val); }
    assert x + y + rest == x + (y + rest);
  }

  /** Elements of zero width are lost at the end of the input: the list comes back empty. */
  lemma ZeroWidthElementsAreDropped(t: CLType, es: seq<CLValue>)
    requires ZeroWidth(t) && ToBytesU32(|es|).Ok?
    requires forall i :: 0 <= i < |es| ==> ValueBytes(es[i]) == Ok([])
    ensures ValueBytes(VList(t, es)).Ok?
    ensures FromBytes(ListOf(t), ValueBytes(VList(t, es)).value) == Ok((VList(t, []), []))
  {
    var size := ToBytesU32(|es|).value;
    assert ListBytes(VList(t, es)) == Ok(size) by {
      hide ToBytesNumber, ElemsBytes;
      EmptyElems(es);
      assert size + [] == size;
    }
    assert ListSpec(ListOf(t), size) == Ok((VList(t, []), [])) by {
      hide FromBytesFixed, ToBytesNumber;
      U32RoundTrip(|es|, []);
      assert size + [] == size;
    }
  }

  lemma {:induction false} EmptyElems(es: seq<CLValue>)
    requires forall i :: 0 <= i < |es| ==> ValueBytes(es[i]) == Ok([])
    ensures ElemsBytes(es) == Ok([])
  {
    if es != [] {
      EmptyElems(es[1..]);
      var none: Bytes := [];
      assert none + none == none;
    }
  }
}
