/**
 The layout of every CLValue, given by a reader that follows the format and not the code: it
 shares no tag and no width with the encoder, and reads back whatever the encoder writes, up to the
 lone surrogates that UTF-8 replaces. It goes further than the SDK's decoder: strings beyond
 ASCII, URefs and Unit anywhere, elements of zero width. Bytes therefore determine values.
 */
module UniqueDecoding {
  import opened Basics
  import opened Utf8
  import opened ByteConverters
  import opened CLTypes
  import opened CLValues
  import opened CodecLaw
  import opened NumberLayouts

  /** Text short enough for its length to fit the prefix. */
  predicate TextOk(s: JsString) {
    |s| < 0x1_0000_0000
  }

  predicate LeafProper(v: CLValue, atEnd: bool)
    requires IsLeaf(v)
  {
    match v
    case VBool(_) => true
    case VFixed(_, _) => true
    case VBig(_, n, z) => z ==> n == 0
    case VUnit => true
    case VString(s) => TextOk(s)
    case VKey(k) => KeyOk(k)
    case VURef(u) => URefOk(u)
    case VPublicKey(pk) => PublicKeyOk(pk)
    case VAny(_) => atEnd
    case VByteArray(n, b) => |b| == n
  }

  /** Values whose parts have the declared types; Any, which has no length, only at the end. */
  predicate Proper(v: CLValue, atEnd: bool)
    decreases v, 1
  {
    if IsLeaf(v) then LeafProper(v, atEnd)
    else if v.VList? || v.VMap? then ContainerProper(v)
    else match v
    case VOption(c, t) => c.Some? ==> TypeOf(c.value) == t && Proper(c.value, atEnd)
    case VResult(t, e, ok, x) => TypeOf(x) == (if ok then t else e) && Proper(x, atEnd)
    case VTuple1(a) => Proper(a, atEnd)
    case VTuple2(a, b) => Proper(a, false) && Proper(b, atEnd)
    case VTuple3(a, b, c) => Proper(a, false) && Proper(b, false) && Proper(c, atEnd)
  }

  predicate ContainerProper(v: CLValue)
    requires v.VList? || v.VMap?
    decreases v, 0
  {
    match v
    case VList(t, es) => t != Simple(Any) && forall i :: 0 <= i < |es| ==> TypeOf(es[i]) == t && Proper(es[i], false)
    case VMap(k, t, es) => forall i :: 0 <= i < |es| ==> EntryProper(es[i], k, t)
  }

  predicate EntryProper(e: Entry, k: CLType, t: CLType)
    decreases e
  {
    TypeOf(e.key) == k && TypeOf(e.val) == t && Proper(e.key, false) && Proper(e.val, false)
  }

  // --------------------------------------------------------- what is written

  /** The value with every string as it is written: lone surrogates replaced. */
  function NormValue(v: CLValue): (w: CLValue)
    decreases v
  {
    if v.VString? then VString(NormText(v.s))
    else if v.VOption? then
      VOption(if v.content.None? then None else Some(NormValue(v.content.value)), v.innerType)
    else if v.VList? then VList(v.elemType, NormElems(v.elems))
    else if v.VResult? then VResult(v.okType, v.errType, v.isSuccess, NormValue(v.inner))
    else if v.VMap? then VMap(v.keyType, v.valType, NormEntries(v.entries))
    else if v.VTuple1? then VTuple1(NormValue(v.inner1))
    else if v.VTuple2? then VTuple2(NormValue(v.inner1), NormValue(v.inner2))
    else if v.VTuple3? then VTuple3(NormValue(v.inner1), NormValue(v.inner2), NormValue(v.inner3))
    else v
  }

  function NormElems(es: seq<CLValue>): (fs: seq<CLValue>)
    ensures |fs| == |es|
    decreases es
  {
    if es == [] then [] else [NormValue(es[0])] + NormElems(es[1..])
  }

  function NormEntry(e: Entry): (f: Entry)
    decreases e
  {
    Entry(NormValue(e.key), NormValue(e.val))
  }

  function NormEntries(es: seq<Entry>): (fs: seq<Entry>)
    ensures |fs| == |es|
    decreases es
  {
    if es == [] then [] else [NormEntry(es[0])] + NormEntries(es[1..])
  }

  lemma NormTextBytes(s: JsString)
    ensures StringBytes(NormText(s)) == StringBytes(s)
    ensures TextOk(NormText(s)) <==> TextOk(s)
  {
    hide NormText, LE, Encode;
    NormTextKeeps(s);
  }

  /** The replacement changes neither the type of a value nor what it writes. */
  lemma {:induction false} NormValueBytes(v: CLValue)
    ensures TypeOf(NormValue(v)) == TypeOf(v)
    ensures ValueBytes(NormValue(v)) == ValueBytes(v)
    decreases v
  {
    hide NormText, StringBytes, KeyBytes, URefBytes, PublicKeyBytes, ToBytesNumber, ToBytesU32;
    if v.VString? {
      NormTextBytes(v.s);
    } else if v.VOption? {
      if v.content.Some? {
        NormValueBytes(v.content.value);
      }
    } else if v.VList? {
      NormElemsBytes(v.elems);
    } else if v.VResult? {
      NormValueBytes(v.inner);
    } else if v.VMap? {
      NormEntriesBytes(v.entries);
    } else if v.VTuple1? {
      NormValueBytes(v.inner1);
    } else if v.VTuple2? {
      NormValueBytes(v.inner1);
      NormValueBytes(v.inner2);
    } else if v.VTuple3? {
      NormValueBytes(v.inner1);
      NormValueBytes(v.inner2);
      NormValueBytes(v.inner3);
    }
  }

  lemma {:induction false} NormElemsBytes(es: seq<CLValue>)
    ensures ElemsBytes(NormElems(es)) == ElemsBytes(es)
    decreases es
  {
    hide ValueBytes, NormValue;
    if es != [] {
      NormValueBytes(es[0]);
      NormElemsBytes(es[1..]);
      assert NormElems(es)[1..] == NormElems(es[1..]);
    }
  }

  lemma {:induction false} NormEntriesBytes(es: seq<Entry>)
    ensures EntriesBytes(NormEntries(es)) == EntriesBytes(es)
    decreases es
  {
    hide EntryBytes, NormEntry;
    if es != [] {
      NormEntryBytes(es[0]);
      NormEntriesBytes(es[1..]);
      assert NormEntries(es)[1..] == NormEntries(es[1..]);
    }
  }

  lemma {:induction false} NormEntryBytes(e: Entry)
    ensures EntryBytes(NormEntry(e)) == EntryBytes(e)
    decreases e
  {
    hide ValueBytes, NormValue;
    NormValueBytes(e.key);
    NormValueBytes(e.val);
  }

  // ------------------------------------------------------------- the reader

  function ReadByte(b: Bytes): (r: Parsed<Byte>) {
    if b == [] then Err(EarlyEnd) else Ok((b[0], b[1..]))
  }

  function ReadBytes(b: Bytes, n: nat): (r: Parsed<Bytes>) {
    if |b| < n then Err(EarlyEnd) else Ok((b[..n], b[n..]))
  }

  /** A number in k bytes, least significant first. */
  function ReadLE(b: Bytes, k: nat): (r: Parsed<nat>) {
    if |b| < k then Err(EarlyEnd) else Ok((FromLE(b[..k]), b[k..]))
  }

  /** The number of UTF-16 units in four bytes, then that many units of UTF-8. */
  function ReadText(b: Bytes): (r: Parsed<JsString>) {
    var (n, rest) :- ReadLE(b, 4);
    var text := ReadUnits(rest, n);
    if text.None? then Err(EarlyEnd) else Ok(text.value)
  }

  function ReadURef(b: Bytes): (r: Parsed<URef>) {
    var (data, r1) :- ReadBytes(b, 32);
    var (access, rest) :- ReadByte(r1);
    Ok((URef.URef(data, access), rest))
  }

  /** Tag 2 is a URef of 33 bytes; the other kinds are 32 bytes. */
  function ReadKey(b: Bytes): (r: Parsed<Key>) {
    var (tag, r1) :- ReadByte(b);
    if tag == 2 then
      var (u, rest) :- ReadURef(r1);
      Ok((URefKey(u), rest))
    else
      var (hash, rest) :- ReadBytes(r1, 32);
      Ok((HashKey(tag, hash), rest))
  }

  /** Algorithm 1 has keys of 32 bytes, algorithm 2 of 33. */
  function ReadPublicKey(b: Bytes): (r: Parsed<PublicKey>) {
    var (alg, r1) :- ReadByte(b);
    if alg != 1 && alg != 2 then Err(UnknownTag)
    else
      var (key, rest) :- ReadBytes(r1, if alg == 1 then 32 else 33);
      Ok((PublicKey.PublicKey(alg, key), rest))
  }

  /** Up to 64 bits as many bytes as the width has; beyond, a count and that many bytes. */
  function ReadNumber(k: SimpleKind, b: Bytes): (r: Parsed<CLValue>)
    requires IsFixed(k) || IsBig(k)
  {
    if IsBig(k) then
      var (j, r1) :- ReadByte(b);
      var (n, rest) :- ReadLE(r1, j);
      Ok((VBig(k, n, j == 1 && n == 0), rest))
    else
      var (n, rest) :- ReadLE(b, match k case U8 => 1 case I32 => 4 case U32 => 4 case I64 => 8 case U64 => 8);
      if k == I32 && n >= 0x8000_0000 then Ok((VFixed(k, n - 0x1_0000_0000), rest))
      else if k == I64 && n >= 0x8000_0000_0000_0000 then Ok((VFixed(k, n - 0x1_0000_0000_0000_0000), rest))
      else Ok((VFixed(k, n), rest))
  }

  function ReadSimple(k: SimpleKind, b: Bytes): (r: Parsed<CLValue>) {
    if IsFixed(k) || IsBig(k) then ReadNumber(k, b)
    else match k
    case Bool =>
      var (x, rest) :- ReadByte(b);
      if x > 1 then Err(InvalidFormat) else Ok((VBool(x == 1), rest))
    case Unit => Ok((VUnit, b))
    case String =>
      var (s, rest) :- ReadText(b);
      Ok((VString(s), rest))
    case Key =>
      var (key, rest) :- ReadKey(b);
      Ok((VKey(key), rest))
    case URef =>
      var (u, rest) :- ReadURef(b);
      Ok((VURef(u), rest))
    case PublicKey =>
      var (pk, rest) :- ReadPublicKey(b);
      Ok((VPublicKey(pk), rest))
    case Any => Ok((VAny(b), []))
  }

  /** A value of a type and what follows it. */
  function ReadValue(t: CLType, b: Bytes): (r: Parsed<CLValue>)
    decreases t, 1, 0
  {
    match t
    case Simple(k) => ReadSimple(k, b)
    case ByteArrayOf(n) =>
      var (x, rest) :- ReadBytes(b, n);
      Ok((VByteArray(n, x), rest))
    case OptionOf(a) =>
      var (tag, r1) :- ReadByte(b);
      if tag == 0 then Ok((VOption(None, a), r1))
      else if tag > 1 then Err(UnknownTag)
      else
        var (x, rest) :- ReadValue(a, r1);
        Ok((VOption(Some(x), a), rest))
    case ResultOf(a, e) =>
      var (tag, r1) :- ReadByte(b);
      if tag > 1 then Err(UnknownTag)
      else
        var (x, rest) :- ReadValue(if tag == 1 then a else e, r1);
        Ok((VResult(a, e, tag == 1, x), rest))
    case ListOf(a) =>
      var (n, r1) :- ReadLE(b, 4);
      var (es, rest) :- ReadElems(a, n, r1);
      Ok((VList(a, es), rest))
    case MapOf(k, a) =>
      var (n, r1) :- ReadLE(b, 4);
      var (es, rest) :- ReadEntries(k, a, n, r1);
      Ok((VMap(k, a, es), rest))
    case Tuple1Of(a) =>
      var (x, rest) :- ReadValue(a, b);
      Ok((VTuple1(x), rest))
    case Tuple2Of(a, c) =>
      var (x, r1) :- ReadValue(a, b);
      var (y, rest) :- ReadValue(c, r1);
      Ok((VTuple2(x, y), rest))
    case Tuple3Of(a, c, d) =>
      var (x, r1) :- ReadValue(a, b);
      var (y, r2) :- ReadValue(c, r1);
      var (z, rest) :- ReadValue(d, r2);
      Ok((VTuple3(x, y, z), rest))
  }

  function ReadElems(t: CLType, n: nat, b: Bytes): (r: Parsed<seq<CLValue>>)
    decreases t, 2, n
  {
    if n == 0 then Ok(([], b))
    else
      var (x, r1) :- ReadValue(t, b);
      var (xs, rest) :- ReadElems(t, n - 1, r1);
      Ok(([x] + xs, rest))
  }

  function ReadEntries(k: CLType, t: CLType, n: nat, b: Bytes): (r: Parsed<seq<Entry>>)
    decreases MapOf(k, t), 0, n
  {
    if n == 0 then Ok(([], b))
    else
      var (x, r1) :- ReadValue(k, b);
      var (y, r2) :- ReadValue(t, r1);
      var (es, rest) :- ReadEntries(k, t, n - 1, r2);
      Ok(([Entry(x, y)] + es, rest))
  }

  // ------------------------------------------------------------ the leaves

  lemma ReadBytesBack(x: Bytes, rest: Bytes)
    ensures ReadBytes(x + rest, |x|) == Ok((x, rest))
  {
    assert (x + rest)[..|x|] == x && (x + rest)[|x|..] == rest;
  }

  lemma ReadLEBack(n: nat, k: nat, rest: Bytes)
    requires n < Pow256(k)
    ensures ReadLE(LE(n, k) + rest, k) == Ok((n, rest))
  {
    hide LE, FromLE;
    FromLEOfLE(n, k);
    var b := LE(n, k);
    assert (b + rest)[..k] == b && (b + rest)[k..] == rest;
  }

  /** The four-byte lengths in front of everything. */
  lemma ReadSizeBack(n: nat, rest: Bytes)
    requires n < 0x1_0000_0000
    ensures ReadLE(LE(n, 4) + rest, 4) == Ok((n, rest))
  {
    hide LE, ReadLE, Pow256;
    SmallPowers();
    ReadLEBack(n, 4, rest);
  }

  lemma ReadTextBack(s: JsString, rest: Bytes)
    requires TextOk(s)
    ensures ReadText(StringBytes(s) + rest) == Ok((NormText(s), rest))
  {
    hide LE, Encode, NormText, ReadLE, ReadUnits;
    assert StringBytes(s) + rest == LE(|s|, 4) + (Encode(s) + rest);
    ReadSizeBack(|s|, Encode(s) + rest);
    ReadUnitsOfEncode(s, rest);
  }

  lemma ReadURefBack(u: URef, rest: Bytes)
    requires URefOk(u)
    ensures ReadURef(URefBytes(u) + rest) == Ok((u, rest))
  {
    assert URefBytes(u) + rest == u.data + ([u.access] + rest);
    ReadBytesBack(u.data, [u.access] + rest);
  }

  lemma ReadKeyBack(k: Key, rest: Bytes)
    requires KeyOk(k)
    ensures ReadKey(KeyBytes(k) + rest) == Ok((k, rest))
  {
    hide ReadURef, URefBytes, ReadBytes, URefOk;
    if k.URefKey? {
      assert (KeyBytes(k) + rest)[1..] == URefBytes(k.uref) + rest;
      ReadURefBack(k.uref, rest);
    } else {
      assert (KeyBytes(k) + rest)[1..] == k.hash + rest;
      ReadBytesBack(k.hash, rest);
    }
  }

  lemma ReadPublicKeyBack(pk: PublicKey, rest: Bytes)
    requires PublicKeyOk(pk)
    ensures ReadPublicKey(PublicKeyBytes(pk) + rest) == Ok((pk, rest))
  {
    assert (PublicKeyBytes(pk) + rest)[1..] == pk.key + rest;
    ReadBytesBack(pk.key, rest);
  }

  lemma ReadFixedBack(k: FixedKind, n: int, rest: Bytes)
    requires ValueBytes(VFixed(k, n)).Ok?
    ensures ReadNumber(k, ValueBytes(VFixed(k, n)).value + rest) == Ok((VFixed(k, n), rest))
  {
    hide ValueBytes, LE, ReadLE, Pow256;
    FixedLayout(n);
    SmallPowers();
    var w := match k case U8 => 1 case I32 => 4 case U32 => 4 case I64 => 8 case U64 => 8;
    var m := if n >= 0 then n else if w == 4 then n + 0x1_0000_0000 else n + 0x1_0000_0000_0000_0000;
    ReadLEBack(m, w, rest);
  }

  lemma ReadBigBack(k: BigKind, n: int, z: bool, rest: Bytes)
    requires ValueBytes(VBig(k, n, z)).Ok? && (z ==> n == 0)
    ensures ReadNumber(k, ValueBytes(VBig(k, n, z)).value + rest) == Ok((VBig(k, n, z), rest))
  {
    hide ValueBytes, LE, ReadLE, Pow256;
    BigLayout(k, n);
    BigLayout(k, 0);
    var b := ValueBytes(VBig(k, n, z)).value;
    if z {
      OneZero();
      ReadLEBack(0, 1, rest);
      assert ([1, 0] + rest)[1..] == [0] + rest;
    } else if n == 0 {
      NoBytes(rest);
      assert ([0] + rest)[1..] == rest;
    } else {
      var j: Byte :| j >= 1 && Pow256(j - 1) <= n < Pow256(j) && b == [j] + LE(n, j);
      ReadLEBack(n, j, rest);
      assert (b + rest)[1..] == LE(n, j) + rest;
    }
  }

  lemma OneZero()
    ensures LE(0, 1) == [0] && Pow256(1) == 256
  {
  }

  lemma NoBytes(b: Bytes)
    ensures ReadLE(b, 0) == Ok((0, b))
  {
    assert b[..0] == [] && b[0..] == b;
  }

  lemma ReadLeafBack(v: CLValue, rest: Bytes, atEnd: bool)
    requires IsLeaf(v) && LeafProper(v, atEnd) && LeafBytes(v).Ok? && (atEnd ==> rest == [])
    ensures ReadValue(TypeOf(v), LeafBytes(v).value + rest) == Ok((NormValue(v), rest))
  {
    hide LeafBytes, ReadNumber, ReadBytes;
    assert ValueBytes(v) == LeafBytes(v);
    match v
    case VFixed(k, n) => ReadFixedBack(k, n, rest);
    case VBig(k, n, z) => ReadBigBack(k, n, z, rest);
    case VByteArray(_, b) =>
      assert LeafBytes(v) == Ok(b) by { ByteArrayIsItself(v); }
      ReadBytesBack(b, rest);
    case _ => ReadPlainBack(v, rest, atEnd);
  }

  lemma ByteArrayIsItself(v: CLValue)
    requires v.VByteArray?
    ensures LeafBytes(v) == Ok(v.data)
  {
  }

  lemma ReadPlainBack(v: CLValue, rest: Bytes, atEnd: bool)
    requires IsLeaf(v) && !v.VFixed? && !v.VBig? && !v.VByteArray?
    requires LeafProper(v, atEnd) && (atEnd ==> rest == [])
    ensures LeafBytes(v).Ok? && ReadSimple(TypeOf(v).kind, LeafBytes(v).value + rest) == Ok((NormValue(v), rest))
  {
    hide StringBytes, KeyBytes, URefBytes, PublicKeyBytes, ReadText, ReadKey, ReadURef, ReadPublicKey, NormText,
         ToBytesNumber, TextOk, KeyOk, URefOk, PublicKeyOk;
    match v
    case VString(s) => ReadTextBack(s, rest);
    case VKey(k) => ReadKeyBack(k, rest);
    case VURef(u) => ReadURefBack(u, rest);
    case VPublicKey(pk) => ReadPublicKeyBack(pk, rest);
    case VBool(b) => assert ([if b then 1 else 0] + rest)[1..] == rest;
    case VUnit => assert [] + rest == rest;
    case VAny(b) => assert b + rest == b;
  }

  // -------------------------------------------------------- the composites

  /** The reader gives back every proper value as it was written, and exactly what followed it. */
  lemma {:induction false} ReadBack(v: CLValue, rest: Bytes, atEnd: bool)
    requires Proper(v, atEnd) && ValueBytes(v).Ok? && (atEnd ==> rest == [])
    ensures ReadValue(TypeOf(v), ValueBytes(v).value + rest) == Ok((NormValue(v), rest))
    decreases v, 1
  {
    if IsLeaf(v) {
      ReadLeafBack(v, rest, atEnd);
    } else if v.VOption? || v.VResult? {
      ReadTaggedBack(v, rest, atEnd);
    } else if v.VList? || v.VMap? {
      ReadContainerBack(v, rest);
    } else {
      ReadTupleBack(v, rest, atEnd);
    }
  }

  lemma {:induction false} ReadTaggedBack(v: CLValue, rest: Bytes, atEnd: bool)
    requires v.VOption? || v.VResult?
    requires Proper(v, atEnd) && TaggedBytes(v).Ok? && (atEnd ==> rest == [])
    ensures ReadValue(TypeOf(v), TaggedBytes(v).value + rest) == Ok((NormValue(v), rest))
    decreases v, 0
  {
    hide LeafBytes, ListBytes, MapBytes, TupleBytes, LeafProper, ContainerProper, ReadSimple, ReadElems, ReadEntries,
         ReadBytes, ReadLE;
    var b := TaggedBytes(v).value + rest;
    if v.VOption? && v.content.None? {
      assert b[1..] == rest;
    } else {
      var x := if v.VOption? then v.content.value else v.inner;
      ReadBack(x, rest, atEnd);
      assert b[1..] == ValueBytes(x).value + rest;
    }
  }

  lemma {:induction false} ReadTupleBack(v: CLValue, rest: Bytes, atEnd: bool)
    requires v.VTuple1? || v.VTuple2? || v.VTuple3?
    requires Proper(v, atEnd) && TupleBytes(v).Ok? && (atEnd ==> rest == [])
    ensures ReadValue(TypeOf(v), TupleBytes(v).value + rest) == Ok((NormValue(v), rest))
    decreases v, 0
  {
    hide LeafBytes, ListBytes, MapBytes, TaggedBytes, LeafProper, ContainerProper, ReadSimple, ReadElems, ReadEntries,
         ReadBytes, ReadLE;
    match v
    case VTuple1(a) =>
      ReadBack(a, rest, atEnd);
    case VTuple2(a, c) =>
      var x, y := ValueBytes(a).value, ValueBytes(c).value;
      assert x + y + rest == x + (y + rest);
      ReadBack(a, y + rest, false);
      ReadBack(c, rest, atEnd);
    case VTuple3(a, c, d) =>
      var x, y, z := ValueBytes(a).value, ValueBytes(c).value, ValueBytes(d).value;
      Reassociate(x, y, z, rest);
      ReadBack(a, y + (z + rest), false);
      ReadBack(c, z + rest, false);
      ReadBack(d, rest, atEnd);
  }

  lemma {:induction false} ReadContainerBack(v: CLValue, rest: Bytes)
    requires v.VList? || v.VMap?
    requires ContainerProper(v) && ValueBytes(v).Ok?
    ensures ReadValue(TypeOf(v), ValueBytes(v).value + rest) == Ok((NormValue(v), rest))
    decreases v, 0
  {
    hide LE, ReadLE, ElemsBytes, EntriesBytes, ReadElems, ReadEntries, NormElems, NormEntries, Proper, EntryProper;
    match v
    case VList(t, es) =>
      var body := ElemsBytes(es).value;
      assert LE(|es|, 4) + body + rest == LE(|es|, 4) + (body + rest);
      ReadSizeBack(|es|, body + rest);
      ReadElemsBack(es, t, rest);
    case VMap(k, t, es) =>
      var body := EntriesBytes(es).value;
      assert LE(|es|, 4) + body + rest == LE(|es|, 4) + (body + rest);
      ReadSizeBack(|es|, body + rest);
      ReadEntriesBack(es, k, t, rest);
  }

  lemma {:induction false} ReadElemsBack(es: seq<CLValue>, t: CLType, rest: Bytes)
    requires forall i :: 0 <= i < |es| ==> TypeOf(es[i]) == t && Proper(es[i], false)
    requires ElemsBytes(es).Ok?
    ensures ReadElems(t, |es|, ElemsBytes(es).value + rest) == Ok((NormElems(es), rest))
    decreases es
  {
    hide ReadValue, ValueBytes, Proper, TypeOf, NormValue;
    if es == [] {
      assert [] + rest == rest;
    } else {
      var x, xs := ValueBytes(es[0]).value, ElemsBytes(es[1..]).value;
      assert x + xs + rest == x + (xs + rest);
      ReadBack(es[0], xs + rest, false);
      ReadElemsBack(es[1..], t, rest);
    }
  }

  lemma {:induction false} ReadEntriesBack(es: seq<Entry>, k: CLType, t: CLType, rest: Bytes)
    requires forall i :: 0 <= i < |es| ==> EntryProper(es[i], k, t)
    requires EntriesBytes(es).Ok?
    ensures ReadEntries(k, t, |es|, EntriesBytes(es).value + rest) == Ok((NormEntries(es), rest))
    decreases es
  {
    hide ReadValue, EntryBytes, EntryProper;
    if es == [] {
      assert [] + rest == rest;
    } else {
      var x, xs := EntryBytes(es[0]).value, EntriesBytes(es[1..]).value;
      assert x + xs + rest == x + (xs + rest);
      ReadEntryBack(es[0], k, t, xs + rest);
      ReadEntriesBack(es[1..], k, t, rest);
    }
  }

  lemma {:induction false} ReadEntryBack(e: Entry, k: CLType, t: CLType, rest: Bytes)
    requires EntryProper(e, k, t) && EntryBytes(e).Ok?
    ensures ReadValue(k, EntryBytes(e).value + rest) == Ok((NormEntry(e).key, ValueBytes(e.val).value + rest))
    ensures ReadValue(t, ValueBytes(e.val).value + rest) == Ok((NormEntry(e).val, rest))
    decreases e
  {
    hide ReadValue, ValueBytes, Proper, TypeOf, NormValue;
    var x, y := ValueBytes(e.key).value, ValueBytes(e.val).value;
    assert x + y + rest == x + (y + rest);
    ReadBack(e.key, y + rest, false);
    ReadBack(e.val, rest, false);
  }

  // -------------------------------------------------------- unique decoding

  /** The same bytes, whatever follows them, come from values of a given type that are written alike. */
  lemma UniqueParse(v: CLValue, w: CLValue, q: Bytes, r: Bytes, atEnd: bool)
    requires TypeOf(v) == TypeOf(w)
    requires Proper(v, atEnd) && Proper(w, atEnd) && (atEnd ==> q == r == [])
    requires ValueBytes(v).Ok? && ValueBytes(w).Ok?
    requires ValueBytes(v).value + q == ValueBytes(w).value + r
    ensures NormValue(v) == NormValue(w) && q == r
  {
    hide *;
    ReadBack(v, q, atEnd);
    ReadBack(w, r, atEnd);
  }

  /** The encoding of a string delimits itself. */
  lemma StringUnique(s: JsString, t: JsString, q: Bytes, r: Bytes)
    requires TextOk(s) && TextOk(t)
    requires StringBytes(s) + q == StringBytes(t) + r
    ensures NormText(s) == NormText(t) && q == r
  {
    hide *;
    ReadTextBack(s, q);
    ReadTextBack(t, r);
  }
}
