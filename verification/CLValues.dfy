/**
 CLValues, their bytes, and the type-directed decoder (src/types/clvalue). A decoder returns
 the value and the bytes it did not read.
 */
module CLValues {
  import opened Basics
  import opened Utf8
  import opened Numerals
  import opened ByteConverters
  import opened CLTypes

  /** The numeric kinds encoded in a fixed number of bytes, and those with a length byte. */
  type FixedKind = k: SimpleKind | IsFixed(k) witness U8
  type BigKind = k: SimpleKind | IsBig(k) witness U128

  predicate IsFixed(k: SimpleKind) {
    k.I32? || k.I64? || k.U8? || k.U32? || k.U64?
  }

  predicate IsBig(k: SimpleKind) {
    k.U128? || k.U256? || k.U512?
  }

  datatype URef = URef(data: Bytes, access: Byte)
  datatype PublicKey = PublicKey(alg: Byte, key: Bytes)
  datatype Key = HashKey(tag: Byte, hash: Bytes) | URefKey(uref: URef)

  datatype Entry = Entry(key: CLValue, val: CLValue)

  /**
   A CLValue with its declared type. `zeroOne` says that a big integer keeps the original
   bytes [1, 0] it was decoded from.
   */
  datatype CLValue =
    | VBool(b: bool)
    | VFixed(kind: FixedKind, n: int)
    | VBig(big: BigKind, n: int, zeroOne: bool)
    | VUnit
    | VString(s: JsString)
    | VKey(k: Key)
    | VURef(uref: URef)
    | VPublicKey(pk: PublicKey)
    | VAny(any: Bytes)
    | VOption(content: Option<CLValue>, innerType: CLType)
    | VList(elemType: CLType, elems: seq<CLValue>)
    | VByteArray(size: nat, data: Bytes)
    | VResult(okType: CLType, errType: CLType, isSuccess: bool, inner: CLValue)
    | VMap(keyType: CLType, valType: CLType, entries: seq<Entry>)
    | VTuple1(inner1: CLValue)
    | VTuple2(inner1: CLValue, inner2: CLValue)
    | VTuple3(inner1: CLValue, inner2: CLValue, inner3: CLValue)

  function BitSize(k: SimpleKind): (n: nat)
    requires IsFixed(k) || IsBig(k)
    ensures n > 0 && n % 8 == 0
    ensures IsFixed(k) ==> n <= 64
    ensures IsBig(k) ==> 64 < n <= 512
  {
    if k.U8? then 8
    else if k.I32? || k.U32? then 32
    else if k.I64? || k.U64? then 64
    else if k.U128? then 128
    else if k.U256? then 256
    else 512
  }

  predicate Signed(k: SimpleKind) {
    k == I32 || k == I64
  }

  /** `CLValue.getType()`. */
  function TypeOf(v: CLValue): (t: CLType)
  {
    match v
    case VBool(_) => Simple(Bool)
    case VFixed(k, _) => Simple(k)
    case VBig(k, _, _) => Simple(k)
    case VUnit => Simple(Unit)
    case VString(_) => Simple(String)
    case VKey(_) => Simple(SimpleKind.Key)
    case VURef(_) => Simple(SimpleKind.URef)
    case VPublicKey(_) => Simple(SimpleKind.PublicKey)
    case VAny(_) => Simple(Any)
    case VOption(_, t) => OptionOf(t)
    case VList(t, _) => ListOf(t)
    case VByteArray(n, _) => ByteArrayOf(n)
    case VResult(t, e, _, _) => ResultOf(t, e)
    case VMap(k, t, _) => MapOf(k, t)
    case VTuple1(a) => Tuple1Of(TypeOf(a))
    case VTuple2(a, b) => Tuple2Of(TypeOf(a), TypeOf(b))
    case VTuple3(a, b, c) => Tuple3Of(TypeOf(a), TypeOf(b), TypeOf(c))
  }

  // -------------------------------------------------------------- toString

  function KeyPrefix(tag: Byte): (s: JsString) {
    match tag
    case 0 => Js("account-hash-")
    case 1 => Js("hash-")
    case 3 => Js("transfer-")
    case 4 => Js("deploy-")
    case 6 => Js("balance-")
    case 7 => Js("bid-")
    case 8 => Js("withdraw-")
    case 9 => Js("dictionary-")
    case 10 => Js("system-entity-registry-")
    case 11 => Js("era-summary-")
    case 12 => Js("unbond-")
    case 13 => Js("chainspec-registry-")
    case 14 => Js("checksum-registry-")
    case _ => Js("package-")
  }

  function URefText(u: URef): (s: JsString) {
    Hex(u.data) + Js("-00") + Decimal(u.access)
  }

  /** `PublicKey.toHex`: '0', the algorithm number, the key bytes. */
  function KeyHex(pk: PublicKey): (s: JsString) {
    Js("0") + Decimal(pk.alg) + Hex(pk.key)
  }

  /** `CLValue.toString()`, which is also the key under which a map files a value. */
  function ToString(v: CLValue): (s: JsString)
    decreases v
  {
    match v
    case VBool(b) => if b then Js("true") else Js("false")
    case VFixed(_, n) => DecimalInt(n)
    case VBig(_, n, _) => DecimalInt(n)
    case VUnit => Js("null")
    case VString(s) => s
    case VKey(HashKey(tag, hash)) => KeyPrefix(tag) + Hex(hash)
    case VKey(URefKey(u)) => Js("uref-") + URefText(u)
    case VURef(u) => URefText(u)
    case VPublicKey(pk) => KeyHex(pk)
    case VAny(b) => DecodeText(b)
    case VOption(c, _) => if c.None? then [] else ToString(c.value)
    case VList(_, es) => Js("[") + JoinQuoted(es) + Js("]")
    case VByteArray(_, b) => Hex(b)
    case VResult(_, _, ok, x) => (if ok then Js("Ok(") else Js("Err(")) + ToString(x) + Js(")")
    case VMap(_, _, es) => JoinEntries(es)
    case VTuple1(a) => Js("(") + ToString(a) + Js(")")
    case VTuple2(a, b) => Js("(") + ToString(a) + Js(", ") + ToString(b) + Js(")")
    case VTuple3(a, b, c) => Js("(") + ToString(a) + Js(", ") + ToString(b) + Js(", ") + ToString(c) + Js(")")
  }

  function JoinQuoted(es: seq<CLValue>): (s: JsString)
    decreases es
  {
    if es == [] then []
    else Js("\"") + ToString(es[0]) + Js("\"") + (if |es| == 1 then [] else Js(",")) + JoinQuoted(es[1..])
  }

  function JoinEntries(es: seq<Entry>): (s: JsString)
    decreases es
  {
    if es == [] then []
    else EntryText(es[0]) + JoinEntries(es[1..])
  }

  function EntryText(e: Entry): (s: JsString)
    decreases e
  {
    Js("(") + ToString(e.key) + Js("=\"") + ToString(e.val) + Js("\")")
  }

  // --------------------------------------------------------------- encoder

  function KeyBytes(k: Key): (b: Bytes)
    ensures b != []
  {
    match k
    case HashKey(tag, hash) => [tag] + hash
    case URefKey(u) => [2] + URefBytes(u)
  }

  function URefBytes(u: URef): (b: Bytes) {
    u.data + [u.access]
  }

  function PublicKeyBytes(pk: PublicKey): (b: Bytes) {
    [pk.alg] + pk.key
  }

  /** `CLValueString.bytes`: the UTF-16 length (as `setUint32` writes it), then UTF-8. */
  function StringBytes(s: JsString): (b: Bytes)
    ensures |b| >= 4
  {
    LE(|s|, 4) + Encode(s)
  }

  /** Values without CLValues inside. */
  predicate IsLeaf(v: CLValue) {
    v.VBool? || v.VFixed? || v.VBig? || v.VUnit? || v.VString? || v.VKey? || v.VURef? || v.VPublicKey? || v.VAny?
    || v.VByteArray?
  }

  function LeafBytes(v: CLValue): (r: Result<Bytes>)
    requires IsLeaf(v)
  {
    match v
    case VBool(b) => Ok([if b then 1 else 0])
    case VFixed(k, n) => ToBytesNumber(BitSize(k), Signed(k), n)
    case VBig(k, n, z) => if z then Ok([1, 0]) else ToBytesNumber(BitSize(k), false, n)
    case VUnit => Ok([])
    case VString(s) => Ok(StringBytes(s))
    case VKey(k) => Ok(KeyBytes(k))
    case VURef(u) => Ok(URefBytes(u))
    case VPublicKey(pk) => Ok(PublicKeyBytes(pk))
    case VAny(b) => Ok(b)
    case VByteArray(_, b) => Ok(b)
  }

  /** `CLValue.bytes()`; an error is a thrown range error of `toBytesNumber`. */
  function ValueBytes(v: CLValue): (r: Result<Bytes>)
    decreases v, 1
  {
    if IsLeaf(v) then LeafBytes(v)
    else if v.VList? then ListBytes(v)
    else if v.VMap? then MapBytes(v)
    else if v.VOption? || v.VResult? then TaggedBytes(v)
    else TupleBytes(v)
  }

  function TaggedBytes(v: CLValue): (r: Result<Bytes>)
    requires v.VOption? || v.VResult?
    decreases v, 0
  {
    if v.VOption? then
      if v.content.None? then Ok([0])
      else
        var x :- ValueBytes(v.content.value);
        Ok([1] + x)
    else
      var x :- ValueBytes(v.inner);
      Ok([if v.isSuccess then 1 else 0] + x)
  }

  /** A list of Any is written without its length. */
  function ListBytes(v: CLValue): (r: Result<Bytes>)
    requires v.VList?
    decreases v, 0
  {
    var body :- ElemsBytes(v.elems);
    if v.elemType == Simple(Any) then Ok(body)
    else
      var size :- ToBytesU32(|v.elems|);
      Ok(size + body)
  }

  function MapBytes(v: CLValue): (r: Result<Bytes>)
    requires v.VMap?
    decreases v, 0
  {
    var body :- EntriesBytes(v.entries);
    var size :- ToBytesU32(|v.entries|);
    Ok(size + body)
  }

  function TupleBytes(v: CLValue): (r: Result<Bytes>)
    requires v.VTuple1? || v.VTuple2? || v.VTuple3?
    decreases v, 0
  {
    var x :- ValueBytes(v.inner1);
    if v.VTuple1? then Ok(x)
    else
      var y :- ValueBytes(v.inner2);
      if v.VTuple2? then Ok(x + y)
      else
        var z :- ValueBytes(v.inner3);
        Ok(x + y + z)
  }

  function ElemsBytes(es: seq<CLValue>): (r: Result<Bytes>)
    decreases es
  {
    if es == [] then Ok([])
    else
      var x :- ValueBytes(es[0]);
      var xs :- ElemsBytes(es[1..]);
      Ok(x + xs)
  }

  function EntriesBytes(es: seq<Entry>): (r: Result<Bytes>)
    decreases es
  {
    if es == [] then Ok([])
    else
      var x :- EntryBytes(es[0]);
      var xs :- EntriesBytes(es[1..]);
      Ok(x + xs)
  }

  function EntryBytes(e: Entry): (r: Result<Bytes>)
    decreases e
  {
    var k :- ValueBytes(e.key);
    var x :- ValueBytes(e.val);
    Ok(k + x)
  }

  // --------------------------------------------------------------- decoder

  type Parsed<T> = Result<(T, Bytes)>

  /** The key tags whose content is one 32-byte hash. */
  predicate IsHashTag(tag: int) {
    tag in {0, 1, 3, 4, 6, 7, 8, 9, 10, 11, 12, 13, 14, 16}
  }

  /** The chainspec-registry key goes through `splitAt`, which wants a byte after the hash. */
  const CHAINSPEC_TAG := 13

  function KeyFromBytes(b: Bytes): (r: Parsed<Key>) {
    if b == [] then Err(UnknownTag)
    else if IsHashTag(b[0]) then
      if |b| < 33 || (b[0] == CHAINSPEC_TAG && |b| == 33) then Err(EarlyEnd) else Ok((HashKey(b[0], b[1..33]), b[33..]))
    else if b[0] == 2 then
      var (u, rest) :- URefFromBytes(b[1..]);
      Ok((URefKey(u), rest))
    else Err(UnknownTag)
  }

  /** `URef.fromBytes` wants exactly 33 bytes, so nothing may follow. */
  function URefFromBytes(b: Bytes): (r: Parsed<URef>) {
    if |b| != 33 then Err(InvalidFormat)
    else if b[32] > 7 then Err(InvalidFormat)
    else Ok((URef.URef(b[..32], b[32]), []))
  }

  /** `PublicKey.fromBytes`: `subarray` clamps, so a short key is accepted as it is. */
  function PublicKeyFromBytes(b: Bytes): (r: Parsed<PublicKey>) {
    if b == [] || (b[0] != 1 && b[0] != 2) then Err(UnknownTag)
    else
      var size := if b[0] == 1 then 32 else 33;
      Ok((PublicKey.PublicKey(b[0], Slice(b, 1, size + 1)), Drop(b, size + 1)))
  }

  function StringFromBytes(b: Bytes): (r: Parsed<JsString>) {
    var (n, rest) :- FromBytesFixed(32, false, b);
    Ok((Decode(Slice(rest, 0, n)), Drop(rest, n)))
  }

  function NumberFromBytes(k: SimpleKind, b: Bytes): (r: Parsed<CLValue>)
    requires IsFixed(k) || IsBig(k)
  {
    if IsFixed(k) then
      var (n, rest) :- FromBytesFixed(BitSize(k), Signed(k), b);
      Ok((VFixed(k, n), rest))
    else
      var (n, rest) :- FromBytesBig(BitSize(k), b);
      Ok((VBig(k, n, b == [1, 0]), rest))
  }

  function SimpleFromBytes(k: SimpleKind, b: Bytes): (r: Parsed<CLValue>)
    ensures r.Ok? ==> TypeOf(r.value.0) == Simple(k)
  {
    if IsFixed(k) || IsBig(k) then NumberFromBytes(k, b)
    else match k
    case Bool =>
      if b == [] then Err(EarlyEnd)
      else if b[0] == 1 then Ok((VBool(true), b[1..]))
      else if b[0] == 0 then Ok((VBool(false), b[1..]))
      else Err(InvalidFormat)
    case Unit => if b != [] then Err(NotEmpty) else Ok((VUnit, b))
    case String =>
      var (s, rest) :- StringFromBytes(b);
      Ok((VString(s), rest))
    case Key =>
      var (key, rest) :- KeyFromBytes(b);
      Ok((VKey(key), rest))
    case URef =>
      var (u, rest) :- URefFromBytes(b);
      Ok((VURef(u), rest))
    case PublicKey =>
      var (pk, rest) :- PublicKeyFromBytes(b);
      Ok((VPublicKey(pk), rest))
    case Any => Ok((VAny(b), []))
  }

  /** `CLValueParser.fromBytesByType`: recursion on the type. */
  function FromBytes(t: CLType, b: Bytes): (r: Parsed<CLValue>)
    decreases t, 2, 0
  {
    match t
    case Simple(k) => SimpleFromBytes(k, b)
    case OptionOf(_) => OptionFromBytes(t, b)
    case ListOf(_) => ListSpec(t, b)
    case ByteArrayOf(n) => Ok((VByteArray(n, Slice(b, 0, n)), Drop(b, n)))
    case ResultOf(_, _) => ResultFromBytes(t, b)
    case MapOf(_, _) => MapSpec(t, b)
    case Tuple1Of(_) => Tuple1FromBytes(t, b)
    case Tuple2Of(_, _) => Tuple2FromBytes(t, b)
    case Tuple3Of(_, _, _) => Tuple3FromBytes(t, b)
  }

  function OptionFromBytes(t: CLType, b: Bytes): (r: Parsed<CLValue>)
    requires t.OptionOf?
    ensures r.Ok? ==> TypeOf(r.value.0) == t
    decreases t, 1, 0
  {
    if b == [] then Err(EarlyEnd)
    else if b[0] == 0 then Ok((VOption(None, t.inner), b[1..]))
    else
      var (x, rest) :- FromBytes(t.inner, b[1..]);
      Ok((VOption(Some(x), t.inner), rest))
  }

  /** Any tag but 1 means Err. */
  function ResultFromBytes(t: CLType, b: Bytes): (r: Parsed<CLValue>)
    requires t.ResultOf?
    ensures r.Ok? ==> TypeOf(r.value.0) == t
    decreases t, 1, 0
  {
    if b == [] then Err(EarlyEnd)
    else
      var (x, rest) :- FromBytes(if b[0] == 1 then t.ok else t.err, b[1..]);
      Ok((VResult(t.ok, t.err, b[0] == 1, x), rest))
  }

  function Tuple1FromBytes(t: CLType, b: Bytes): (r: Parsed<CLValue>)
    requires t.Tuple1Of?
    decreases t, 1, 0
  {
    var (x, rest) :- FromBytes(t.inner1, b);
    Ok((VTuple1(x), rest))
  }

  function Tuple2FromBytes(t: CLType, b: Bytes): (r: Parsed<CLValue>)
    requires t.Tuple2Of?
    decreases t, 1, 0
  {
    var (x, r1) :- FromBytes(t.inner1, b);
    var (y, rest) :- FromBytes(t.inner2, r1);
    Ok((VTuple2(x, y), rest))
  }

  function Tuple3FromBytes(t: CLType, b: Bytes): (r: Parsed<CLValue>)
    requires t.Tuple3Of?
    decreases t, 1, 0
  {
    var (x, r1) :- FromBytes(t.inner1, b);
    var (y, r2) :- FromBytes(t.inner2, r1);
    var (z, rest) :- FromBytes(t.inner3, r2);
    Ok((VTuple3(x, y, z), rest))
  }

  /** What `CLValueList.fromBytes` computes. */
  function ListSpec(t: CLType, b: Bytes): (r: Parsed<CLValue>)
    requires t.ListOf?
    ensures r.Ok? ==> TypeOf(r.value.0) == t
    decreases t, 1, 0
  {
    var (size, afterSize) :- FromBytesFixed(32, false, b);
    var (es, rest) :- DecodeElems(t, size, if t.elem == Simple(Any) then b else afterSize);
    Ok((VList(t.elem, es), rest))
  }

  /** What `CLValueMap.fromBytes` computes. */
  function MapSpec(t: CLType, b: Bytes): (r: Parsed<CLValue>)
    requires t.MapOf?
    ensures r.Ok? ==> TypeOf(r.value.0) == t
    decreases t, 1, 0
  {
    var (size, afterSize) :- FromBytesFixed(32, false, b);
    var (es, rest) :- DecodeEntries(t, size, afterSize, []);
    Ok((VMap(t.key, t.val, es), rest))
  }

  /** The `CLValueList.fromBytes` loop: at the end of the input the missing elements are skipped. */
  function DecodeElems(t: CLType, n: nat, b: Bytes): (r: Parsed<seq<CLValue>>)
    requires t.ListOf?
    decreases t, 0, n
  {
    if n == 0 || b == [] then Ok(([], b))
    else
      var (x, r1) :- FromBytes(t.elem, b);
      var (xs, rest) :- DecodeElems(t, n - 1, r1);
      Ok(([x] + xs, rest))
  }

  /** Some entry is filed under this key text. */
  predicate HasKey(es: seq<Entry>, key: JsString) {
    exists i :: 0 <= i < |es| && ToString(es[i].key) == key
  }

  /** `CLValueMap.append` on the entry list: a key text already present keeps its first entry. */
  function AppendEntry(es: seq<Entry>, e: Entry): (r: seq<Entry>) {
    if HasKey(es, ToString(e.key)) then es else es + [e]
  }

  /** The `CLValueMap.fromBytes` loop over the entries read so far. */
  function DecodeEntries(t: CLType, n: nat, b: Bytes, acc: seq<Entry>): (r: Parsed<seq<Entry>>)
    requires t.MapOf?
    decreases t, 0, n
  {
    if n == 0 || b == [] then Ok((acc, b))
    else
      var (k, r1) :- FromBytes(t.key, b);
      var (x, r2) :- FromBytes(t.val, r1);
      DecodeEntries(t, n - 1, r2, AppendEntry(acc, Entry(k, x)))
  }

  /** `CLValueList.fromBytes` as it runs: a loop over the remaining bytes. */
  method ListFromBytes(source: Bytes, t: CLType) returns (r: Parsed<CLValue>)
    requires t.ListOf?
    ensures r == ListSpec(t, source)
  {
    hide FromBytes;
    var u32 := FromBytesFixed(32, false, source);
    if u32.Err? {
      return Err(u32.error);
    }
    var (size, afterSize) := u32.value;
    ghost var start := if t.elem == Simple(Any) then source else afterSize;
    var remainder := if t.elem == Simple(Any) then source else afterSize;
    var elements: seq<CLValue> := [];
    ghost var whole := DecodeElems(t, size, start);
    assert whole.Ok? ==> [] + whole.value.0 == whole.value.0;
    var i: nat := 0;
    while i < size
      invariant 0 <= i <= size
      invariant var tail := DecodeElems(t, size - i, remainder);
                if tail.Ok? then whole == Ok((elements + tail.value.0, tail.value.1)) else whole == tail
    {
      if |remainder| > 0 {
        var inner := FromBytes(t.elem, remainder);
        if inner.Err? {
          return Err(inner.error);
        }
        ghost var tail := DecodeElems(t, size - i - 1, inner.value.1);
        assert tail.Ok? ==> elements + ([inner.value.0] + tail.value.0) == elements + [inner.value.0] + tail.value.0;
        elements := elements + [inner.value.0];
        remainder := inner.value.1;
      }
      i := i + 1;
    }
    assert elements + [] == elements;
    r := Ok((VList(t.elem, elements), remainder));
  }

  /** A decoded value carries the type it was decoded by. */
  lemma {:induction false} DecodedType(t: CLType, b: Bytes)
    requires FromBytes(t, b).Ok?
    ensures TypeOf(FromBytes(t, b).value.0) == t
    decreases t
  {
    hide OptionFromBytes, ResultFromBytes, ListSpec, MapSpec, SimpleFromBytes;
    if t.Tuple1Of? {
      DecodedType(t.inner1, b);
    } else if t.Tuple2Of? {
      DecodedType(t.inner1, b);
      DecodedType(t.inner2, FromBytes(t.inner1, b).value.1);
    } else if t.Tuple3Of? {
      var r1 := FromBytes(t.inner1, b).value.1;
      DecodedType(t.inner1, b);
      DecodedType(t.inner2, r1);
      DecodedType(t.inner3, FromBytes(t.inner2, r1).value.1);
    }
  }
}
