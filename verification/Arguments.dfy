/**
 Named runtime arguments (src/types/Args.ts): values written with their type, argument lists,
 the hand-grown buffer encoder, and the decoder that finds the next argument by re-encoding
 the one it has just read.
 */
module Arguments {
  import opened Basics
  import opened Utf8
  import opened ByteConverters
  import opened CLTypes
  import opened CLValues
  import opened CodecLaw
  import opened OrderedMaps

  datatype NamedArg = NamedArg(name: JsString, value: CLValue)

  /** `Args.args`, a Map from names to values. */
  type ArgMap = OrderedMap<JsString, CLValue>

  // ------------------------------------------------------ values with type

  /** `CLValueParser.toBytesWithType`. */
  function WithTypeBytes(v: CLValue): (r: Result<Bytes>) {
    var t :- TypeBytes(TypeOf(v));
    var b :- ValueBytes(v);
    var framed :- ToBytesArrayU8(b);
    Ok(framed + t)
  }

  /** `CLValueParser.fromBytesWithType`. */
  function FromBytesWithType(b: Bytes): (r: Parsed<CLValue>) {
    var (length, rest) :- FromBytesFixed(32, false, b);
    if length == 0 then Err(InvalidFormat)
    else
      var (t, after) :- MatchBytesToType(Drop(rest, length));
      var (v, _) :- FromBytes(t, Slice(rest, 0, length));
      Ok((v, after))
  }

  lemma WithTypeParts(v: CLValue)
    requires WithTypeBytes(v).Ok?
    ensures TypeBytes(TypeOf(v)).Ok? && ValueBytes(v).Ok? && |ValueBytes(v).value| < 0x1_0000_0000
    ensures WithTypeBytes(v).value == LE(|ValueBytes(v).value|, 4) + ValueBytes(v).value + TypeBytes(TypeOf(v)).value
  {
    hide TypeBytes, ValueBytes, TypeOf, LE;
  }

  /** A value written with its type comes back, with the rest untouched, exactly when it writes at least one byte. */
  lemma WithTypeRoundTrip(v: CLValue, rest: Bytes)
    requires Travels(v, true) && WithTypeBytes(v).Ok?
    ensures FromBytesWithType(WithTypeBytes(v).value + rest) == Ok((v, rest)) <==> ValueBytes(v).value != []
    ensures ValueBytes(v).value == [] ==> FromBytesWithType(WithTypeBytes(v).value + rest) == Err(InvalidFormat)
  {
    hide WithTypeBytes, ValueBytes, TypeBytes, TypeOf, Travels, MatchBytesToType, FromBytes, LE, FromBytesFixed;
    WithTypeParts(v);
    var b, t := ValueBytes(v).value, TypeBytes(TypeOf(v)).value;
    var all := WithTypeBytes(v).value + rest;
    var tail := b + (t + rest);
    Reassociate(LE(|b|, 4), b, t, rest);
    LengthPrefix(|b|, tail);
    assert tail[..|b|] == b && tail[|b|..] == t + rest;
    TypeRoundTrip(TypeOf(v), rest);
    RoundTrip(v, [], true);
    assert b + [] == b;
  }

  lemma LengthPrefix(n: nat, tail: Bytes)
    requires n < 0x1_0000_0000
    ensures FromBytesFixed(32, false, LE(n, 4) + tail) == Ok((n, tail))
  {
    U32RoundTrip(n, tail);
  }

  // -------------------------------------------------------------- encoders

  /** `NamedArg.toBytes`. */
  function NamedArgBytes(a: NamedArg): (r: Result<Bytes>) {
    var name :- ToBytesString(a.name);
    var value :- WithTypeBytes(a.value);
    Ok(name + value)
  }

  /** The arguments one after the other. */
  function ArgsBody(args: ArgMap): (r: Result<Bytes>) {
    if args == [] then Ok([])
    else
      var a :- NamedArgBytes(NamedArg(args[0].0, args[0].1));
      var tail :- ArgsBody(args[1..]);
      Ok(a + tail)
  }

  /** `Args.toBytes`. */
  function ArgsBytes(args: ArgMap): (r: Result<Bytes>) {
    var body :- ArgsBody(args);
    var count :- ToBytesU32(|args|);
    Ok(count + body)
  }

  /** What the buffer encoder writes; `setInt32` wraps the name length where `toBytesString` throws. */
  function NamedArgBuffer(a: NamedArg): (r: Result<Bytes>) {
    var value :- WithTypeBytes(a.value);
    Ok(LE(|Encode(a.name)|, 4) + Encode(a.name) + value)
  }

  /** The two encoders of an argument agree exactly as long as the name's byte length fits a u32. */
  lemma BufferAgreesWithPlain(a: NamedArg)
    requires WithTypeBytes(a.value).Ok?
    ensures NamedArgBuffer(a) == NamedArgBytes(a) <==> |Encode(a.name)| < 0x1_0000_0000
    ensures NamedArgBytes(a).Ok? <==> |Encode(a.name)| < 0x1_0000_0000
  {
    hide WithTypeBytes, Encode, LE;
  }

  /** `NamedArg.toBytesWithNamedArg`: a 1024-byte buffer, grown before each write that would not fit. */
  method ToBytesWithNamedArg(source: NamedArg) returns (r: Result<Bytes>)
    ensures r == NamedArgBuffer(source)
  {
    hide WithTypeBytes, Encode, LE;
    var buffer := new Byte[1024](_ => 0);
    var offset := 0;

    var nameBytes := Encode(source.name);
    if offset + 4 + |nameBytes| > buffer.Length {
      buffer := ExpandBuffer(buffer, offset + 4 + |nameBytes|);
    }
    offset := WriteInteger(buffer, offset, |nameBytes|);
    assert buffer[..offset] == LE(|nameBytes|, 4);
    SetBytes(buffer, offset, nameBytes);
    offset := offset + |nameBytes|;
    ghost var written := buffer[..offset];

    var valueBytes := WithTypeBytes(source.value);
    if valueBytes.Err? {
      return valueBytes;
    }
    if offset + |valueBytes.value| > buffer.Length {
      var grown := ExpandBuffer(buffer, offset + |valueBytes.value|);
      KeepsPrefix(grown[..], buffer[..], offset);
      buffer := grown;
    }
    assert buffer[..offset] == written;
    SetBytes(buffer, offset, valueBytes.value);
    offset := offset + |valueBytes.value|;
    r := Ok(buffer[..offset]);
  }

  /** What a grown buffer has in common with the old one below an earlier offset. */
  lemma KeepsPrefix(grown: Bytes, old_: Bytes, n: nat)
    requires n <= |old_| <= |grown| && grown[..|old_|] == old_
    ensures grown[..n] == old_[..n]
  {
    assert grown[..n] == grown[..|old_|][..n];
  }

  // --------------------------------------------------------------- decoder

  /** `new DataView(buffer).getUint32(0, true)`. */
  function GetUint32(buffer: Bytes): (r: Result<nat>) {
    if |buffer| < 4 then Err(EarlyEnd) else Ok(FromLE(buffer[..4]))
  }

  /** `NamedArg.fromBytes` on an array of its own. */
  function NamedArgFromBytes(b: Bytes): (r: Result<NamedArg>) {
    var nameLength :- GetUint32(b);
    var name := DecodeText(Slice(b, 4, 4 + nameLength));
    var (v, _) :- FromBytesWithType(Drop(b, 4 + nameLength));
    Ok(NamedArg(name, v))
  }

  /** The `Args.fromBytes` loop: the decoded argument is re-encoded to find where the next one starts. */
  function ArgsLoop(view: Bytes, offset: nat, n: nat, acc: ArgMap): (r: Result<ArgMap>)
    decreases n
  {
    if n == 0 then Ok(acc)
    else
      var a :- NamedArgFromBytes(Drop(view, offset));
      var nameLength :- GetUint32(Drop(view, offset));
      var valueBytes :- WithTypeBytes(a.value);
      ArgsLoop(view, offset + 4 + nameLength + |valueBytes|, n - 1, Put(acc, a.name, a.value))
  }

  /**
   `Args.fromBytes` of the view `buffer[start..end]`. The count is read from the start of the
   underlying buffer, the arguments from the view.
   */
  function ArgsFromView(buffer: Bytes, start: nat, end: nat): (r: Result<ArgMap>)
    requires start <= end <= |buffer|
  {
    var n :- GetUint32(buffer);
    ArgsLoop(buffer[start..end], 4, n, [])
  }

  method ArgsFromBytes(buffer: Bytes, start: nat, end: nat) returns (r: Result<ArgMap>)
    requires start <= end <= |buffer|
    ensures r == ArgsFromView(buffer, start, end)
  {
    hide NamedArgFromBytes, WithTypeBytes, GetUint32, Put;
    var offset: nat := 0;
    var numArgs := GetUint32(buffer);
    if numArgs.Err? {
      return Err(numArgs.error);
    }
    offset := offset + 4;
    var bytes := buffer[start..end];
    var args: ArgMap := [];
    for i := 0 to numArgs.value
      invariant ArgsFromView(buffer, start, end) == ArgsLoop(bytes, offset, numArgs.value - i, args)
    {
      var namedArgBytes := Drop(bytes, offset);
      var namedArg := NamedArgFromBytes(namedArgBytes);
      if namedArg.Err? {
        return Err(namedArg.error);
      }
      var nameLength := GetUint32(namedArgBytes);
      if nameLength.Err? {
        return Err(nameLength.error);
      }
      var valueBytes := WithTypeBytes(namedArg.value.value);
      if valueBytes.Err? {
        return Err(valueBytes.error);
      }
      var consumedBytes := 4 + nameLength.value + |valueBytes.value|;
      offset := offset + consumedBytes;
      args := Put(args, namedArg.value.name, namedArg.value.value);
    }
    r := Ok(args);
  }

  // ------------------------------------------------------------ round trip

  /** A name `TextDecoder` gives back: no lone surrogates, no leading byte-order mark. */
  predicate NameTravels(s: JsString) {
    WellFormed(s) && !(s != [] && s[0] == 0xFEFF)
  }

  predicate ArgTravels(a: NamedArg) {
    NameTravels(a.name) && Travels(a.value, true) && ValueBytes(a.value) != Ok([])
  }

  lemma NamedArgParts(a: NamedArg)
    requires NamedArgBytes(a).Ok?
    ensures |Encode(a.name)| < 0x1_0000_0000 && WithTypeBytes(a.value).Ok?
    ensures NamedArgBytes(a).value == LE(|Encode(a.name)|, 4) + Encode(a.name) + WithTypeBytes(a.value).value
  {
    hide WithTypeBytes, Encode, LE;
  }

  lemma GetUint32OfLE(n: nat, tail: Bytes)
    requires n < 0x1_0000_0000
    ensures GetUint32(LE(n, 4) + tail) == Ok(n)
  {
    SmallPowers();
    FromLEOfLE(n, 4);
    assert (LE(n, 4) + tail)[..4] == LE(n, 4);
  }

  /** One argument is read back, and re-encoding it measures exactly the bytes it took. */
  lemma NamedArgRoundTrip(a: NamedArg, rest: Bytes)
    requires ArgTravels(a) && NamedArgBytes(a).Ok?
    ensures var b := NamedArgBytes(a).value + rest;
            && NamedArgFromBytes(b) == Ok(a)
            && GetUint32(b) == Ok(|Encode(a.name)|)
            && WithTypeBytes(a.value).Ok?
            && 4 + |Encode(a.name)| + |WithTypeBytes(a.value).value| == |NamedArgBytes(a).value|
  {
    hide NamedArgBytes, WithTypeBytes, Encode, LE, ValueBytes, Travels, GetUint32, FromBytesWithType, WellFormed,
         DecodeText;
    NamedArgParts(a);
    var name, value := Encode(a.name), WithTypeBytes(a.value).value;
    var size := LE(|name|, 4);
    Reassociate(size, name, value, rest);
    var b := NamedArgBytes(a).value + rest;
    GetUint32OfLE(|name|, name + (value + rest));
    assert b[4..] == name + (value + rest);
    assert b[4..4 + |name|] == name;
    assert b[4 + |name|..] == value + rest;
    DecodeTextOfEncode(a.name);
    WithTypeParts(a.value);
    WithTypeRoundTrip(a.value, rest);
  }

  /**
   From the true start of argument i the loop reads on correctly: asked for as many arguments
   as remain or fewer it returns them in order, asked for more it throws.
   */
  lemma {:induction false} LoopReadsInOrder(args: ArgMap, i: nat, n: nat, view: Bytes, offset: nat)
    requires i <= |args| && offset <= |view|
    requires UniqueKeys(args)
    requires forall k :: 0 <= k < |args| ==> ArgTravels(NamedArg(args[k].0, args[k].1))
    requires ArgsBody(args[i..]) == Ok(view[offset..])
    ensures ArgsLoop(view, offset, n, args[..i]) ==
            if n <= |args| - i then Ok(args[..i + n]) else Err(EarlyEnd)
    decreases n
  {
    hide ArgsLoop, ArgsBody, ArgTravels, UniqueKeys, NamedArgBytes;
    if n == 0 {
      LoopEnds(view, offset, args[..i]);
    } else if i == |args| {
      assert args[i..] == [];
      LoopStarves(view, offset, n, args[..i]);
    } else {
      LoopStep(args, i, n, view, offset);
      var b := NamedArgBytes(NamedArg(args[i].0, args[i].1)).value;
      LoopReadsInOrder(args, i + 1, n - 1, view, offset + |b|);
    }
  }

  lemma LoopEnds(view: Bytes, offset: nat, acc: ArgMap)
    ensures ArgsLoop(view, offset, 0, acc) == Ok(acc)
  {
  }

  lemma LoopStarves(view: Bytes, offset: nat, n: nat, acc: ArgMap)
    requires n > 0 && offset <= |view| && ArgsBody([]) == Ok(view[offset..])
    ensures ArgsLoop(view, offset, n, acc) == Err(EarlyEnd)
  {
    hide NamedArgFromBytes;
    assert Drop(view, offset) == [];
    EmptyHasNoArgument();
  }

  /** One turn of the loop files argument i and moves to the start of the next. */
  lemma LoopStep(args: ArgMap, i: nat, n: nat, view: Bytes, offset: nat)
    requires i < |args| && offset <= |view| && n > 0
    requires UniqueKeys(args) && ArgTravels(NamedArg(args[i].0, args[i].1))
    requires ArgsBody(args[i..]) == Ok(view[offset..])
    ensures NamedArgBytes(NamedArg(args[i].0, args[i].1)).Ok?
    ensures var b := NamedArgBytes(NamedArg(args[i].0, args[i].1)).value;
            && offset + |b| <= |view| && ArgsBody(args[i + 1..]) == Ok(view[offset + |b|..])
            && ArgsLoop(view, offset, n, args[..i]) == ArgsLoop(view, offset + |b|, n - 1, args[..i + 1])
  {
    hide NamedArgBytes, NamedArgFromBytes, WithTypeBytes, Encode, ArgTravels, Put, GetUint32;
    var tail := args[i..];
    var a := NamedArg(args[i].0, args[i].1);
    assert tail[0] == args[i] && tail[1..] == args[i + 1..];
    var b, rest := NamedArgBytes(a).value, ArgsBody(args[i + 1..]).value;
    NamedArgRoundTrip(a, rest);
    assert view[offset..] == b + rest;
    assert view[offset + |b|..] == rest by {
      assert view[offset..][|b|..] == rest;
    }
    NextIsNew(args, i);
    PutIsAppend(args[..i], a.name, a.value);
    assert args[..i] + [args[i]] == args[..i + 1];
  }

  lemma EmptyHasNoArgument()
    ensures NamedArgFromBytes([]) == Err(EarlyEnd)
  {
  }

  lemma NextIsNew(args: ArgMap, i: nat)
    requires i < |args| && UniqueKeys(args)
    ensures !OrderedMaps.HasKey(args[..i], args[i].0)
  {
  }

  /**
   `Args.fromBytes(args.toBytes())` is `args`, names, values and order, precisely when the count
   found at the start of the underlying buffer is the number of arguments; it always is for an
   array that owns its buffer.
   */
  lemma ArgsRoundTrip(args: ArgMap, buffer: Bytes, start: nat, end: nat)
    requires UniqueKeys(args)
    requires forall k :: 0 <= k < |args| ==> ArgTravels(NamedArg(args[k].0, args[k].1))
    requires start <= end <= |buffer| && ArgsBytes(args) == Ok(buffer[start..end])
    ensures ArgsFromView(buffer, start, end) == Ok(args) <==> GetUint32(buffer) == Ok(|args|)
    ensures start == 0 ==> ArgsFromView(buffer, start, end) == Ok(args)
  {
    hide ArgsBody, ArgTravels, LE, ArgsLoop, UniqueKeys;
    var view := buffer[start..end];
    var body := ArgsBody(args).value;
    assert view == LE(|args|, 4) + body;
    assert view[4..] == body;
    assert args[0..] == args && args[..0] == [];
    if |buffer| >= 4 {
      var n := FromLE(buffer[..4]);
      LoopReadsInOrder(args, 0, n, view, 4);
      if n <= |args| {
        assert |args[..n]| == n;
        assert args[..|args|] == args;
      }
    }
    if start == 0 {
      GetUint32OfLE(|args|, body);
      assert buffer[..4] == view[..4];
    }
  }
}
