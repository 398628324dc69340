/**
 The V1 transaction payload (src/types/TransactionV1Payload.ts): runtime arguments and fields
 written into hand-grown buffers, framed with their lengths and put into a call table. The
 transaction hash is the hash of these bytes.
 */
module Payload {
  import opened Basics
  import opened Utf8
  import opened ByteConverters
  import opened CLTypes
  import opened CLValues
  import opened UniqueDecoding
  import opened WritableValues
  import opened Calltables
  import opened OrderedMaps
  import opened Arguments
  import opened TransactionParts
  import opened TransactionTargets

  datatype TransactionPayload = TransactionPayload(
    initiator: InitiatorAddr, timestamp: JsDate, ttl: int, chainName: JsString, pricing: PricingMode,
    args: ArgMap, target: Target, entryPoint: EntryPoint, scheduling: Scheduling)

  // ----------------------------------------------------------- specification

  /** The runtime arguments one after the other, as the buffer encoder writes each of them. */
  function RuntimeArgsBody(args: ArgMap): (r: Result<Bytes>) {
    if args == [] then Ok([])
    else
      var a :- NamedArgBuffer(NamedArg(args[0].0, args[0].1));
      var tail :- RuntimeArgsBody(args[1..]);
      Ok(a + tail)
  }

  function RuntimeArgsBytes(args: ArgMap): (r: Result<Bytes>) {
    var body :- RuntimeArgsBody(args);
    Ok([0] + LE(|args|, 4) + body)
  }

  /** A u32 length, then the bytes; `setUint32` wraps the length. */
  function Framed(b: Bytes): (f: Bytes)
    ensures |f| == 4 + |b|
  {
    LE(|b|, 4) + b
  }

  /** A u16 index, then the value, for each field in insertion order. */
  function FieldEntries(fields: OrderedMap<nat, Bytes>): (b: Bytes) {
    if fields == [] then [] else LE(fields[0].0, 2) + fields[0].1 + FieldEntries(fields[1..])
  }

  function FieldsBytes(fields: OrderedMap<nat, Bytes>): (b: Bytes) {
    LE(|fields|, 4) + FieldEntries(fields)
  }

  function FourFields(args: Bytes, target: Bytes, entryPoint: Bytes, scheduling: Bytes)
    : (fields: OrderedMap<nat, Bytes>)
  {
    [(0, Framed(args)), (1, Framed(target)), (2, Framed(entryPoint)), (3, Framed(scheduling))]
  }

  /** The bytes of four framed fields: count, then index, length and value of each. */
  function FieldsLayout(args: Bytes, target: Bytes, entryPoint: Bytes, scheduling: Bytes): (b: Bytes) {
    LE(4, 4) + (LE(0, 2) + (LE(|args|, 4) + (args
    + (LE(1, 2) + (LE(|target|, 4) + (target
    + (LE(2, 2) + (LE(|entryPoint|, 4) + (entryPoint
    + (LE(3, 2) + (LE(|scheduling|, 4) + (scheduling + []))))))))))))
  }

  function DateBytes(d: JsDate): (r: Result<Bytes>) {
    if d.InvalidDate? then Err(InvalidFormat) else ToBytesU64(d.ms)
  }

  /** The six fields of the payload's call table. */
  function PayloadTable(p: TransactionPayload): (r: Result<seq<Bytes>>)
    ensures r.Ok? ==> |r.value| == 6
  {
    var args :- RuntimeArgsBytes(p.args);
    var target :- TargetBytes(p.target);
    var entryPoint :- EntryPointBytes(p.entryPoint);
    var scheduling :- SchedulingBytes(p.scheduling);
    var initiator :- InitiatorBytes(p.initiator);
    var timestamp :- DateBytes(p.timestamp);
    var ttl :- ToBytesU64(p.ttl);
    var pricing :- PricingBytes(p.pricing);
    Ok([initiator, timestamp, ttl, StringBytes(p.chainName), pricing,
        FieldsLayout(args, target, entryPoint, scheduling)])
  }

  /** `TransactionV1Payload.toBytes`. */
  function PayloadBytes(p: TransactionPayload): (r: Result<Bytes>) {
    var vs :- PayloadTable(p);
    CalltableBytes(vs)
  }

  // --------------------------------------------------- the growing buffers

  class PayloadFields {
    var fields: OrderedMap<nat, Bytes>

    constructor ()
      ensures fields == []
    {
      fields := [];
    }

    method AddField(field: nat, value: Bytes)
      modifies this
      ensures fields == Put(old(fields), field, value)
    {
      fields := Put(fields, field, value);
    }

    method GetFieldValue(fieldIndex: nat) returns (v: Option<Bytes>)
      ensures v == Get(fields, fieldIndex)
    {
      v := Get(fields, fieldIndex);
    }

    /** A 1024-byte buffer, grown before each write that would not fit: no write passes its end. */
    method ToBytes() returns (b: Bytes)
      ensures b == FieldsBytes(fields)
    {
      hide LE, FieldsBytes;
      var buffer := new Byte[1024](_ => 0);
      var offset := WriteInteger(buffer, 0, |fields|);
      assert buffer[..offset] == LE(|fields|, 4);
      for i := 0 to |fields|
        invariant fresh(buffer) && 4 <= offset <= buffer.Length && buffer.Length > 0
        invariant buffer[..offset] + FieldEntries(fields[i..]) == LE(|fields|, 4) + FieldEntries(fields)
      {
        ghost var written := buffer[..offset];
        var (field, value) := fields[i];
        if offset + 2 > buffer.Length {
          buffer := GrowTo(buffer, offset, offset + 2);
        }
        offset := WriteUShort(buffer, offset, field);
        ghost var indexed := buffer[..offset];
        if offset + |value| > buffer.Length {
          buffer := GrowTo(buffer, offset, offset + |value|);
        }
        offset := WriteBytes(buffer, offset, value);
        ghost var tail := FieldEntries(fields[i + 1..]);
        EntriesStep(fields[i..]);
        assert fields[i..][1..] == fields[i + 1..];
        Reassociate(written, LE(field, 2), value, tail);
        assert written + (LE(field, 2) + value + tail) == written + (LE(field, 2) + (value + tail)) by {
          AssociateThree(LE(field, 2), value, tail);
        }
      }
      assert buffer[..offset] + [] == buffer[..offset];
      EntriesEnd();
      WhatFieldsAre(fields);
      b := buffer[..offset];
    }
  }

  lemma WhatFieldsAre(fields: OrderedMap<nat, Bytes>)
    ensures FieldsBytes(fields) == LE(|fields|, 4) + FieldEntries(fields)
  {
  }

  lemma EntriesEnd()
    ensures FieldEntries([]) == []
  {
  }

  lemma EntriesStep(fields: OrderedMap<nat, Bytes>)
    requires fields != []
    ensures FieldEntries(fields) == LE(fields[0].0, 2) + fields[0].1 + FieldEntries(fields[1..])
  {
  }

  lemma AssociateThree(a: Bytes, b: Bytes, c: Bytes)
    ensures a + b + c == a + (b + c)
  {
  }

  /** Growing keeps what was written. */
  method GrowTo(buffer: array<Byte>, offset: nat, size: nat) returns (grown: array<Byte>)
    requires offset <= buffer.Length < size && buffer.Length > 0
    ensures fresh(grown) && size <= grown.Length && grown[..offset] == buffer[..offset]
  {
    grown := ExpandBuffer(buffer, size);
    KeepsPrefix(grown[..], buffer[..], offset);
  }

  /** The runtime arguments' buffer of `TransactionV1Payload.toBytes`. */
  method RuntimeArgsToBytes(args: ArgMap) returns (r: Result<Bytes>)
    ensures r == RuntimeArgsBytes(args)
  {
    hide LE, NamedArgBuffer;
    var buffer := new Byte[1024](_ => 0);
    buffer[0] := 0;
    var offset := 1;
    assert buffer[..offset] == [0];
    // The source offers to grow here too; the count always fits a fresh buffer.
    assert offset + 4 <= buffer.Length;
    SetLE(buffer, offset, |args|, 4);
    offset := offset + 4;
    ghost var head: Bytes := [0] + LE(|args|, 4);
    assert buffer[..offset] == head;
    ghost var body: Bytes := [];
    ghost var all := RuntimeArgsBody(args);
    assert head + [] == head;
    assert all.Ok? ==> [] + all.value == all.value;
    for i := 0 to |args|
      invariant fresh(buffer) && 5 <= offset <= buffer.Length
      invariant buffer[..offset] == head + body
      invariant var tail := RuntimeArgsBody(args[i..]);
                all == if tail.Ok? then Ok(body + tail.value) else tail
    {
      var argBytes := ToBytesWithNamedArg(NamedArg(args[i].0, args[i].1));
      ghost var next := RuntimeArgsBody(args[i + 1..]);
      assert args[i..][1..] == args[i + 1..];
      if argBytes.Err? {
        return argBytes;
      }
      if offset + |argBytes.value| > buffer.Length {
        buffer := GrowTo(buffer, offset, offset + |argBytes.value|);
      }
      SetBytes(buffer, offset, argBytes.value);
      offset := offset + |argBytes.value|;
      assert next.Ok? ==> body + (argBytes.value + next.value) == body + argBytes.value + next.value;
      assert head + body + argBytes.value == head + (body + argBytes.value);
      body := body + argBytes.value;
    }
    assert body + [] == body;
    r := Ok(buffer[..offset]);
  }

  /** `new Uint8Array(n + 4)`, the length set at 0, the bytes at 4. */
  method WithLength(b: Bytes) returns (f: Bytes)
    ensures f == Framed(b)
  {
    hide LE;
    var a := new Byte[|b| + 4](_ => 0);
    SetLE(a, 0, |b|, 4);
    assert a[..4] == LE(|b|, 4);
    SetBytes(a, 4, b);
    f := a[..];
    assert a[..] == a[..4 + |b|];
  }

  method FieldsToBytes(args: Bytes, target: Bytes, entryPoint: Bytes, scheduling: Bytes) returns (b: Bytes)
    ensures b == FieldsLayout(args, target, entryPoint, scheduling)
  {
    hide FieldsBytes, Framed, FieldsLayout;
    FourFieldsLayout(args, target, entryPoint, scheduling);
    var fields := new PayloadFields();
    var a := WithLength(args);
    fields.AddField(0, a);
    assert fields.fields == [(0, a)];
    var t := WithLength(target);
    fields.AddField(1, t);
    assert fields.fields == [(0, a), (1, t)] by { AddsNext([(0, a)], 1, t); }
    var e := WithLength(entryPoint);
    fields.AddField(2, e);
    assert fields.fields == [(0, a), (1, t), (2, e)] by { AddsNext([(0, a), (1, t)], 2, e); }
    var s := WithLength(scheduling);
    fields.AddField(3, s);
    assert fields.fields == [(0, a), (1, t), (2, e), (3, s)] by { AddsNext([(0, a), (1, t), (2, e)], 3, s); }
    b := fields.ToBytes();
  }

  /** A new index goes to the end. */
  lemma AddsNext(fields: OrderedMap<nat, Bytes>, k: nat, v: Bytes)
    requires forall i :: 0 <= i < |fields| ==> fields[i].0 < k
    ensures Put(fields, k, v) == fields + [(k, v)]
  {
    PutIsAppend(fields, k, v);
  }

  method PayloadToBytes(p: TransactionPayload) returns (r: Result<Bytes>)
    ensures r == PayloadBytes(p)
  {
    hide *;
    PayloadSteps(p);
    var args := RuntimeArgsToBytes(p.args);
    if args.Err? { return args; }
    var target := TargetToBytes(p.target);
    if target.Err? { return target; }
    var entryPoint := EntryPointToBytes(p.entryPoint);
    if entryPoint.Err? { return entryPoint; }
    var scheduling := SchedulingToBytes(p.scheduling);
    if scheduling.Err? { return scheduling; }
    var initiator := InitiatorToBytes(p.initiator);
    if initiator.Err? { return initiator; }
    var timestamp := DateBytes(p.timestamp);
    if timestamp.Err? { return timestamp; }
    var ttl := ToBytesU64(p.ttl);
    if ttl.Err? { return ttl; }
    var pricing := PricingToBytes(p.pricing);
    if pricing.Err? { return pricing; }
    var fields := FieldsToBytes(args.value, target.value, entryPoint.value, scheduling.value);
    r := SixToBytes(initiator.value, timestamp.value, ttl.value, StringBytes(p.chainName), pricing.value, fields);
  }

  method SixToBytes(v0: Bytes, v1: Bytes, v2: Bytes, v3: Bytes, v4: Bytes, v5: Bytes) returns (r: Result<Bytes>)
    ensures r == CalltableBytes([v0, v1, v2, v3, v4, v5])
  {
    hide *;
    var c := new CalltableSerialization();
    var _ := c.AddField(0, v0);
    assert Values(c.fields) == [v0];
    var _ := c.AddField(1, v1);
    assert Values(c.fields) == [v0, v1];
    var _ := c.AddField(2, v2);
    assert Values(c.fields) == [v0, v1, v2];
    var _ := c.AddField(3, v3);
    assert Values(c.fields) == [v0, v1, v2, v3];
    var _ := c.AddField(4, v4);
    assert Values(c.fields) == [v0, v1, v2, v3, v4];
    var _ := c.AddField(5, v5);
    assert Values(c.fields) == [v0, v1, v2, v3, v4, v5];
    r := c.ToBytes();
  }

  /** The definitions unfolded once: the first failing part fails the payload. */
  lemma PayloadSteps(p: TransactionPayload)
    ensures PayloadBytes(p) ==
            if RuntimeArgsBytes(p.args).Err? then Err(RuntimeArgsBytes(p.args).error)
            else if TargetBytes(p.target).Err? then Err(TargetBytes(p.target).error)
            else if EntryPointBytes(p.entryPoint).Err? then Err(EntryPointBytes(p.entryPoint).error)
            else if SchedulingBytes(p.scheduling).Err? then Err(SchedulingBytes(p.scheduling).error)
            else if InitiatorBytes(p.initiator).Err? then Err(InitiatorBytes(p.initiator).error)
            else if DateBytes(p.timestamp).Err? then Err(DateBytes(p.timestamp).error)
            else if ToBytesU64(p.ttl).Err? then Err(ToBytesU64(p.ttl).error)
            else if PricingBytes(p.pricing).Err? then Err(PricingBytes(p.pricing).error)
            else CalltableBytes([InitiatorBytes(p.initiator).value, DateBytes(p.timestamp).value,
                                 ToBytesU64(p.ttl).value, StringBytes(p.chainName), PricingBytes(p.pricing).value,
                                 FieldsLayout(RuntimeArgsBytes(p.args).value, TargetBytes(p.target).value,
                                              EntryPointBytes(p.entryPoint).value,
                                              SchedulingBytes(p.scheduling).value)])
  {
    hide RuntimeArgsBytes, TargetBytes, EntryPointBytes, SchedulingBytes, InitiatorBytes, DateBytes, ToBytesU64,
         PricingBytes, CalltableBytes, StringBytes, FieldsLayout;
  }

  // ----------------------------------------------- which payloads are written

  /** Value and type of an argument can be written, and the value's bytes leave room for their length. */
  predicate ArgFits(a: (JsString, CLValue)) {
    Fits(a.1) && TypeFits(TypeOf(a.1)) && ValueBytes(a.1).Ok? && |ValueBytes(a.1).value| < 0x1_0000_0000
  }

  lemma WithTypeIsWritten(a: (JsString, CLValue))
    ensures WithTypeBytes(a.1).Ok? <==> ArgFits(a)
  {
    hide ValueBytes, TypeBytes, Fits, TypeFits, TypeOf, LE;
    ValueIsWritten(a.1);
    TypeIsWritten(TypeOf(a.1));
  }

  /** Runtime arguments are written exactly when every value is; the buffer encoder sets names no limit. */
  lemma {:induction false} RuntimeArgsAreWritten(args: ArgMap)
    ensures RuntimeArgsBody(args).Ok? <==> forall i :: 0 <= i < |args| ==> ArgFits(args[i])
    ensures RuntimeArgsBytes(args).Ok? <==> RuntimeArgsBody(args).Ok?
  {
    hide WithTypeBytes, ArgFits, Encode, LE;
    if args != [] {
      WithTypeIsWritten(args[0]);
      RuntimeArgsAreWritten(args[1..]);
      assert forall i :: 1 <= i < |args| ==> args[i] == args[1..][i - 1];
    }
  }

  /** A payload is written exactly when each of its parts is and the parts together fit; else the encoder throws. */
  lemma PayloadIsWritten(p: TransactionPayload)
    ensures PayloadTable(p).Ok? <==>
            && (forall i :: 0 <= i < |p.args| ==> ArgFits(p.args[i])) && TargetBytes(p.target).Ok?
            && EntryPointBytes(p.entryPoint).Ok? && SchedulingBytes(p.scheduling).Ok? && InitiatorBytes(p.initiator).Ok?
            && p.timestamp.ValidDate? && p.timestamp.ms >= 0 && 0 <= p.ttl < 0x1_0000_0000_0000_0000
            && PricingBytes(p.pricing).Ok?
    ensures PayloadBytes(p).Ok? <==> PayloadTable(p).Ok? && |Concat(PayloadTable(p).value)| < 0x1_0000_0000
  {
    hide RuntimeArgsBytes, TargetBytes, EntryPointBytes, SchedulingBytes, InitiatorBytes, PricingBytes, StringBytes,
         FieldsLayout, CalltableBytes, Concat, LE, ArgFits;
    RuntimeArgsAreWritten(p.args);
    if PayloadTable(p).Ok? {
      CalltableLimits(PayloadTable(p).value);
    }
  }

  // ------------------------------------------------------- what is written

  /** Arguments whose values are nowhere ambiguous. */
  predicate ArgProper(a: (JsString, CLValue)) {
    Proper(a.1, true)
  }

  /** An argument as it is written: lone surrogates replaced in name and value. */
  function NormArg(a: (JsString, CLValue)): (n: (JsString, CLValue)) {
    (NormText(a.0), NormValue(a.1))
  }

  function NormArgs(args: ArgMap): (n: ArgMap)
    ensures |n| == |args|
  {
    if args == [] then [] else [NormArg(args[0])] + NormArgs(args[1..])
  }

  lemma NormArgBytes(a: (JsString, CLValue))
    ensures NamedArgBuffer(NamedArg(NormArg(a).0, NormArg(a).1)) == NamedArgBuffer(NamedArg(a.0, a.1))
    ensures NamedArgBytes(NamedArg(NormArg(a).0, NormArg(a).1)) == NamedArgBytes(NamedArg(a.0, a.1))
  {
    hide NormText, NormValue, Encode, ValueBytes, TypeBytes, TypeOf, ToBytesU32, LE;
    NormTextKeeps(a.0);
    NormValueBytes(a.1);
  }

  /** The replacement does not change what either encoder of arguments writes. */
  lemma {:induction false} NormArgsBody(args: ArgMap)
    ensures RuntimeArgsBody(NormArgs(args)) == RuntimeArgsBody(args)
    ensures ArgsBody(NormArgs(args)) == ArgsBody(args)
  {
    hide NamedArgBuffer, NamedArgBytes, NormArg;
    if args != [] {
      NormArgBytes(args[0]);
      NormArgsBody(args[1..]);
      assert NormArgs(args)[1..] == NormArgs(args[1..]);
    }
  }

  lemma NormArgsBytes(args: ArgMap)
    ensures RuntimeArgsBytes(NormArgs(args)) == RuntimeArgsBytes(args)
    ensures ArgsBytes(NormArgs(args)) == ArgsBytes(args)
  {
    hide NormArgs, RuntimeArgsBody, ArgsBody, LE;
    NormArgsBody(args);
  }

  // -------------------------------------------------------------- the reader

  /** Four bytes of length and the bytes, then a type; the value fills the bytes. */
  function ReadTyped(b: Bytes): (r: Parsed<CLValue>) {
    var (x, r1) :- ReadSized(b);
    var (t, rest) :- MatchBytesToType(r1);
    var (v, left) :- ReadValue(t, x);
    if left != [] then Err(InvalidFormat) else Ok((v, rest))
  }

  /** The name's length in bytes and the name in UTF-8, then the value. */
  function ReadArg(b: Bytes): (r: Parsed<(JsString, CLValue)>) {
    var (name, r1) :- ReadSized(b);
    var (v, rest) :- ReadTyped(r1);
    Ok(((Decode(name), v), rest))
  }

  function ReadArgs(n: nat, b: Bytes): (r: Parsed<ArgMap>) {
    if n == 0 then Ok(([], b))
    else
      var (a, r1) :- ReadArg(b);
      var (args, rest) :- ReadArgs(n - 1, r1);
      Ok(([a] + args, rest))
  }

  /** The count of arguments in four bytes, then the arguments. */
  function ReadArgMap(b: Bytes): (r: Parsed<ArgMap>) {
    var (n, r1) :- ReadLE(b, 4);
    ReadArgs(n, r1)
  }

  /** The runtime arguments of a payload: a zero byte first. */
  function ReadRuntimeArgs(b: Bytes): (r: Result<ArgMap>) {
    var (zero, r1) :- ReadByte(b);
    var (args, rest) :- ReadArgMap(r1);
    if zero != 0 || rest != [] then Err(InvalidFormat) else Ok(args)
  }

  /** A field under the index expected in two bytes. */
  function ReadFieldUnder(b: Bytes, index: nat): (r: Parsed<Bytes>) {
    var (k, r1) :- ReadLE(b, 2);
    if k != index then Err(FieldOrder) else ReadSized(r1)
  }

  /** Four fields: arguments, target, entry point and scheduling, under 0, 1, 2 and 3. */
  function ReadFields(b: Bytes): (r: Result<(Bytes, Bytes, Bytes, Bytes)>) {
    var (n, r0) :- ReadLE(b, 4);
    var (args, r1) :- ReadFieldUnder(r0, 0);
    var (target, r2) :- ReadFieldUnder(r1, 1);
    var (entryPoint, r3) :- ReadFieldUnder(r2, 2);
    var (scheduling, rest) :- ReadFieldUnder(r3, 3);
    if n != 4 || rest != [] then Err(InvalidFormat) else Ok((args, target, entryPoint, scheduling))
  }

  function ReadDate(field: Bytes): (r: Result<JsDate>) {
    var ms :- NumberIn(field, 8);
    if ms > 8640000000000000 then Err(OutOfBounds) else Ok(ValidDate(ms))
  }

  /** A whole payload: initiator, timestamp, ttl, chain name, pricing mode and the four fields. */
  function ReadPayload(b: Bytes): (r: Result<TransactionPayload>) {
    var f0 :- FieldAt(b, 0);
    var initiator :- ReadInitiator(f0);
    var f1 :- FieldAt(b, 1);
    var timestamp :- ReadDate(f1);
    var f2 :- FieldAt(b, 2);
    var ttl :- NumberIn(f2, 8);
    var f3 :- FieldAt(b, 3);
    var chainName :- TextIn(f3);
    var f4 :- FieldAt(b, 4);
    var pricing :- ReadPricing(f4);
    var f5 :- FieldAt(b, 5);
    var (a, t, e, s) :- ReadFields(f5);
    var args :- ReadRuntimeArgs(a);
    var target :- ReadTarget(t);
    var entryPoint :- ReadEntryPoint(e);
    var scheduling :- ReadScheduling(s);
    Ok(TransactionPayload(initiator, timestamp, ttl, chainName, pricing, args, target, entryPoint, scheduling))
  }

  // -------------------------------------------------- what the reader gives back

  /** A value written with its type reads back, whatever follows it. */
  lemma ReadTypedBack(v: CLValue, rest: Bytes)
    requires Proper(v, true) && WithTypeBytes(v).Ok?
    ensures ReadTyped(WithTypeBytes(v).value + rest) == Ok((NormValue(v), rest))
  {
    hide Proper, WithTypeBytes, ValueBytes, TypeBytes, TypeOf, LE, NormValue, ReadSized, ReadValue, MatchBytesToType;
    WithTypeParts(v);
    var x, t := ValueBytes(v).value, TypeBytes(TypeOf(v)).value;
    Reassociate(LE(|x|, 4), x, t, rest);
    ReadSizedBack(x, t + rest);
    TypeRoundTrip(TypeOf(v), rest);
    ReadBack(v, [], true);
    assert x + [] == x;
  }

  lemma ReadArgBack(a: (JsString, CLValue), rest: Bytes)
    requires ArgProper(a) && |Encode(a.0)| < 0x1_0000_0000 && NamedArgBuffer(NamedArg(a.0, a.1)).Ok?
    ensures ReadArg(NamedArgBuffer(NamedArg(a.0, a.1)).value + rest) == Ok((NormArg(a), rest))
  {
    hide Encode, Decode, WithTypeBytes, LE, Proper, NormValue, ReadSized, ReadTyped;
    var name, v := Encode(a.0), WithTypeBytes(a.1).value;
    Reassociate(LE(|name|, 4), name, v, rest);
    ReadSizedBack(name, v + rest);
    ReadTypedBack(a.1, rest);
  }

  lemma NamedArgLength(a: NamedArg)
    requires NamedArgBuffer(a).Ok?
    ensures |NamedArgBuffer(a).value| >= 4 + |Encode(a.name)|
  {
    hide Encode, WithTypeBytes, LE;
  }

  /** Names short enough for their byte length to fit the prefix. */
  predicate ShortNames(args: ArgMap) {
    forall i :: 0 <= i < |args| ==> |Encode(args[i].0)| < 0x1_0000_0000
  }

  lemma {:induction false} BodyLength(args: ArgMap)
    requires RuntimeArgsBody(args).Ok?
    ensures |RuntimeArgsBody(args).value| >= |args|
    ensures |RuntimeArgsBody(args).value| < 0x1_0000_0000 ==> ShortNames(args)
  {
    hide NamedArgBuffer, Encode;
    if args != [] {
      NamedArgLength(NamedArg(args[0].0, args[0].1));
      BodyLength(args[1..]);
      if |RuntimeArgsBody(args).value| < 0x1_0000_0000 {
        forall i | 0 <= i < |args| ensures |Encode(args[i].0)| < 0x1_0000_0000 {
          assert i > 0 ==> args[i] == args[1..][i - 1];
        }
      }
    }
  }

  lemma {:induction false} ReadArgsBack(args: ArgMap, rest: Bytes)
    requires ShortNames(args) && (forall i :: 0 <= i < |args| ==> ArgProper(args[i])) && RuntimeArgsBody(args).Ok?
    ensures ReadArgs(|args|, RuntimeArgsBody(args).value + rest) == Ok((NormArgs(args), rest))
  {
    hide NamedArgBuffer, ArgProper, Encode, NormArg, ReadArg;
    if args == [] {
      assert [] + rest == rest;
    } else {
      var a := args[0];
      var x, xs := NamedArgBuffer(NamedArg(a.0, a.1)).value, RuntimeArgsBody(args[1..]).value;
      AssociateThree(x, xs, rest);
      ReadArgBack(a, xs + rest);
      ReadArgsBack(args[1..], rest);
    }
  }

  lemma {:induction false} PlainBody(args: ArgMap)
    requires ArgsBody(args).Ok?
    ensures RuntimeArgsBody(args) == ArgsBody(args) && ShortNames(args)
  {
    hide NamedArgBuffer, NamedArgBytes, Encode;
    if args != [] {
      var a := NamedArg(args[0].0, args[0].1);
      NamedArgParts(a);
      BufferAgreesWithPlain(a);
      PlainBody(args[1..]);
      forall i | 0 <= i < |args| ensures |Encode(args[i].0)| < 0x1_0000_0000 {
        assert i > 0 ==> args[i] == args[1..][i - 1];
      }
    }
  }

  /** The payload's argument blob is a 0 and then exactly what `Args.toBytes` writes, whenever that writes anything. */
  lemma BlobIsPlainArgs(args: ArgMap)
    requires ArgsBytes(args).Ok?
    ensures RuntimeArgsBytes(args) == Ok([0] + ArgsBytes(args).value)
  {
    hide LE, ArgsBody, RuntimeArgsBody;
    PlainBody(args);
    var body := ArgsBody(args).value;
    assert [0] + LE(|args|, 4) + body == [0] + (LE(|args|, 4) + body);
  }

  /** Below 2^32 bytes the runtime arguments read back: names, values and order, as they are written. */
  lemma ReadRuntimeArgsBack(args: ArgMap)
    requires forall i :: 0 <= i < |args| ==> ArgProper(args[i])
    requires RuntimeArgsBytes(args).Ok? && |RuntimeArgsBytes(args).value| < 0x1_0000_0000
    ensures ReadRuntimeArgs(RuntimeArgsBytes(args).value) == Ok(NormArgs(args))
  {
    hide LE, NormArgs, ArgProper, RuntimeArgsBody, ShortNames, ReadArgs, ReadLE;
    var body := RuntimeArgsBody(args).value;
    BodyLength(args);
    assert ([0] + LE(|args|, 4) + body)[1..] == LE(|args|, 4) + body;
    ReadSizeBack(|args|, body);
    assert body + [] == body;
    ReadArgsBack(args, []);
  }

  /** Below 2^32 bytes, the runtime-arguments blob and names, values and order as written determine each other. */
  lemma RuntimeArgsDetermined(args: ArgMap, others: ArgMap)
    requires forall i :: 0 <= i < |args| ==> ArgProper(args[i])
    requires forall i :: 0 <= i < |others| ==> ArgProper(others[i])
    requires RuntimeArgsBytes(args).Ok? && |RuntimeArgsBytes(args).value| < 0x1_0000_0000
    ensures RuntimeArgsBytes(args) == RuntimeArgsBytes(others) <==> NormArgs(args) == NormArgs(others)
  {
    hide NormArgs, ArgProper, RuntimeArgsBytes, ReadRuntimeArgs;
    NormArgsBytes(args);
    NormArgsBytes(others);
    ReadRuntimeArgsBack(args);
    if RuntimeArgsBytes(args) == RuntimeArgsBytes(others) {
      ReadRuntimeArgsBack(others);
    }
  }

  /** What the field map writes when it holds the four framed fields. */
  lemma FourFieldsLayout(a: Bytes, t: Bytes, e: Bytes, s: Bytes)
    ensures FieldsBytes(FourFields(a, t, e, s)) == FieldsLayout(a, t, e, s)
  {
    hide LE, Framed;
    var fields := FourFields(a, t, e, s);
    assert fields[3..] == [(3, Framed(s))] && fields[2..] == [(2, Framed(e))] + fields[3..];
    assert fields[1..] == [(1, Framed(t))] + fields[2..] && fields == [(0, Framed(a))] + fields[1..];
    EntryStep(3, s, []);
    EntryStep(2, e, fields[3..]);
    EntryStep(1, t, fields[2..]);
    EntryStep(0, a, fields[1..]);
    assert [(3, Framed(s))] + [] == fields[3..];
  }

  /** One framed entry in front of others. */
  lemma EntryStep(k: nat, b: Bytes, rest: OrderedMap<nat, Bytes>)
    ensures FieldEntries([(k, Framed(b))] + rest) == LE(k, 2) + (LE(|b|, 4) + (b + FieldEntries(rest)))
  {
    hide LE;
    var fields: OrderedMap<nat, Bytes> := [(k, Framed(b))] + rest;
    EntriesStep(fields);
    assert fields[1..] == rest;
    AssociateThree(LE(k, 2), Framed(b), FieldEntries(rest));
    AssociateThree(LE(|b|, 4), b, FieldEntries(rest));
  }

  lemma ReadFieldUnderBack(k: nat, x: Bytes, rest: Bytes)
    requires k < 0x1_0000 && |x| < 0x1_0000_0000
    ensures ReadFieldUnder(LE(k, 2) + (LE(|x|, 4) + (x + rest)), k) == Ok((x, rest))
  {
    hide LE, ReadLE, ReadSized, Pow256;
    SmallPowers();
    ReadLEBack(k, 2, LE(|x|, 4) + (x + rest));
    ReadSizedBack(x, rest);
  }

  /** Framed fields below 2^32 bytes read back, all four under their indices. */
  lemma ReadFieldsBack(a: Bytes, t: Bytes, e: Bytes, s: Bytes)
    requires |FieldsLayout(a, t, e, s)| < 0x1_0000_0000
    ensures ReadFields(FieldsLayout(a, t, e, s)) == Ok((a, t, e, s))
    ensures |a| < 0x1_0000_0000
  {
    hide LE, ReadLE, ReadFieldUnder;
    var r3 := LE(3, 2) + (LE(|s|, 4) + (s + []));
    var r2 := LE(2, 2) + (LE(|e|, 4) + (e + r3));
    var r1 := LE(1, 2) + (LE(|t|, 4) + (t + r2));
    var r0 := LE(0, 2) + (LE(|a|, 4) + (a + r1));
    ReadSizeBack(4, r0);
    ReadFieldUnderBack(0, a, r1);
    ReadFieldUnderBack(1, t, r2);
    ReadFieldUnderBack(2, e, r3);
    ReadFieldUnderBack(3, s, []);
  }

  /** Framed fields below 2^32 bytes determine all four. */
  lemma FieldsDetermined(a: Bytes, t: Bytes, e: Bytes, s: Bytes, b: Bytes, u: Bytes, f: Bytes, w: Bytes)
    requires FieldsLayout(a, t, e, s) == FieldsLayout(b, u, f, w)
    requires |FieldsLayout(a, t, e, s)| < 0x1_0000_0000
    ensures a == b && t == u && e == f && s == w
  {
    hide *;
    ReadFieldsBack(a, t, e, s);
    ReadFieldsBack(b, u, f, w);
  }

  /** The payload with everything its encoders ignore cleared and every text as it is written. */
  function NormPayload(p: TransactionPayload): (n: TransactionPayload) {
    p.(initiator := NormInitiator(p.initiator), chainName := NormText(p.chainName), pricing := NormPricing(p.pricing),
       args := NormArgs(p.args), target := NormTarget(p.target), entryPoint := NormEntryPoint(p.entryPoint),
       scheduling := NormScheduling(p.scheduling))
  }

  /** Texts short enough for their lengths, no ambiguous argument values. */
  predicate PayloadOk(p: TransactionPayload) {
    && TextOk(p.chainName) && TargetOk(p.target) && EntryPointOk(p.entryPoint)
    && forall i :: 0 <= i < |p.args| ==> ArgProper(p.args[i])
  }

  lemma ReadDateBack(d: JsDate)
    requires DateBytes(d).Ok?
    ensures ReadDate(DateBytes(d).value) == Ok(d)
  {
    hide ToBytesU64, NumberIn;
    NumberInField(d.ms);
  }

  lemma PayloadTableParts(p: TransactionPayload)
    requires PayloadTable(p).Ok?
    ensures RuntimeArgsBytes(p.args).Ok? && TargetBytes(p.target).Ok? && EntryPointBytes(p.entryPoint).Ok?
    ensures SchedulingBytes(p.scheduling).Ok? && InitiatorBytes(p.initiator).Ok? && DateBytes(p.timestamp).Ok?
    ensures ToBytesU64(p.ttl).Ok? && PricingBytes(p.pricing).Ok?
    ensures PayloadTable(p).value ==
            [InitiatorBytes(p.initiator).value, DateBytes(p.timestamp).value, ToBytesU64(p.ttl).value,
             StringBytes(p.chainName), PricingBytes(p.pricing).value,
             FieldsLayout(RuntimeArgsBytes(p.args).value, TargetBytes(p.target).value,
                          EntryPointBytes(p.entryPoint).value, SchedulingBytes(p.scheduling).value)]
  {
    hide RuntimeArgsBytes, TargetBytes, EntryPointBytes, SchedulingBytes, InitiatorBytes, DateBytes, ToBytesU64,
         PricingBytes, StringBytes, FieldsLayout;
  }

  /**
   A payload that can be written reads back, part by part, from tags, widths and indices in numerals:
   what the encoders ignore is cleared, nothing else is lost.
   */
  lemma ReadPayloadBack(p: TransactionPayload)
    requires PayloadOk(p) && PayloadBytes(p).Ok?
    ensures ReadPayload(PayloadBytes(p).value) == Ok(NormPayload(p))
  {
    hide *;
    PayloadParts(p);
    PayloadTableParts(p);
    OkParts(p);
    var vs := PayloadTable(p).value;
    FieldsOfPayload(p);
    ReadInitiatorBack(p.initiator);
    ReadDateBack(p.timestamp);
    NumberInField(p.ttl);
    TextInField(p.chainName);
    ReadPricingBack(p.pricing);
    var a, t := RuntimeArgsBytes(p.args).value, TargetBytes(p.target).value;
    var e, s := EntryPointBytes(p.entryPoint).value, SchedulingBytes(p.scheduling).value;
    CalltableLimits(vs);
    assert |vs[5]| < 0x1_0000_0000;
    ReadFieldsBack(a, t, e, s);
    ReadRuntimeArgsBack(p.args);
    ReadTargetBack(p.target);
    ReadEntryPointBack(p.entryPoint);
    ReadSchedulingBack(p.scheduling);
    ReadingSteps(PayloadBytes(p).value, vs[0], vs[1], vs[2], vs[3], vs[4], vs[5], a, t, e, s);
    NormParts(p);
  }

  lemma PayloadParts(p: TransactionPayload)
    requires PayloadBytes(p).Ok?
    ensures PayloadTable(p).Ok? && |PayloadTable(p).value| == 6
    ensures CalltableBytes(PayloadTable(p).value).Ok? && PayloadBytes(p) == CalltableBytes(PayloadTable(p).value)
  {
    hide PayloadTable, CalltableBytes;
  }

  lemma FieldsOfPayload(p: TransactionPayload)
    requires PayloadBytes(p).Ok?
    ensures PayloadTable(p).Ok?
    ensures forall i :: 0 <= i < 6 ==> FieldAt(PayloadBytes(p).value, i) == Ok(PayloadTable(p).value[i])
  {
    hide PayloadTable, CalltableBytes, FieldAt;
    forall i | 0 <= i < 6 ensures FieldAt(PayloadBytes(p).value, i) == Ok(PayloadTable(p).value[i]) {
      FieldOfWritten(PayloadTable(p).value, i);
    }
  }

  /** The reader's steps, once every part is known to read. */
  lemma ReadingSteps(b: Bytes, f0: Bytes, f1: Bytes, f2: Bytes, f3: Bytes, f4: Bytes, f5: Bytes,
                     a: Bytes, t: Bytes, e: Bytes, s: Bytes)
    requires FieldAt(b, 0) == Ok(f0) && FieldAt(b, 1) == Ok(f1) && FieldAt(b, 2) == Ok(f2)
    requires FieldAt(b, 3) == Ok(f3) && FieldAt(b, 4) == Ok(f4) && FieldAt(b, 5) == Ok(f5)
    requires ReadInitiator(f0).Ok? && ReadDate(f1).Ok? && NumberIn(f2, 8).Ok? && TextIn(f3).Ok? && ReadPricing(f4).Ok?
    requires ReadFields(f5) == Ok((a, t, e, s))
    requires ReadRuntimeArgs(a).Ok? && ReadTarget(t).Ok? && ReadEntryPoint(e).Ok? && ReadScheduling(s).Ok?
    ensures ReadPayload(b) ==
            Ok(TransactionPayload(ReadInitiator(f0).value, ReadDate(f1).value, NumberIn(f2, 8).value, TextIn(f3).value,
                                  ReadPricing(f4).value, ReadRuntimeArgs(a).value, ReadTarget(t).value,
                                  ReadEntryPoint(e).value, ReadScheduling(s).value))
  {
    hide FieldAt, ReadInitiator, ReadDate, NumberIn, TextIn, ReadPricing, ReadFields, ReadRuntimeArgs, ReadTarget,
         ReadEntryPoint, ReadScheduling;
  }

  lemma NormParts(p: TransactionPayload)
    ensures NormPayload(p) ==
            TransactionPayload(NormInitiator(p.initiator), p.timestamp, p.ttl, NormText(p.chainName),
                               NormPricing(p.pricing), NormArgs(p.args), NormTarget(p.target),
                               NormEntryPoint(p.entryPoint), NormScheduling(p.scheduling))
  {
  }

  lemma OkParts(p: TransactionPayload)
    requires PayloadOk(p)
    ensures TextOk(p.chainName) && TargetOk(p.target) && EntryPointOk(p.entryPoint)
    ensures forall i :: 0 <= i < |p.args| ==> ArgProper(p.args[i])
  {
  }

  /** Normal forms agree exactly when the parts do. */
  lemma SameNorm(p: TransactionPayload, q: TransactionPayload)
    ensures NormPayload(p) == NormPayload(q) <==>
            && NormInitiator(p.initiator) == NormInitiator(q.initiator) && p.timestamp == q.timestamp && p.ttl == q.ttl
            && NormText(p.chainName) == NormText(q.chainName) && NormPricing(p.pricing) == NormPricing(q.pricing)
            && NormArgs(p.args) == NormArgs(q.args)
            && NormTarget(p.target) == NormTarget(q.target)
            && NormEntryPoint(p.entryPoint) == NormEntryPoint(q.entryPoint)
            && NormScheduling(p.scheduling) == NormScheduling(q.scheduling)
  {
    hide NormInitiator, NormPricing, NormTarget, NormEntryPoint, NormScheduling, NormText, NormArgs;
  }

  /** What the encoders ignore does not change what they write, or how they fail. */
  lemma NormKeepsBytes(p: TransactionPayload)
    ensures InitiatorBytes(NormInitiator(p.initiator)) == InitiatorBytes(p.initiator)
    ensures PricingBytes(NormPricing(p.pricing)) == PricingBytes(p.pricing)
    ensures EntryPointBytes(NormEntryPoint(p.entryPoint)) == EntryPointBytes(p.entryPoint)
    ensures SchedulingBytes(NormScheduling(p.scheduling)) == SchedulingBytes(p.scheduling)
    ensures TargetBytes(NormTarget(p.target)) == TargetBytes(p.target)
    ensures RuntimeArgsBytes(NormArgs(p.args)) == RuntimeArgsBytes(p.args)
    ensures StringBytes(NormText(p.chainName)) == StringBytes(p.chainName)
  {
    hide CalltableBytes, ToBytesU64, ToBytesU8, StringBytes, TargetBytes, NormTarget, EntryPointBytes, NormEntryPoint,
         RuntimeArgsBytes, NormText, NormArgs;
    NormEntryPointBytes(p.entryPoint);
    NormArgsBytes(p.args);
    NormTextBytes(p.chainName);
    NormTargetBytes(p.target);
  }

  lemma SameTable(p: TransactionPayload, q: TransactionPayload)
    requires NormPayload(p) == NormPayload(q)
    ensures PayloadBytes(p) == PayloadBytes(q)
  {
    hide *;
    SameNorm(p, q);
    NormKeepsBytes(p);
    NormKeepsBytes(q);
    PayloadSteps(p);
    PayloadSteps(q);
  }

  /**
   A payload that can be written is hashed from the same bytes as another exactly when the two agree
   on initiator, timestamp, ttl, chain name, pricing mode, arguments in order, target, entry point
   and scheduling, up to what the encoders ignore.
   */
  lemma PayloadDetermined(p: TransactionPayload, q: TransactionPayload)
    requires PayloadOk(p) && PayloadOk(q)
    ensures PayloadBytes(p).Ok? ==> (PayloadBytes(p) == PayloadBytes(q) <==> NormPayload(p) == NormPayload(q))
  {
    hide *;
    if PayloadBytes(p).Ok? && PayloadBytes(p) == PayloadBytes(q) {
      ReadPayloadBack(p);
      ReadPayloadBack(q);
    }
    if NormPayload(p) == NormPayload(q) {
      SameTable(p, q);
    }
  }
}
