/**
 The parts of a V1 transaction payload, each a call table of its own: initiator, pricing mode,
 entry point and scheduling (src/types/InitiatorAddr.ts, PricingMode.ts, TransactionEntryPoint.ts,
 TransactionScheduling.ts); targets have a module of their own.

 Each part `X` has its bytes `XBytes`, the step-by-step encoder `XToBytes` proved equal to
 them, and `NormX`, the form in which the fields the encoder ignores are cleared. `ReadX` reads
 the wire format, tags and widths in numerals, and gives back `NormX` of whatever is written, so
 bytes and normal form determine each other.
 */
module TransactionParts {
  import opened Basics
  import opened Utf8
  import opened ByteConverters
  import opened CLValues
  import opened UniqueDecoding
  import opened Calltables

  type Hash = b: Bytes | |b| == 32 witness Zeros(32)

  /** A number that fills its field of k bytes. */
  function NumberIn(field: Bytes, k: nat): (r: Result<nat>) {
    if |field| != k then Err(InvalidFormat) else Ok(FromLE(field))
  }

  lemma NumberInField(n: int)
    ensures ToBytesU8(n).Ok? ==> NumberIn(ToBytesU8(n).value, 1) == Ok(n)
    ensures ToBytesU32(n).Ok? ==> NumberIn(ToBytesU32(n).value, 4) == Ok(n)
    ensures ToBytesU64(n).Ok? ==> NumberIn(ToBytesU64(n).value, 8) == Ok(n)
  {
    hide LE, FromLE, Pow256;
    SmallPowers();
    if 0 <= n < 0x100 { FromLEOfLE(n, 1); }
    if 0 <= n < 0x1_0000_0000 { FromLEOfLE(n, 4); }
    if 0 <= n < 0x1_0000_0000_0000_0000 { FromLEOfLE(n, 8); }
  }

  /** A text that fills its field. */
  function TextIn(field: Bytes): (r: Result<JsString>) {
    var (s, rest) :- ReadText(field);
    if rest != [] then Err(InvalidFormat) else Ok(s)
  }

  lemma TextInField(s: JsString)
    requires TextOk(s)
    ensures TextIn(StringBytes(s)) == Ok(NormText(s))
  {
    hide StringBytes, NormText, ReadText, TextOk;
    ReadTextBack(s, []);
    assert StringBytes(s) + [] == StringBytes(s);
  }

  // ------------------------------------------------------------- initiator

  datatype InitiatorAddr = InitiatorAddr(publicKey: Option<PublicKey>, accountHash: Option<Hash>)

  function InitiatorBytes(a: InitiatorAddr): (r: Result<Bytes>) {
    if a.accountHash.Some? then CalltableBytes([[1], a.accountHash.value])
    else if a.publicKey.Some? then CalltableBytes([[0], PublicKeyBytes(a.publicKey.value)])
    else Err(MissingField)
  }

  function NormInitiator(a: InitiatorAddr): (r: InitiatorAddr) {
    if a.accountHash.Some? then a.(publicKey := None) else a
  }

  method InitiatorToBytes(a: InitiatorAddr) returns (r: Result<Bytes>)
    ensures r == InitiatorBytes(a)
  {
    hide CalltableBytes, TableOf, TableBytes, Values, PublicKeyBytes;
    var c := new CalltableSerialization();
    if a.accountHash.Some? {
      var _ := c.AddField(0, [1]);
      var _ := c.AddField(1, a.accountHash.value);
      assert Values(c.fields) == [[1], a.accountHash.value];
      r := c.ToBytes();
    } else if a.publicKey.Some? {
      var _ := c.AddField(0, [0]);
      var _ := c.AddField(1, PublicKeyBytes(a.publicKey.value));
      assert Values(c.fields) == [[0], PublicKeyBytes(a.publicKey.value)];
      r := c.ToBytes();
    } else {
      r := Err(MissingField);
    }
  }

  /** Kind 0 is a public key, kind 1 an account hash. */
  function ReadInitiator(b: Bytes): (r: Result<InitiatorAddr>) {
    var kind :- FieldAt(b, 0);
    var address :- FieldAt(b, 1);
    if kind == [0] && address != [] then
      Ok(InitiatorAddr(Some(PublicKey.PublicKey(address[0], address[1..])), None))
    else if kind == [1] && |address| == 32 then Ok(InitiatorAddr(None, Some(address)))
    else Err(InvalidFormat)
  }

  /** A written initiator reads back as the address that counts. */
  lemma ReadInitiatorBack(a: InitiatorAddr)
    requires InitiatorBytes(a).Ok?
    ensures ReadInitiator(InitiatorBytes(a).value) == Ok(NormInitiator(a))
  {
    hide CalltableBytes, FieldAt;
    var vs := if a.accountHash.Some? then [[1], a.accountHash.value] else [[0], PublicKeyBytes(a.publicKey.value)];
    FieldOfWritten(vs, 0);
    FieldOfWritten(vs, 1);
    if a.accountHash.None? {
      var pk := a.publicKey.value;
      assert ([pk.alg] + pk.key)[1..] == pk.key;
    }
  }

  /** Initiators write the same bytes exactly when they agree on the address that counts. */
  lemma InitiatorDetermined(a: InitiatorAddr, b: InitiatorAddr)
    requires InitiatorBytes(a).Ok? && InitiatorBytes(b).Ok?
    ensures InitiatorBytes(a) == InitiatorBytes(b) <==> NormInitiator(a) == NormInitiator(b)
  {
    hide CalltableBytes, ReadInitiator;
    ReadInitiatorBack(a);
    ReadInitiatorBack(b);
  }

  /** An initiator is written exactly when an address is set; a public key must leave the field its length. */
  lemma InitiatorIsWritten(a: InitiatorAddr)
    ensures InitiatorBytes(a).Ok? <==>
            a.accountHash.Some? || (a.publicKey.Some? && |a.publicKey.value.key| + 2 < 0x1_0000_0000)
  {
    hide CalltableBytes, Concat;
    if a.accountHash.Some? {
      CalltableLimits([[1], a.accountHash.value]);
      ConcatSizes([1], a.accountHash.value, [], []);
    } else if a.publicKey.Some? {
      CalltableLimits([[0], PublicKeyBytes(a.publicKey.value)]);
      ConcatSizes([0], PublicKeyBytes(a.publicKey.value), [], []);
    }
  }

  // ---------------------------------------------------------- pricing mode

  datatype PaymentLimited = PaymentLimited(gasPriceTolerance: int, paymentAmount: int, standardPayment: bool)
  datatype FixedMode = FixedMode(gasPriceTolerance: int, additionalComputationFactor: int)
  datatype PricingMode = PricingMode(
    paymentLimited: Option<PaymentLimited>, fixedMode: Option<FixedMode>, prepaid: Option<Hash>)

  function PaymentLimitedBytes(m: PaymentLimited): (r: Result<Bytes>) {
    var amount :- ToBytesU64(m.paymentAmount);
    var tolerance :- ToBytesU8(m.gasPriceTolerance);
    CalltableBytes([[0], amount, tolerance, [if m.standardPayment then 1 else 0]])
  }

  function FixedModeBytes(m: FixedMode): (r: Result<Bytes>) {
    var tolerance :- ToBytesU8(m.gasPriceTolerance);
    var factor :- ToBytesU8(m.additionalComputationFactor);
    CalltableBytes([[1], tolerance, factor])
  }

  function PricingBytes(m: PricingMode): (r: Result<Bytes>) {
    if m.paymentLimited.Some? then PaymentLimitedBytes(m.paymentLimited.value)
    else if m.fixedMode.Some? then FixedModeBytes(m.fixedMode.value)
    else if m.prepaid.Some? then CalltableBytes([[2], m.prepaid.value])
    else Err(MissingField)
  }

  function NormPricing(m: PricingMode): (r: PricingMode) {
    if m.paymentLimited.Some? then PricingMode(m.paymentLimited, None, None)
    else if m.fixedMode.Some? then PricingMode(None, m.fixedMode, None)
    else m
  }

  method PaymentLimitedToBytes(p: PaymentLimited) returns (r: Result<Bytes>)
    ensures r == PaymentLimitedBytes(p)
  {
    hide CalltableBytes, TableOf, TableBytes, Values, ToBytesU64, ToBytesU8;
    var c := new CalltableSerialization();
    var _ := c.AddField(0, [0]);
    var amount := ToBytesU64(p.paymentAmount);
    if amount.Err? { return amount; }
    var _ := c.AddField(1, amount.value);
    var tolerance := ToBytesU8(p.gasPriceTolerance);
    if tolerance.Err? { return tolerance; }
    var _ := c.AddField(2, tolerance.value);
    var _ := c.AddField(3, [if p.standardPayment then 1 else 0]);
    assert Values(c.fields) == [[0], amount.value, tolerance.value, [if p.standardPayment then 1 else 0]];
    r := c.ToBytes();
  }

  method FixedModeToBytes(f: FixedMode) returns (r: Result<Bytes>)
    ensures r == FixedModeBytes(f)
  {
    hide CalltableBytes, TableOf, TableBytes, Values, ToBytesU8;
    var c := new CalltableSerialization();
    var _ := c.AddField(0, [1]);
    var tolerance := ToBytesU8(f.gasPriceTolerance);
    if tolerance.Err? { return tolerance; }
    var _ := c.AddField(1, tolerance.value);
    var factor := ToBytesU8(f.additionalComputationFactor);
    if factor.Err? { return factor; }
    var _ := c.AddField(2, factor.value);
    assert Values(c.fields) == [[1], tolerance.value, factor.value];
    r := c.ToBytes();
  }

  method PrepaidToBytes(receipt: Hash) returns (r: Result<Bytes>)
    ensures r == CalltableBytes([[2], receipt])
  {
    hide CalltableBytes, TableOf, TableBytes, Values;
    var c := new CalltableSerialization();
    var _ := c.AddField(0, [2]);
    var _ := c.AddField(1, receipt);
    assert Values(c.fields) == [[2], receipt];
    r := c.ToBytes();
  }

  method PricingToBytes(m: PricingMode) returns (r: Result<Bytes>)
    ensures r == PricingBytes(m)
  {
    hide CalltableBytes, PaymentLimitedBytes, FixedModeBytes;
    if m.paymentLimited.Some? {
      r := PaymentLimitedToBytes(m.paymentLimited.value);
    } else if m.fixedMode.Some? {
      r := FixedModeToBytes(m.fixedMode.value);
    } else if m.prepaid.Some? {
      r := PrepaidToBytes(m.prepaid.value);
    } else {
      r := Err(MissingField);
    }
  }

  /** Kind 0 is payment-limited, 1 fixed, 2 prepaid. */
  function ReadPricing(b: Bytes): (r: Result<PricingMode>) {
    var kind :- FieldAt(b, 0);
    var first :- FieldAt(b, 1);
    if kind == [0] then
      var amount :- NumberIn(first, 8);
      var second :- FieldAt(b, 2);
      var tolerance :- NumberIn(second, 1);
      var third :- FieldAt(b, 3);
      var standard :- NumberIn(third, 1);
      if standard > 1 then Err(InvalidFormat)
      else Ok(PricingMode(Some(PaymentLimited(tolerance, amount, standard == 1)), None, None))
    else if kind == [1] then
      var tolerance :- NumberIn(first, 1);
      var second :- FieldAt(b, 2);
      var factor :- NumberIn(second, 1);
      Ok(PricingMode(None, Some(FixedMode(tolerance, factor)), None))
    else if kind == [2] && |first| == 32 then Ok(PricingMode(None, None, Some(first)))
    else Err(UnknownTag)
  }

  lemma OneByte(x: Byte)
    ensures NumberIn([x], 1) == Ok(x)
  {
    assert FromLE([x]) == x + 256 * FromLE([]);
  }

  lemma ReadPaymentLimitedBack(p: PaymentLimited)
    requires PaymentLimitedBytes(p).Ok?
    ensures ReadPricing(PaymentLimitedBytes(p).value) == Ok(PricingMode(Some(p), None, None))
  {
    hide CalltableBytes, FieldAt, ToBytesU64, ToBytesU8, NumberIn;
    var vs := [[0], ToBytesU64(p.paymentAmount).value, ToBytesU8(p.gasPriceTolerance).value,
               [if p.standardPayment then 1 else 0]];
    FieldOfWritten(vs, 0);
    FieldOfWritten(vs, 1);
    FieldOfWritten(vs, 2);
    FieldOfWritten(vs, 3);
    NumberInField(p.paymentAmount);
    NumberInField(p.gasPriceTolerance);
    OneByte(if p.standardPayment then 1 else 0);
  }

  lemma ReadFixedModeBack(f: FixedMode)
    requires FixedModeBytes(f).Ok?
    ensures ReadPricing(FixedModeBytes(f).value) == Ok(PricingMode(None, Some(f), None))
  {
    hide CalltableBytes, FieldAt, ToBytesU8, NumberIn;
    var vs := [[1], ToBytesU8(f.gasPriceTolerance).value, ToBytesU8(f.additionalComputationFactor).value];
    FieldOfWritten(vs, 0);
    FieldOfWritten(vs, 1);
    FieldOfWritten(vs, 2);
    NumberInField(f.gasPriceTolerance);
    NumberInField(f.additionalComputationFactor);
  }

  /** A written pricing mode reads back, field by field, as the mode that counts. */
  lemma ReadPricingBack(m: PricingMode)
    requires PricingBytes(m).Ok?
    ensures ReadPricing(PricingBytes(m).value) == Ok(NormPricing(m))
  {
    hide PaymentLimitedBytes, FixedModeBytes, CalltableBytes, FieldAt;
    if m.paymentLimited.Some? {
      ReadPaymentLimitedBack(m.paymentLimited.value);
    } else if m.fixedMode.Some? {
      ReadFixedModeBack(m.fixedMode.value);
    } else {
      FieldOfWritten([[2], m.prepaid.value], 0);
      FieldOfWritten([[2], m.prepaid.value], 1);
    }
  }

  /** Pricing modes write the same bytes exactly when they agree on the mode that counts. */
  lemma PricingDetermined(a: PricingMode, b: PricingMode)
    requires PricingBytes(a).Ok? && PricingBytes(b).Ok?
    ensures PricingBytes(a) == PricingBytes(b) <==> NormPricing(a) == NormPricing(b)
  {
    hide CalltableBytes, PaymentLimitedBytes, FixedModeBytes, ReadPricing;
    ReadPricingBack(a);
    ReadPricingBack(b);
  }

  /** A pricing mode is written exactly when the mode that counts has its numbers in range. */
  lemma PricingIsWritten(m: PricingMode)
    ensures PricingBytes(m).Ok? <==>
            if m.paymentLimited.Some? then
              && 0 <= m.paymentLimited.value.paymentAmount < 0x1_0000_0000_0000_0000
              && 0 <= m.paymentLimited.value.gasPriceTolerance < 0x100
            else if m.fixedMode.Some? then
              && 0 <= m.fixedMode.value.gasPriceTolerance < 0x100
              && 0 <= m.fixedMode.value.additionalComputationFactor < 0x100
            else m.prepaid.Some?
  {
    hide CalltableBytes, Concat, LE;
    if m.paymentLimited.Some? {
      var p := m.paymentLimited.value;
      if ToBytesU64(p.paymentAmount).Ok? && ToBytesU8(p.gasPriceTolerance).Ok? {
        var x, y := ToBytesU64(p.paymentAmount).value, ToBytesU8(p.gasPriceTolerance).value;
        CalltableLimits([[0], x, y, [if p.standardPayment then 1 else 0]]);
        ConcatSizes([0], x, y, [if p.standardPayment then 1 else 0]);
      }
    } else if m.fixedMode.Some? {
      var f := m.fixedMode.value;
      if ToBytesU8(f.gasPriceTolerance).Ok? && ToBytesU8(f.additionalComputationFactor).Ok? {
        var x, y := ToBytesU8(f.gasPriceTolerance).value, ToBytesU8(f.additionalComputationFactor).value;
        CalltableLimits([[1], x, y]);
        ConcatSizes([1], x, y, []);
      }
    } else if m.prepaid.Some? {
      CalltableLimits([[2], m.prepaid.value]);
      ConcatSizes([2], m.prepaid.value, [], []);
    }
  }

  // ----------------------------------------------------------- entry point

  datatype EntryPointKind =
    | Call | Custom | Transfer | AddBid | WithdrawBid | Delegate | Undelegate | Redelegate
    | ActivateBid | ChangeBidPublicKey | AddReservations | CancelReservations | Burn

  datatype EntryPoint = EntryPoint(kind: EntryPointKind, custom: Option<JsString>)

  function EntryPointTag(k: EntryPointKind): (tag: Byte) {
    match k
    case Call => 0
    case Custom => 1
    case Transfer => 2
    case AddBid => 3
    case WithdrawBid => 4
    case Delegate => 5
    case Undelegate => 6
    case Redelegate => 7
    case ActivateBid => 8
    case ChangeBidPublicKey => 9
    case AddReservations => 10
    case CancelReservations => 11
    case Burn => 12
  }

  function EntryPointOfTag(tag: Byte): (k: Option<EntryPointKind>)
    ensures k.Some? ==> EntryPointTag(k.value) == tag
    ensures k.None? ==> forall x :: EntryPointTag(x) != tag
  {
    match tag
    case 0 => Some(Call)
    case 1 => Some(Custom)
    case 2 => Some(Transfer)
    case 3 => Some(AddBid)
    case 4 => Some(WithdrawBid)
    case 5 => Some(Delegate)
    case 6 => Some(Undelegate)
    case 7 => Some(Redelegate)
    case 8 => Some(ActivateBid)
    case 9 => Some(ChangeBidPublicKey)
    case 10 => Some(AddReservations)
    case 11 => Some(CancelReservations)
    case 12 => Some(Burn)
    case _ => None
  }

  /** The custom name is written only for Custom, and only when it is not empty. */
  predicate WritesName(e: EntryPoint) {
    e.kind.Custom? && e.custom.Some? && e.custom.value != []
  }

  function EntryPointFields(e: EntryPoint): (vs: seq<Bytes>) {
    if WritesName(e) then [[EntryPointTag(e.kind)], StringBytes(e.custom.value)] else [[EntryPointTag(e.kind)]]
  }

  function EntryPointBytes(e: EntryPoint): (r: Result<Bytes>) {
    CalltableBytes(EntryPointFields(e))
  }

  function NormEntryPoint(e: EntryPoint): (r: EntryPoint) {
    e.(custom := if WritesName(e) then Some(NormText(e.custom.value)) else None)
  }

  predicate EntryPointOk(e: EntryPoint) {
    WritesName(e) ==> TextOk(e.custom.value)
  }

  method EntryPointToBytes(e: EntryPoint) returns (r: Result<Bytes>)
    ensures r == EntryPointBytes(e)
  {
    hide CalltableBytes, TableOf, TableBytes, Values, StringBytes, EntryPointTag;
    var c := new CalltableSerialization();
    var _ := c.AddField(0, [EntryPointTag(e.kind)]);
    if e.kind.Custom? && e.custom.Some? && e.custom.value != [] {
      var _ := c.AddField(1, StringBytes(e.custom.value));
    }
    assert Values(c.fields) == EntryPointFields(e);
    r := c.ToBytes();
  }

  /** The kinds of entry point, numbered from 0. */
  const KINDS: seq<EntryPointKind> := [
    Call, Custom, Transfer, AddBid, WithdrawBid, Delegate, Undelegate, Redelegate, ActivateBid, ChangeBidPublicKey,
    AddReservations, CancelReservations, Burn]

  /** A kind, and for a second field a name. */
  function ReadEntryPoint(b: Bytes): (r: Result<EntryPoint>) {
    var field :- FieldAt(b, 0);
    var kind :- NumberIn(field, 1);
    if kind >= |KINDS| then Err(UnknownTag)
    else
      var name := FieldAt(b, 1);
      if name.Err? then Ok(EntryPoint(KINDS[kind], None))
      else
        var text :- TextIn(name.value);
        Ok(EntryPoint(KINDS[kind], Some(text)))
  }

  /** A written entry point reads back as its kind and, for Custom, its name as written. */
  lemma ReadEntryPointBack(e: EntryPoint)
    requires EntryPointBytes(e).Ok? && EntryPointOk(e)
    ensures ReadEntryPoint(EntryPointBytes(e).value) == Ok(NormEntryPoint(e))
  {
    hide CalltableBytes, FieldAt, StringBytes, NormText, TextIn, NumberIn, TextOk;
    var vs := EntryPointFields(e);
    FieldOfWritten(vs, 0);
    FieldOfWritten(vs, 1);
    OneByte(EntryPointTag(e.kind));
    assert KINDS[EntryPointTag(e.kind)] == e.kind;
    if WritesName(e) {
      TextInField(e.custom.value);
    }
  }

  /** Entry points write the same bytes exactly when they agree on kind and, for Custom, written name. */
  lemma EntryPointDetermined(a: EntryPoint, b: EntryPoint)
    requires EntryPointBytes(a).Ok? && EntryPointBytes(b).Ok? && EntryPointOk(a) && EntryPointOk(b)
    ensures EntryPointBytes(a) == EntryPointBytes(b) <==> NormEntryPoint(a) == NormEntryPoint(b)
  {
    hide *;
    ReadEntryPointBack(a);
    ReadEntryPointBack(b);
    NormEntryPointBytes(a);
    NormEntryPointBytes(b);
  }

  lemma NormEntryPointBytes(e: EntryPoint)
    ensures EntryPointBytes(NormEntryPoint(e)) == EntryPointBytes(e)
  {
    hide CalltableBytes, StringBytes, NormText, EntryPointTag;
    if WritesName(e) {
      NormTextKeeps(e.custom.value);
      NormTextBytes(e.custom.value);
    }
  }

  /** An entry point is written whenever a custom name leaves the field its length. */
  lemma EntryPointIsWritten(e: EntryPoint)
    ensures EntryPointBytes(e).Ok? <==> (WritesName(e) ==> |Encode(e.custom.value)| + 5 < 0x1_0000_0000)
  {
    hide CalltableBytes, Concat, LE, Encode;
    CalltableLimits(EntryPointFields(e));
    ConcatSizes([EntryPointTag(e.kind)], if WritesName(e) then StringBytes(e.custom.value) else [], [], []);
  }

  /** `TransactionEntryPoint.fromBytes`: for Custom it expects a nested call table. */
  function EntryPointFromBytes(b: Bytes): (r: Result<EntryPoint>) {
    var table :- ParseTable(b);
    var tagBytes := FindField(table.fields, 0);
    if tagBytes.None? || |tagBytes.value| != 1 then Err(InvalidFormat)
    else if EntryPointOfTag(tagBytes.value[0]).None? then Err(UnknownTag)
    else
      var kind := EntryPointOfTag(tagBytes.value[0]).value;
      if kind.Custom? then CustomFromField(FindField(table.fields, 1))
      else Ok(EntryPoint(kind, None))
  }

  function CustomFromField(field: Option<Bytes>): (r: Result<EntryPoint>) {
    if field.None? then Err(MissingField)
    else
      var nested :- ParseTable(field.value);
      var flag := FindField(nested.fields, 0);
      if flag.None? || flag.value == [] || flag.value[0] != 1 then Err(InvalidFormat)
      else
        var name := FindField(nested.fields, 1);
        if name.None? then Err(MissingField)
        else
          var (s, _) :- StringFromBytes(name.value);
          if s == [] then Err(MissingField) else Ok(EntryPoint(Custom, Some(s)))
  }

  lemma {:induction false} HeadersNeedRoom(b: Bytes, at: nat, n: nat)
    requires ReadHeaders(b, at, n).Ok? && n > 0
    ensures at + 6 * n <= |b|
    decreases n
  {
    hide ParseU16;
    if n > 1 {
      HeadersNeedRoom(b, at + 6, n - 1);
    }
  }

  /** A written name is never long enough to be the call table the decoder looks for. */
  lemma NameIsNoCalltable(s: JsString)
    requires s != [] && |s| < 0x1_0000_0000
    ensures ParseTable(StringBytes(s)).Err?
  {
    hide LE, ParseU32, Encode, ReadHeaders, CutFields;
    var b := StringBytes(s);
    EncodeLength(s);
    assert b[0..4] == LE(|s|, 4);
    ParseU32OfLE(|s|, b[0..4]);
    if ReadHeaders(b, 4, |s|).Ok? {
      HeadersNeedRoom(b, 4, |s|);
    }
  }

  /** Bytes of an entry point decode to it exactly when it is not Custom; Custom never comes back. */
  lemma EntryPointRoundTrip(e: EntryPoint)
    requires EntryPointBytes(e).Ok? && (WritesName(e) ==> |e.custom.value| < 0x1_0000_0000)
    ensures EntryPointFromBytes(EntryPointBytes(e).value) == Ok(NormEntryPoint(e)) <==> !e.kind.Custom?
    ensures e.kind.Custom? ==> EntryPointFromBytes(EntryPointBytes(e).value).Err?
  {
    hide CalltableBytes, ParseTable, StringBytes, FindField, TableOf;
    var vs := EntryPointFields(e);
    var b := EntryPointBytes(e).value;
    CalltableRoundTrip(vs, []);
    assert b + [] == b;
    GetFieldOfTable(vs, 0);
    GetFieldOfTable(vs, 1);
    assert EntryPointOfTag(EntryPointTag(e.kind)) == Some(e.kind);
    if WritesName(e) {
      NameIsNoCalltable(e.custom.value);
    }
  }

  // ------------------------------------------------------------ scheduling

  /** A JavaScript date: a time value within 8.64e15 ms of the epoch, or Invalid Date. */
  type TimeValue = t: int | -8640000000000000 <= t <= 8640000000000000
  datatype JsDate = ValidDate(ms: TimeValue) | InvalidDate

  const MAX_SAFE := 0x1F_FFFF_FFFF_FFFF

  datatype Scheduling = Scheduling(standard: bool, futureEra: Option<int>, futureTimestamp: Option<JsDate>)

  function SchedulingBytes(s: Scheduling): (r: Result<Bytes>) {
    if s.standard then CalltableBytes([[0]])
    else if s.futureEra.Some? then
      var era :- ToBytesU64(s.futureEra.value);
      CalltableBytes([[1], era])
    else if s.futureTimestamp.Some? then
      if s.futureTimestamp.value.InvalidDate? then Err(InvalidFormat)
      else
        var ms :- ToBytesU64(s.futureTimestamp.value.ms);
        CalltableBytes([[2], ms])
    else Err(MissingField)
  }

  function NormScheduling(s: Scheduling): (r: Scheduling) {
    if s.standard then Scheduling(true, None, None)
    else if s.futureEra.Some? then Scheduling(false, s.futureEra, None)
    else s
  }

  method SchedulingToBytes(s: Scheduling) returns (r: Result<Bytes>)
    ensures r == SchedulingBytes(s)
  {
    hide CalltableBytes, TableOf, TableBytes, Values;
    var c := new CalltableSerialization();
    if s.standard {
      var _ := c.AddField(0, [0]);
      assert Values(c.fields) == [[0]];
      r := c.ToBytes();
    } else if s.futureEra.Some? {
      var _ := c.AddField(0, [1]);
      var era := ToBytesU64(s.futureEra.value);
      if era.Err? { return era; }
      var _ := c.AddField(1, era.value);
      assert Values(c.fields) == [[1], era.value];
      r := c.ToBytes();
    } else if s.futureTimestamp.Some? {
      var _ := c.AddField(0, [2]);
      if s.futureTimestamp.value.InvalidDate? { return Err(InvalidFormat); }
      var ms := ToBytesU64(s.futureTimestamp.value.ms);
      if ms.Err? { return ms; }
      var _ := c.AddField(1, ms.value);
      assert Values(c.fields) == [[2], ms.value];
      r := c.ToBytes();
    } else {
      r := Err(MissingField);
    }
  }

  function SchedulingFields(s: Scheduling): (vs: seq<Bytes>)
    requires SchedulingBytes(s).Ok?
    ensures SchedulingBytes(s) == CalltableBytes(vs)
  {
    if s.standard then [[0]]
    else if s.futureEra.Some? then [[1], ToBytesU64(s.futureEra.value).value]
    else [[2], ToBytesU64(s.futureTimestamp.value.ms).value]
  }

  /** Kind 0 is standard, 1 an era, 2 a time in milliseconds. */
  function ReadScheduling(b: Bytes): (r: Result<Scheduling>) {
    var kind :- FieldAt(b, 0);
    if kind == [0] then Ok(Scheduling(true, None, None))
    else
      var field :- FieldAt(b, 1);
      var n :- NumberIn(field, 8);
      if kind == [1] then Ok(Scheduling(false, Some(n), None))
      else if kind == [2] && n <= 8640000000000000 then Ok(Scheduling(false, None, Some(ValidDate(n))))
      else Err(InvalidFormat)
  }

  /** A written scheduling reads back as the one that counts. */
  lemma ReadSchedulingBack(s: Scheduling)
    requires SchedulingBytes(s).Ok?
    ensures ReadScheduling(SchedulingBytes(s).value) == Ok(NormScheduling(s))
  {
    hide CalltableBytes, FieldAt, ToBytesU64, NumberIn;
    var vs := SchedulingFields(s);
    FieldOfWritten(vs, 0);
    FieldOfWritten(vs, 1);
    if !s.standard {
      NumberInField(if s.futureEra.Some? then s.futureEra.value else s.futureTimestamp.value.ms);
    }
  }

  /** Schedulings write the same bytes exactly when they agree on the one that counts. */
  lemma SchedulingDetermined(a: Scheduling, b: Scheduling)
    requires SchedulingBytes(a).Ok? && SchedulingBytes(b).Ok?
    ensures SchedulingBytes(a) == SchedulingBytes(b) <==> NormScheduling(a) == NormScheduling(b)
  {
    hide CalltableBytes, ToBytesU64, ReadScheduling;
    ReadSchedulingBack(a);
    ReadSchedulingBack(b);
  }

  /** A scheduling is written exactly when the one that counts is no invalid date and its number is in range. */
  lemma SchedulingIsWritten(s: Scheduling)
    ensures SchedulingBytes(s).Ok? <==>
            if s.standard then true
            else if s.futureEra.Some? then 0 <= s.futureEra.value < 0x1_0000_0000_0000_0000
            else s.futureTimestamp.Some? && s.futureTimestamp.value.ValidDate? && s.futureTimestamp.value.ms >= 0
  {
    hide CalltableBytes, Concat, LE;
    CalltableLimits([[0]]);
    ConcatSizes([0], [], [], []);
    if s.futureEra.Some? && ToBytesU64(s.futureEra.value).Ok? {
      var x := ToBytesU64(s.futureEra.value).value;
      CalltableLimits([[1], x]);
      ConcatSizes([1], x, [], []);
    }
    if s.futureTimestamp.Some? && s.futureTimestamp.value.ValidDate? && s.futureTimestamp.value.ms >= 0 {
      var x := ToBytesU64(s.futureTimestamp.value.ms).value;
      CalltableLimits([[2], x]);
      ConcatSizes([2], x, [], []);
    }
  }

  /** `fromBytesU64(field).toNumber()`. */
  function SafeNumber(field: Option<Bytes>): (r: Result<nat>) {
    if field.None? then Err(MissingField)
    else
      var n :- U64Of(field.value);
      if n > MAX_SAFE then Err(OutOfBounds) else Ok(n)
  }

  /** `TransactionScheduling.fromBytes`. */
  function SchedulingFromBytes(b: Bytes): (r: Result<Scheduling>) {
    var table :- ParseTable(b);
    var tagBytes := FindField(table.fields, 0);
    if tagBytes.None? || |tagBytes.value| != 1 then Err(InvalidFormat)
    else if tagBytes.value[0] > 2 then Err(UnknownTag)
    else if tagBytes.value[0] == 0 then Ok(Scheduling(true, None, None))
    else
      var n :- SafeNumber(FindField(table.fields, 1));
      if tagBytes.value[0] == 1 then Ok(Scheduling(false, Some(n), None))
      else Ok(Scheduling(false, None, Some(if n <= 8640000000000000 then ValidDate(n) else InvalidDate)))
  }

  lemma SafeNumberOf(n: int)
    requires ToBytesU64(n).Ok?
    ensures SafeNumber(Some(ToBytesU64(n).value)) == if n <= MAX_SAFE then Ok(n) else Err(OutOfBounds)
  {
    hide LE;
    SmallPowers();
    FromLEOfLE(n, 8);
  }

  /** Bytes of a scheduling decode to it exactly when its era id, if it has one, is at most 2^53 - 1. */
  lemma SchedulingRoundTrip(s: Scheduling)
    requires SchedulingBytes(s).Ok?
    ensures SchedulingFromBytes(SchedulingBytes(s).value) == Ok(NormScheduling(s))
            <==> (!s.standard && s.futureEra.Some? ==> s.futureEra.value <= 0x1F_FFFF_FFFF_FFFF)
  {
    hide CalltableBytes, ParseTable, FindField, TableOf, ToBytesU64, SafeNumber;
    var vs := SchedulingFields(s);
    var b := SchedulingBytes(s).value;
    CalltableRoundTrip(vs, []);
    assert b + [] == b;
    GetFieldOfTable(vs, 0);
    GetFieldOfTable(vs, 1);
    if !s.standard {
      SafeNumberOf(if s.futureEra.Some? then s.futureEra.value else s.futureTimestamp.value.ms);
    }
  }
}
