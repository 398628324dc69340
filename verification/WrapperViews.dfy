/**
 What a transaction wrapper shows of its origin (src/types/Transaction.ts, `fromTransactionV1`;
 src/types/Deploy.ts, `newTransactionFromDeploy`). None of it is hashed or signed.
 */
module WrapperViews {
  import opened Basics
  import opened CLValues
  import opened DeployItems
  import opened HexTexts
  import opened Numerals
  import opened OrderedMaps
  import opened Arguments
  import opened Payload
  import opened TransactionParts
  import opened TransactionTargets

  datatype WrapperView = WrapperView(
    chainName: JsString, timestamp: JsDate, ttl: int, initiator: InitiatorAddr, pricing: PricingMode,
    args: Option<ArgMap>, target: Target, entryPoint: EntryPoint, scheduling: Scheduling)

  function ViewOfPayload(p: TransactionPayload): (v: WrapperView) {
    WrapperView(p.chainName, p.timestamp, p.ttl, p.initiator, p.pricing, Some(p.args), p.target, p.entryPoint,
                p.scheduling)
  }

  /** The payload put together again from what a wrapper shows. */
  function PayloadOfView(v: WrapperView): (p: TransactionPayload)
    requires v.args.Some?
  {
    TransactionPayload(v.initiator, v.timestamp, v.ttl, v.chainName, v.pricing, v.args.value, v.target, v.entryPoint,
                       v.scheduling)
  }

  /** A wrapper shows all of a payload: what is rebuilt from it has the bytes that were hashed. */
  lemma ViewLosesNothing(p: TransactionPayload)
    ensures ViewOfPayload(p).args.Some?
    ensures PayloadOfView(ViewOfPayload(p)) == p
    ensures PayloadBytes(PayloadOfView(ViewOfPayload(p))) == PayloadBytes(p)
  {
    hide PayloadBytes;
  }

  // ------------------------------------------------------ the payment amount

  function LeadingDigits(s: JsString): (d: JsString)
    ensures AllDigits(d)
  {
    if s == [] || !IsDigit(s[0]) then [] else [s[0]] + LeadingDigits(s[1..])
  }

  function TrimStart(s: JsString): (t: JsString) {
    if s != [] && (IsSpace(s[0]) || IsLineEnd(s[0])) then TrimStart(s[1..]) else s
  }

  /** `parseInt(text, 10) || 0`, as an integer. */
  function ParseIntOrZero(text: JsString): (n: int) {
    var t := TrimStart(text);
    var negative := t != [] && t[0] == 45;
    var digits := LeadingDigits(if t != [] && (t[0] == 43 || t[0] == 45) then t[1..] else t);
    var n: int := DecimalValue(digits);
    if negative then -n else n
  }

  /** The `amount` argument of the payment, read from its text; 0 when there is none. */
  function PaymentAmount(args: Option<ArgMap>): (n: int) {
    if args.None? || Get(args.value, Js("amount")).None? then 0
    else ParseIntOrZero(ToString(Get(args.value, Js("amount")).value))
  }

  lemma {:induction false} DigitsLeadAll(s: JsString)
    requires AllDigits(s)
    ensures LeadingDigits(s) == s
  {
    if s != [] {
      DigitsLeadAll(s[1..]);
      assert s == [s[0]] + s[1..];
    }
  }

  lemma ParseOfDecimalInt(n: int)
    ensures ParseIntOrZero(DecimalInt(n)) == n
  {
    hide Decimal, DecimalValue;
    var digits := Decimal(if n < 0 then -n else n);
    assert IsDigit(digits[0]);
    DigitsLeadAll(digits);
    if n < 0 {
      assert DecimalInt(n)[1..] == digits;
    }
  }

  /** A numeric amount of any width is shown as it is. */
  lemma NumericAmountIsShown(args: ArgMap, n: int)
    requires Get(args, Js("amount")).Some?
    requires var v := Get(args, Js("amount")).value; (v.VFixed? || v.VBig?) && v.n == n
    ensures PaymentAmount(Some(args)) == n
  {
    hide ParseIntOrZero, DecimalInt;
    ParseOfDecimalInt(n);
  }

  // --------------------------------------------------- target and entry point

  /** The entry point a wrapped deploy shows; a Custom one must have a name. */
  function WrappedEntryPoint(session: DeployItem): (r: Result<EntryPoint>) {
    if session.transfer.Some? then Ok(EntryPoint(Transfer, None))
    else if session.moduleBytes.Some? then Ok(EntryPoint(Call, None))
    else
      var name := if session.byHash.Some? then session.byHash.value.1
                  else if session.byName.Some? then session.byName.value.1
                  else if session.versionedByHash.Some? then session.versionedByHash.value.2
                  else if session.versionedByName.Some? then session.versionedByName.value.2
                  else [];
      if name == [] then Err(MissingField) else Ok(EntryPoint(Custom, Some(name)))
  }

  function StoredAs(id: InvocationTarget): (t: Target) {
    Target(false, Some(StoredTarget(id, VmCasperV1)), None)
  }

  /** `newTransactionTargetFromSession`: transfers are looked for first. */
  function WrappedTarget(session: DeployItem): (t: Target) {
    if session.transfer.Some? then Target(true, None, None)
    else if session.moduleBytes.Some? then
      Target(false, None, Some(SessionTarget(session.moduleBytes.value.0, VmCasperV1, false)))
    else if session.byHash.Some? then StoredAs(InvocationTarget(Some(session.byHash.value.0), None, None, None))
    else if session.byName.Some? then StoredAs(InvocationTarget(None, Some(session.byName.value.0), None, None))
    else if session.versionedByHash.Some? then
      var v := session.versionedByHash.value;
      StoredAs(InvocationTarget(None, None, Some(PackageTarget(v.0, v.1, None)), None))
    else if session.versionedByName.Some? then
      var v := session.versionedByName.value;
      StoredAs(InvocationTarget(None, None, None, Some(PackageTarget(v.0, v.1, None))))
    else Target(false, None, None)
  }

  /** The target and entry point that fit one item. */
  function TargetOfItem(i: Item): (t: Target) {
    match i
    case ModuleItem(m, _) => Target(false, None, Some(SessionTarget(m, VmCasperV1, false)))
    case ByHashItem(h, _, _) => StoredAs(InvocationTarget(Some(h), None, None, None))
    case ByNameItem(n, _, _) => StoredAs(InvocationTarget(None, Some(n), None, None))
    case VersionedByHashItem(h, v, _, _) =>
      StoredAs(InvocationTarget(None, None, Some(PackageTarget(h, v, None)), None))
    case VersionedByNameItem(n, v, _, _) =>
      StoredAs(InvocationTarget(None, None, None, Some(PackageTarget(n, v, None))))
    case TransferItem(_) => Target(true, None, None)
  }

  function EntryPointOfItem(i: Item): (e: EntryPoint) {
    if i.TransferItem? then EntryPoint(Transfer, None)
    else if i.ModuleItem? then EntryPoint(Call, None)
    else EntryPoint(Custom, Some(i.entryPoint))
  }

  /**
   The wrapper describes the item whose bytes are hashed exactly when a transfer is not set beside
   another item: bytes go by the first slot set, with transfers last, descriptions look for
   transfers first.
   */
  lemma WrapperDescribesTheHashedItem(session: DeployItem)
    requires WrappedEntryPoint(session).Ok?
    ensures Chosen(session).Some?
    ensures WrappedTarget(session) == TargetOfItem(Chosen(session).value)
            && WrappedEntryPoint(session).value == EntryPointOfItem(Chosen(session).value)
            <==> (session.transfer.Some? ==> Chosen(session).value.TransferItem?)
  {
  }

  lemma EntryPointErrors(session: DeployItem)
    ensures WrappedEntryPoint(session).Err? ==> WrappedEntryPoint(session).error == MissingField
  {
  }

  // ------------------------------------------------------------- the wrapper

  function ViewOfDeploy(h: Header, payment: DeployItem, session: DeployItem): (r: Result<WrapperView>) {
    var entryPoint :- WrappedEntryPoint(session);
    var paymentArgs :- ItemArgMap(payment);
    var standardPayment := payment.moduleBytes.Some? && payment.moduleBytes.value.0 == [];
    var sessionArgs :- ItemArgMap(session);
    Ok(WrapperView(
      h.chainName, h.timestamp, h.ttl, InitiatorAddr(h.account, None),
      PricingMode(Some(PaymentLimited(h.gasPrice, PaymentAmount(paymentArgs), standardPayment)), None, None),
      sessionArgs, WrappedTarget(session), entryPoint, Scheduling(true, None, None)))
  }

  lemma WrappableExactlyWhen(h: Header, payment: DeployItem, session: DeployItem)
    ensures ViewOfDeploy(h, payment, session).Ok? <==> WrappedEntryPoint(session).Ok? && Chosen(payment).Some?
    ensures ViewOfDeploy(h, payment, session).Err? ==> ViewOfDeploy(h, payment, session).error == MissingField
  {
    hide PaymentAmount, WrappedTarget;
    EntryPointErrors(session);
  }

  /** The header put together again from what a wrapper shows, and the two fields it leaves out. */
  function HeaderOfView(v: WrapperView, bodyHash: Option<Hash>, dependencies: seq<Hash>): (h: Header)
    requires v.pricing.paymentLimited.Some?
  {
    Header(v.initiator.publicKey, bodyHash, v.chainName, dependencies, v.pricing.paymentLimited.value.gasPriceTolerance,
           v.timestamp, v.ttl)
  }

  /**
   A wrapped deploy shows its header but for body hash and dependencies, the session's args, the
   payment as a payment-limited mode that is standard exactly for an empty module, and is always
   scheduled at once; stored targets and sessions run on the first runtime and upgrade nothing.
   */
  lemma WrapperShowsTheDeploy(h: Header, payment: DeployItem, session: DeployItem)
    requires ViewOfDeploy(h, payment, session).Ok?
    ensures var v := ViewOfDeploy(h, payment, session).value;
            && v.pricing.paymentLimited.Some? && v.pricing.fixedMode.None? && v.pricing.prepaid.None?
            && HeaderOfView(v, h.bodyHash, h.dependencies) == h && v.initiator.accountHash.None?
            && (v.pricing.paymentLimited.value.standardPayment <==>
                payment.moduleBytes.Some? && payment.moduleBytes.value.0 == [])
            && Chosen(session).Some? && v.args == Chosen(session).value.args
            && v.scheduling == Scheduling(true, None, None)
            && (v.target.native <==> session.transfer.Some?)
            && (v.target.stored.Some? ==> v.target.stored.value.runtime == VmCasperV1)
            && (v.target.session.Some? ==> v.target.session.value.runtime == VmCasperV1
                                           && !v.target.session.value.isInstallUpgrade)
            && v.entryPoint.kind == (if session.transfer.Some? then Transfer
                                     else if session.moduleBytes.Some? then Call else Custom)
  {
    hide PaymentAmount;
  }
}
