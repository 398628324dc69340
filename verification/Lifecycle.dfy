/**
 Making, wrapping, signing and validating transactions (src/types/Transaction.ts,
 src/types/Deploy.ts). The objects live on the heap because they are shared: a wrapper pushes
 approvals into its origin's array, and a deploy made from another keeps its header and session.
 Hashing and signing are parameters.
 */
module Lifecycle {
  import opened Basics
  import opened Utf8
  import opened ByteConverters
  import opened CLValues
  import opened CodecLaw
  import opened UniqueDecoding
  import opened Calltables
  import opened OrderedMaps
  import opened Arguments
  import opened TransactionParts
  import opened TransactionTargets
  import opened Payload
  import opened DeployItems
  import opened WrapperViews

  // ---------------------------------------------------------- cryptography

  type Secret = nat

  /** BLAKE2b, signing and verification, with signatures as the key objects produce them. */
  datatype Crypto = Crypto(
    hash: Bytes -> Hash, sign: (Secret, Bytes) -> Bytes, verify: (PublicKey, Bytes, Bytes) -> bool)

  datatype PrivateKey = PrivateKey(alg: Byte, publicKey: PublicKey, secret: Secret)

  datatype Approval = Approval(signer: PublicKey, signature: Bytes)

  /** The sign/verify law of a key pair; signatures are not empty. */
  ghost predicate KeyPair(c: Crypto, k: PrivateKey) {
    forall m: Bytes :: c.sign(k.secret, m) != [] && c.verify(k.publicKey, m, c.sign(k.secret, m))
  }

  /** `signAndAddAlgorithmBytes`. */
  function SignAndAddAlgorithm(c: Crypto, k: PrivateKey, message: Bytes): (sig: Bytes) {
    [k.alg] + c.sign(k.secret, message)
  }

  /** `PublicKey.verifySignature`, which drops the algorithm byte without reading it. */
  predicate Verifies(c: Crypto, message: Bytes, a: Approval) {
    |a.signature| > 1 && c.verify(a.signer, message, a.signature[1..])
  }

  predicate AllVerify(c: Crypto, message: Bytes, approvals: seq<Approval>) {
    forall i :: 0 <= i < |approvals| ==> Verifies(c, message, approvals[i])
  }

  /** Every signature must have more than one byte, and what follows the first must verify under its own signer. */
  lemma AllVerifyMeans(c: Crypto, message: Bytes, approvals: seq<Approval>)
    ensures AllVerify(c, message, approvals) <==>
            forall i :: 0 <= i < |approvals| ==>
              var a := approvals[i];
              |a.signature| > 1 && c.verify(a.signer, message, a.signature[1..])
  {
  }

  function SignedBy(c: Crypto, k: PrivateKey, message: Bytes): (a: Approval) {
    Approval(k.publicKey, SignAndAddAlgorithm(c, k, message))
  }

  /** What signing leaves: the key's algorithm byte, then the signature of the message itself. */
  lemma SignedByParts(c: Crypto, k: PrivateKey, message: Bytes)
    ensures var a := SignedBy(c, k, message);
            && a.signer == k.publicKey && |a.signature| == 1 + |c.sign(k.secret, message)|
            && a.signature[0] == k.alg && a.signature[1..] == c.sign(k.secret, message)
  {
  }

  lemma OwnSignatureVerifies(c: Crypto, k: PrivateKey, message: Bytes)
    requires KeyPair(c, k)
    ensures Verifies(c, message, SignedBy(c, k, message))
  {
    var sig := SignAndAddAlgorithm(c, k, message);
    assert sig[1..] == c.sign(k.secret, message);
  }

  // --------------------------------------------------------------- objects

  /** A JavaScript array of approvals, shared by reference. */
  class ApprovalArray {
    var items: seq<Approval>

    constructor ()
      ensures items == []
    {
      items := [];
    }

    method Push(a: Approval)
      modifies this
      ensures items == old(items) + [a]
    {
      items := items + [a];
    }

    method CheckAll(c: Crypto, message: Bytes) returns (e: Option<Error>)
      ensures e == if AllVerify(c, message, items) then None else Some(InvalidSignature)
    {
      for i := 0 to |items|
        invariant AllVerify(c, message, items[..i])
      {
        if !Verifies(c, message, items[i]) {
          return Some(InvalidSignature);
        }
      }
      assert items[..|items|] == items;
      return None;
    }
  }

  class TransactionV1 {
    const hash: Hash
    const payload: TransactionPayload
    var approvals: ApprovalArray?

    constructor (hash: Hash, payload: TransactionPayload, approvals: ApprovalArray?)
      ensures this.hash == hash && this.payload == payload && this.approvals == approvals
    {
      this.hash := hash;
      this.payload := payload;
      this.approvals := approvals;
    }

    predicate HashesMatch(c: Crypto) {
      PayloadBytes(payload).Ok? && hash == c.hash(PayloadBytes(payload).value)
    }

    /** Throws on a wrong hash, on missing approvals, or else on the first approval that does not verify. */
    method Validate(c: Crypto) returns (r: Result<bool>)
      ensures r == if PayloadBytes(payload).Err? then Err(PayloadBytes(payload).error)
                   else if !HashesMatch(c) then Err(InvalidHash)
                   else if approvals == null then Err(MissingField)
                   else if !AllVerify(c, hash, approvals.items) then Err(InvalidSignature)
                   else Ok(true)
      ensures r == Ok(true) <==>
              && PayloadBytes(payload).Ok? && hash == c.hash(PayloadBytes(payload).value)
              && approvals != null
              && forall i :: 0 <= i < |approvals.items| ==>
                   var a := approvals.items[i];
                   |a.signature| > 1 && c.verify(a.signer, hash, a.signature[1..])
    {
      hide PayloadBytes, AllVerify;
      var payloadBytes := PayloadToBytes(payload);
      if payloadBytes.Err? {
        return Err(payloadBytes.error);
      }
      if hash != c.hash(payloadBytes.value) {
        return Err(InvalidHash);
      }
      if approvals == null {
        return Err(MissingField);
      }
      var e := approvals.CheckAll(c, hash);
      AllVerifyMeans(c, hash, approvals.items);
      r := if e.Some? then Err(e.value) else Ok(true);
    }

    /** Makes the array of approvals if there is none. */
    method Sign(c: Crypto, k: PrivateKey)
      modifies this`approvals
      modifies if approvals == null then {} else {approvals}
      ensures approvals != null
      ensures old(approvals) == null ==> fresh(approvals) && approvals.items == [SignedBy(c, k, hash)]
      ensures old(approvals) != null ==>
                approvals == old(approvals) && approvals.items == old(approvals.items) + [SignedBy(c, k, hash)]
    {
      if approvals == null {
        approvals := new ApprovalArray();
      }
      approvals.Push(Approval(k.publicKey, SignAndAddAlgorithm(c, k, hash)));
    }

    /** Throws when there are no approvals to push to. */
    static method SetSignature(t: TransactionV1, signature: Bytes, publicKey: PublicKey)
      returns (r: Result<TransactionV1>)
      modifies if t.approvals == null then {} else {t.approvals}
      ensures r == if t.approvals == null then Err(MissingField) else Ok(t)
      ensures t.approvals != null ==> t.approvals.items == old(t.approvals.items) + [Approval(publicKey, signature)]
    {
      if t.approvals == null {
        return Err(MissingField);
      }
      t.approvals.Push(Approval(publicKey, signature));
      r := Ok(t);
    }

    /** A new transaction carries the hash of its payload and no approvals. */
    static method MakeTransactionV1(c: Crypto, payload: TransactionPayload) returns (r: Result<TransactionV1>)
      ensures r.Ok? <==> PayloadBytes(payload).Ok?
      ensures r.Ok? ==> fresh(r.value) && r.value.payload == payload && r.value.HashesMatch(c)
                        && r.value.approvals != null && fresh(r.value.approvals) && r.value.approvals.items == []
    {
      hide PayloadBytes;
      var payloadBytes := PayloadToBytes(payload);
      if payloadBytes.Err? {
        return Err(payloadBytes.error);
      }
      var none := new ApprovalArray();
      var t := new TransactionV1(c.hash(payloadBytes.value), payload, none);
      r := Ok(t);
    }
  }

  class ExecutableDeployItem {
    var item: DeployItem

    constructor (item: DeployItem)
      ensures this.item == item
    {
      this.item := item;
    }

    /** `getArgs().insert(name, value)`; throws when there is no item or no args object. */
    method SetArg(name: JsString, value: CLValue) returns (e: Option<Error>)
      modifies this
      ensures e == if Complete(old(item)) then None else Some(MissingField)
      ensures item == if Complete(old(item)) then WithArg(old(item), name, value) else old(item)
    {
      var args := ItemArgMap(item);
      if args.Err? || args.value.None? {
        return Some(MissingField);
      }
      item := WithArg(item, name, value);
      return None;
    }
  }

  /** The item with one argument set in the slot that counts. */
  function WithArg(d: DeployItem, name: JsString, value: CLValue): (r: DeployItem)
    requires Complete(d)
    ensures Chosen(r) == Some(SetArgs(Chosen(d).value, Some(Put(Chosen(d).value.args.value, name, value))))
  {
    WithArgs(d, Some(Put(Chosen(d).value.args.value, name, value)))
  }

  class DeployHeader {
    var header: Header

    constructor (header: Header)
      ensures this.header == header
    {
      this.header := header;
    }
  }

  class Deploy {
    const hash: Hash
    const header: DeployHeader
    const payment: ExecutableDeployItem
    const session: ExecutableDeployItem
    const approvals: ApprovalArray

    constructor (hash: Hash, header: DeployHeader, payment: ExecutableDeployItem, session: ExecutableDeployItem,
                 approvals: ApprovalArray)
      ensures this.hash == hash && this.header == header && this.payment == payment
      ensures this.session == session && this.approvals == approvals
    {
      this.hash := hash;
      this.header := header;
      this.payment := payment;
      this.session := session;
      this.approvals := approvals;
    }

    function Body(): (r: Result<Bytes>)
      reads payment, session
    {
      BodyBytes(payment.item, session.item)
    }

    predicate HashesMatch(c: Crypto)
      reads header, payment, session
    {
      && Body().Ok? && DeployHeaderBytes(header.header).Ok?
      && header.header.bodyHash == Some(c.hash(Body().value))
      && hash == c.hash(DeployHeaderBytes(header.header).value)
    }

    /** Throws on a wrong body hash or deploy hash, or else on the first approval that does not verify. */
    method Validate(c: Crypto) returns (r: Result<bool>)
      ensures r == if Body().Err? then Err(Body().error)
                   else if DeployHeaderBytes(header.header).Err? then Err(DeployHeaderBytes(header.header).error)
                   else if !HashesMatch(c) then Err(InvalidHash)
                   else if !AllVerify(c, hash, approvals.items) then Err(InvalidSignature)
                   else Ok(true)
      ensures r == Ok(true) <==>
              && BodyBytes(payment.item, session.item).Ok? && DeployHeaderBytes(header.header).Ok?
              && header.header.bodyHash == Some(c.hash(BodyBytes(payment.item, session.item).value))
              && hash == c.hash(DeployHeaderBytes(header.header).value)
              && forall i :: 0 <= i < |approvals.items| ==>
                   var a := approvals.items[i];
                   |a.signature| > 1 && c.verify(a.signer, hash, a.signature[1..])
    {
      hide BodyBytes, DeployHeaderBytes, AllVerify;
      var body := BodyBytes(payment.item, session.item);
      if body.Err? {
        return Err(body.error);
      }
      var headerBytes := DeployHeaderBytes(header.header);
      if headerBytes.Err? {
        return Err(headerBytes.error);
      }
      if header.header.bodyHash != Some(c.hash(body.value)) || hash != c.hash(headerBytes.value) {
        return Err(InvalidHash);
      }
      var e := approvals.CheckAll(c, hash);
      AllVerifyMeans(c, hash, approvals.items);
      r := if e.Some? then Err(e.value) else Ok(true);
    }

    method Sign(c: Crypto, k: PrivateKey)
      modifies approvals
      ensures approvals.items == old(approvals.items) + [SignedBy(c, k, hash)]
    {
      approvals.Push(Approval(k.publicKey, SignAndAddAlgorithm(c, k, hash)));
    }

    static method SetSignature(d: Deploy, signature: Bytes, publicKey: PublicKey) returns (same: Deploy)
      modifies d.approvals
      ensures same == d && d.approvals.items == old(d.approvals.items) + [Approval(publicKey, signature)]
    {
      d.approvals.Push(Approval(publicKey, signature));
      same := d;
    }

    /** Sets the body hash in the caller's header and returns a deploy around the caller's objects. */
    static method MakeDeploy(c: Crypto, header: DeployHeader, payment: ExecutableDeployItem,
                             session: ExecutableDeployItem)
      returns (r: Result<Deploy>)
      modifies header
      ensures var body := BodyBytes(payment.item, session.item);
              header.header == if body.Err? then old(header.header)
                               else old(header.header).(bodyHash := Some(c.hash(body.value)))
      ensures r.Ok? <==> BodyBytes(payment.item, session.item).Ok? && DeployHeaderBytes(header.header).Ok?
      ensures r.Ok? ==> fresh(r.value) && fresh(r.value.approvals) && r.value.approvals.items == []
                        && r.value.header == header && r.value.payment == payment && r.value.session == session
                        && r.value.HashesMatch(c)
    {
      hide BodyBytes, DeployHeaderBytes;
      var body := BodyBytes(payment.item, session.item);
      if body.Err? {
        return Err(body.error);
      }
      header.header := header.header.(bodyHash := Some(c.hash(body.value)));
      var headerBytes := DeployHeaderBytes(header.header);
      if headerBytes.Err? {
        return Err(headerBytes.error);
      }
      var none := new ApprovalArray();
      var d := new Deploy(c.hash(headerBytes.value), header, payment, session, none);
      r := Ok(d);
    }

    /**
     Adding an argument to an unsigned deploy returns a deploy that validates. The old one shares
     header and session with it, so a deploy that was consistent stays so only if its hash is the new one.
     */
    static method AddArgToDeploy(c: Crypto, d: Deploy, name: JsString, value: CLValue) returns (r: Result<Deploy>)
      modifies d.header, d.session
      ensures old(d.approvals.items) != [] ==> r == Err(AlreadySigned)
      ensures old(d.approvals.items) == [] && !Complete(old(d.session.item)) ==> r == Err(MissingField)
      ensures old(d.approvals.items) != [] || !Complete(old(d.session.item))
              ==> d.header.header == old(d.header.header) && d.session.item == old(d.session.item)
      ensures old(d.approvals.items) == [] && Complete(old(d.session.item))
              ==> d.session.item == WithArg(old(d.session.item), name, value)
                  && (r.Ok? <==> d.Body().Ok? && DeployHeaderBytes(d.header.header).Ok?)
                  && d.header.header == if d.Body().Err? then old(d.header.header)
                                        else old(d.header.header).(bodyHash := Some(c.hash(d.Body().value)))
      ensures r.Ok? ==> fresh(r.value) && r.value.header == d.header && r.value.payment == d.payment
                        && r.value.session == d.session && fresh(r.value.approvals) && r.value.approvals.items == []
                        && r.value.HashesMatch(c) && (d.HashesMatch(c) <==> d.hash == r.value.hash)
      ensures r.Ok? && old(d.HashesMatch(c)) && HeaderOk(old(d.header.header)) && DeployItemOk(old(d.session.item))
              && Proper(value, true) ==>
                (d.HashesMatch(c) <==>
                 || SameArg(old(d.session.item), name, value)
                 || Collision(c, old(d.Body()).value, d.Body().value)
                 || Collision(c, DeployHeaderBytes(old(d.header.header)).value,
                              DeployHeaderBytes(d.header.header).value))
    {
      hide BodyBytes, DeployHeaderBytes, Complete, WithArg, SameArg, HeaderOk, DeployItemOk, Proper;
      if d.approvals.items != [] {
        return Err(AlreadySigned);
      }
      var e := d.session.SetArg(name, value);
      if e.Some? {
        return Err(e.value);
      }
      r := MakeDeploy(c, d.header, d.payment, d.session);
      if r.Ok? && old(d.HashesMatch(c)) && HeaderOk(old(d.header.header)) && DeployItemOk(old(d.session.item))
         && Proper(value, true) {
        StaysConsistentExactlyWhen(c, old(d.header.header), old(d.payment.item), d.payment.item,
                                   old(d.session.item), name, value);
      }
    }
  }

  /** The wrapper; exactly one of the two origins is set. */
  class Transaction {
    const hash: Hash
    const view: WrapperView
    const approvals: ApprovalArray?
    const originTransactionV1: TransactionV1?
    const originDeploy: Deploy?

    ghost predicate Wraps()
      reads if originTransactionV1 == null then {} else {originTransactionV1}
    {
      && approvals != null
      && (originTransactionV1 == null <==> originDeploy != null)
      && (originTransactionV1 != null ==>
            hash == originTransactionV1.hash && approvals == originTransactionV1.approvals)
      && (originDeploy != null ==> hash == originDeploy.hash && approvals == originDeploy.approvals)
    }

    constructor (hash: Hash, view: WrapperView, approvals: ApprovalArray?,
                 v1: TransactionV1?, deploy: Deploy?)
      ensures this.hash == hash && this.view == view && this.approvals == approvals
      ensures originTransactionV1 == v1 && originDeploy == deploy
    {
      this.hash := hash;
      this.view := view;
      this.approvals := approvals;
      originTransactionV1 := v1;
      originDeploy := deploy;
    }

    /** The constructor's check: no wrapper without exactly one origin. */
    static method New(hash: Hash, view: WrapperView, approvals: ApprovalArray?,
                      v1: TransactionV1?, deploy: Deploy?)
      returns (r: Result<Transaction>)
      ensures r.Ok? <==> (v1 == null <==> deploy != null)
      ensures r.Err? ==> r.error == InvalidOrigin
      ensures r.Ok? ==> fresh(r.value) && r.value.hash == hash && r.value.approvals == approvals
                        && r.value.view == view
                        && r.value.originTransactionV1 == v1 && r.value.originDeploy == deploy
    {
      if (v1 == null) == (deploy == null) {
        return Err(InvalidOrigin);
      }
      var t := new Transaction(hash, view, approvals, v1, deploy);
      r := Ok(t);
    }

    /** The wrapper shares the approvals it finds; where there are none, it stays without. */
    static method FromTransactionV1(v1: TransactionV1) returns (t: Transaction)
      ensures fresh(t) && t.originTransactionV1 == v1 && t.originDeploy == null
      ensures t.hash == v1.hash && t.approvals == v1.approvals
      ensures t.view == ViewOfPayload(v1.payload)
      ensures t.Wraps() <==> v1.approvals != null
    {
      var r := New(v1.hash, ViewOfPayload(v1.payload), v1.approvals, v1, null);
      t := r.value;
    }

    /** A deploy can be wrapped exactly when its payment is set and its session shows an entry point. */
    static method FromDeploy(d: Deploy) returns (r: Result<Transaction>)
      ensures r.Ok? <==> WrappedEntryPoint(d.session.item).Ok? && Chosen(d.payment.item).Some?
      ensures r.Err? ==> ViewOfDeploy(d.header.header, d.payment.item, d.session.item) == Err(r.error)
      ensures r.Ok? ==> fresh(r.value) && r.value.Wraps() && r.value.originDeploy == d
                        && ViewOfDeploy(d.header.header, d.payment.item, d.session.item) == Ok(r.value.view)
    {
      hide ViewOfDeploy, Chosen, WrappedEntryPoint;
      WrappableExactlyWhen(d.header.header, d.payment.item, d.session.item);
      var view := ViewOfDeploy(d.header.header, d.payment.item, d.session.item);
      if view.Err? {
        return Err(view.error);
      }
      r := New(d.hash, view.value, d.approvals, null, d);
    }

    ghost predicate HashesMatch(c: Crypto)
      requires Wraps()
      reads if originTransactionV1 == null then {} else {originTransactionV1}
      reads if originDeploy == null then {} else {originDeploy.header, originDeploy.payment, originDeploy.session}
    {
      if originTransactionV1 != null then originTransactionV1.HashesMatch(c) else originDeploy.HashesMatch(c)
    }

    /** Validation is the origin's: it succeeds exactly when the hashes match and every approval verifies. */
    method Validate(c: Crypto) returns (r: Result<bool>)
      requires Wraps()
      ensures r == Ok(true) <==> HashesMatch(c) && AllVerify(c, hash, approvals.items)
      ensures r.Ok? ==> r.value
      ensures HashesMatch(c) && !AllVerify(c, hash, approvals.items) ==> r == Err(InvalidSignature)
      ensures HashesMatch(c) ==>
                (r == Ok(true) <==>
                 forall i :: 0 <= i < |approvals.items| ==>
                   var a := approvals.items[i];
                   |a.signature| > 1 && c.verify(a.signer, hash, a.signature[1..]))
    {
      hide PayloadBytes, BodyBytes, DeployHeaderBytes, AllVerify;
      if originTransactionV1 != null {
        r := originTransactionV1.Validate(c);
      } else {
        r := originDeploy.Validate(c);
      }
      AllVerifyMeans(c, hash, approvals.items);
    }

    method SetSignature(signature: Bytes, publicKey: PublicKey)
      requires Wraps()
      modifies approvals
      ensures approvals.items == old(approvals.items) + [Approval(publicKey, signature)]
    {
      var approval := Approval(publicKey, signature);
      if originTransactionV1 != null {
        originTransactionV1.approvals.Push(approval);
      } else {
        originDeploy.approvals.Push(approval);
      }
    }

    method Sign(c: Crypto, k: PrivateKey)
      requires Wraps()
      modifies approvals
      ensures approvals.items == old(approvals.items) + [SignedBy(c, k, hash)]
    {
      SetSignature(SignAndAddAlgorithm(c, k, hash), k.publicKey);
    }
  }

  // ------------------------------------------------------------------ runs

  /** One step of a run: a signature made or handed over, through the wrapper or through its origin. */
  datatype Step =
    | SignWrapper(key: PrivateKey)
    | SignOrigin(key: PrivateKey)
    | SetOnWrapper(signature: Bytes, publicKey: PublicKey)
    | SetOnOrigin(signature: Bytes, publicKey: PublicKey)

  /** The approval a step leaves behind. */
  function StepApproval(c: Crypto, hash: Hash, s: Step): (a: Approval) {
    if s.SignWrapper? || s.SignOrigin? then SignedBy(c, s.key, hash) else Approval(s.publicKey, s.signature)
  }

  function RunApprovals(c: Crypto, hash: Hash, steps: seq<Step>): (approvals: seq<Approval>)
    ensures |approvals| == |steps|
    ensures forall i :: 0 <= i < |steps| ==> approvals[i] == StepApproval(c, hash, steps[i])
  {
    seq(|steps|, i requires 0 <= i < |steps| => StepApproval(c, hash, steps[i]))
  }

  /**
   Any run of signing: one approval per step in order, the same through the wrapper and its
   origin, and nothing else on the heap changes, so the hashes still match.
   */
  method Run(c: Crypto, t: Transaction, steps: seq<Step>)
    requires t.Wraps()
    modifies t.approvals
    modifies if t.originTransactionV1 == null then {} else {t.originTransactionV1}
    ensures t.Wraps()
    ensures t.approvals.items == old(t.approvals.items) + RunApprovals(c, t.hash, steps)
    ensures t.HashesMatch(c) == old(t.HashesMatch(c))
  {
    hide PayloadBytes, BodyBytes, DeployHeaderBytes;
    assert old(t.approvals.items) + [] == old(t.approvals.items);
    for i := 0 to |steps|
      invariant t.Wraps()
      invariant t.approvals.items == old(t.approvals.items) + RunApprovals(c, t.hash, steps[..i])
    {
      match steps[i] {
        case SignWrapper(k) => t.Sign(c, k);
        case SignOrigin(k) =>
          if t.originTransactionV1 != null {
            t.originTransactionV1.Sign(c, k);
          } else {
            t.originDeploy.Sign(c, k);
          }
        case SetOnWrapper(signature, publicKey) => t.SetSignature(signature, publicKey);
        case SetOnOrigin(signature, publicKey) =>
          if t.originTransactionV1 != null {
            var _ := TransactionV1.SetSignature(t.originTransactionV1, signature, publicKey);
          } else {
            var _ := Deploy.SetSignature(t.originDeploy, signature, publicKey);
          }
      }
      assert RunApprovals(c, t.hash, steps[..i + 1]) ==
             RunApprovals(c, t.hash, steps[..i]) + [StepApproval(c, t.hash, steps[i])];
    }
    assert steps[..|steps|] == steps;
  }

  predicate IsSigning(s: Step) {
    s.SignWrapper? || s.SignOrigin?
  }

  /** After any run on valid approvals, they are valid again exactly when every handed-over signature verifies. */
  lemma RunIsValidExactlyWhen(c: Crypto, hash: Hash, before: seq<Approval>, steps: seq<Step>)
    requires AllVerify(c, hash, before)
    requires forall i :: 0 <= i < |steps| && IsSigning(steps[i]) ==> KeyPair(c, steps[i].key)
    ensures AllVerify(c, hash, before + RunApprovals(c, hash, steps)) <==>
            forall i :: 0 <= i < |steps| && !IsSigning(steps[i])
                        ==> Verifies(c, hash, Approval(steps[i].publicKey, steps[i].signature))
  {
    hide Verifies, KeyPair;
    var after := before + RunApprovals(c, hash, steps);
    forall i | 0 <= i < |steps| && IsSigning(steps[i]) ensures Verifies(c, hash, StepApproval(c, hash, steps[i])) {
      OwnSignatureVerifies(c, steps[i].key, hash);
    }
    if AllVerify(c, hash, after) {
      forall i | 0 <= i < |steps| ensures Verifies(c, hash, StepApproval(c, hash, steps[i])) {
        assert after[|before| + i] == StepApproval(c, hash, steps[i]);
      }
    }
  }

  /** From a payload to a signed transaction: whatever the run, it validates. */
  method MakeWrapSignValidate(c: Crypto, payload: TransactionPayload, steps: seq<Step>) returns (r: Result<bool>)
    requires forall i :: 0 <= i < |steps| ==> IsSigning(steps[i]) && KeyPair(c, steps[i].key)
    ensures r == Ok(true) <==> PayloadBytes(payload).Ok?
  {
    hide PayloadBytes, BodyBytes, DeployHeaderBytes;
    var v1 := TransactionV1.MakeTransactionV1(c, payload);
    if v1.Err? {
      return Err(v1.error);
    }
    var t := Transaction.FromTransactionV1(v1.value);
    Run(c, t, steps);
    RunIsValidExactlyWhen(c, t.hash, [], steps);
    assert [] + RunApprovals(c, t.hash, steps) == RunApprovals(c, t.hash, steps);
    r := t.Validate(c);
  }

  /** The same for a deploy that can be written and wrapped. */
  method MakeDeploySignValidate(c: Crypto, header: DeployHeader, payment: ExecutableDeployItem,
                                session: ExecutableDeployItem, steps: seq<Step>) returns (r: Result<bool>)
    requires forall i :: 0 <= i < |steps| ==> IsSigning(steps[i]) && KeyPair(c, steps[i].key)
    modifies header
    ensures r == Ok(true) <==> BodyBytes(payment.item, session.item).Ok? && DeployHeaderBytes(header.header).Ok?
                               && WrappedEntryPoint(session.item).Ok? && Chosen(payment.item).Some?
  {
    hide PayloadBytes, BodyBytes, DeployHeaderBytes, WrappedEntryPoint, Chosen;
    var d := Deploy.MakeDeploy(c, header, payment, session);
    if d.Err? {
      return Err(d.error);
    }
    var wrapped := Transaction.FromDeploy(d.value);
    if wrapped.Err? {
      return Err(wrapped.error);
    }
    var t := wrapped.value;
    Run(c, t, steps);
    RunIsValidExactlyWhen(c, t.hash, [], steps);
    assert [] + RunApprovals(c, t.hash, steps) == RunApprovals(c, t.hash, steps);
    r := t.Validate(c);
  }

  // --------------------------------------------------- what a hash commits to

  ghost predicate Collision(c: Crypto, x: Bytes, y: Bytes) {
    x != y && c.hash(x) == c.hash(y)
  }

  /** The session already has the argument, with a value that is written like the new one. */
  predicate SameArg(session: DeployItem, name: JsString, value: CLValue)
    requires Complete(session)
  {
    var present := Get(Chosen(session).value.args.value, name);
    present.Some? && NormValue(present.value) == NormValue(value)
  }

  /** Setting a key leaves the map as it is written exactly when it was there with a value written alike. */
  lemma {:induction false} PutChangesNothing(args: ArgMap, name: JsString, value: CLValue)
    ensures NormArgs(Put(args, name, value)) == NormArgs(args) <==>
            Get(args, name).Some? && NormValue(Get(args, name).value) == NormValue(value)
  {
    hide NormText, NormValue;
    if args == [] {
    } else if args[0].0 == name {
      assert Put(args, name, value)[1..] == args[1..];
      var n := NormArgs(args[1..]);
      assert ([NormArg((name, value))] + n)[0] == NormArg((name, value));
      assert ([NormArg(args[0])] + n)[0] == NormArg(args[0]);
    } else {
      PutChangesNothing(args[1..], name, value);
      assert Put(args, name, value)[1..] == Put(args[1..], name, value);
      var n, m := NormArgs(Put(args[1..], name, value)), NormArgs(args[1..]);
      assert ([NormArg(args[0])] + n)[1..] == n && ([NormArg(args[0])] + m)[1..] == m;
    }
  }

  lemma {:induction false} PutKeepsOk(args: ArgMap, name: JsString, value: CLValue)
    requires ArgMapOk(args) && Proper(value, true)
    ensures ArgMapOk(Put(args, name, value))
  {
    hide Proper;
    if args != [] && args[0].0 != name {
      assert ArgMapOk(args[1..]);
      PutKeepsOk(args[1..], name, value);
    }
  }

  /** Setting an argument leaves the session's bytes as they are exactly when it was there already. */
  lemma SessionBytesStay(s: DeployItem, name: JsString, value: CLValue)
    requires Complete(s) && DeployItemOk(s) && Proper(value, true)
    requires DeployItemBytes(s).Ok? && DeployItemBytes(WithArg(s, name, value)).Ok?
    ensures DeployItemBytes(WithArg(s, name, value)) == DeployItemBytes(s) <==> SameArg(s, name, value)
  {
    hide Chosen, ItemBytes, NormText, NormNumber, NormArgs, ArgMapOk, Proper, TextOk, WithArg;
    var i := Chosen(s).value;
    var t := WithArg(s, name, value);
    PutChangesNothing(i.args.value, name, value);
    PutKeepsOk(i.args.value, name, value);
    SameNormArgs(i, Some(Put(i.args.value, name, value)));
    if DeployItemBytes(t) == DeployItemBytes(s) {
      DeployItemUnique(t, s, [], []);
    }
    if SameArg(s, name, value) {
      SameNormSameBytes(t, s);
    }
  }

  lemma SameNormArgs(i: Item, args: Option<ArgMap>)
    ensures NormItem(SetArgs(i, args)) == NormItem(i) <==> NormOptionalArgs(args) == NormOptionalArgs(i.args)
  {
    hide NormText, NormNumber, NormOptionalArgs;
  }

  /**
   A deploy that was consistent before an argument was set in its session, and its header given the
   new body hash, still has the hash of its header exactly when the argument was there already, or
   one of the two hashes collides. The payment may be the session's own object.
   */
  lemma StaysConsistentExactlyWhen(c: Crypto, h: Header, p: DeployItem, q: DeployItem, s: DeployItem,
                                   name: JsString, value: CLValue)
    requires Complete(s) && DeployItemOk(s) && Proper(value, true) && HeaderOk(h)
    requires q == p || (p == s && q == WithArg(s, name, value))
    requires BodyBytes(p, s).Ok? && DeployHeaderBytes(h).Ok? && h.bodyHash == Some(c.hash(BodyBytes(p, s).value))
    requires BodyBytes(q, WithArg(s, name, value)).Ok?
    ensures var b := BodyBytes(q, WithArg(s, name, value)).value;
            var g := h.(bodyHash := Some(c.hash(b)));
            DeployHeaderBytes(g).Ok? ==>
              (c.hash(DeployHeaderBytes(g).value) == c.hash(DeployHeaderBytes(h).value) <==>
               || SameArg(s, name, value)
               || Collision(c, BodyBytes(p, s).value, b)
               || Collision(c, DeployHeaderBytes(h).value, DeployHeaderBytes(g).value))
  {
    hide Complete, DeployItemOk, Proper, HeaderOk, DeployItemBytes, DeployHeaderBytes, SameArg, WithArg;
    var t := WithArg(s, name, value);
    var b := BodyBytes(q, t).value;
    var g := h.(bodyHash := Some(c.hash(b)));
    SessionBytesStay(s, name, value);
    BodiesStay(p, q, s, t);
    if DeployHeaderBytes(g).Ok? && DeployHeaderBytes(g) == DeployHeaderBytes(h) {
      SameHeaderSameBodyHash(h, g);
    }
  }

  lemma SameHeaderSameBodyHash(h: Header, g: Header)
    requires HeaderOk(h) && g == h.(bodyHash := g.bodyHash)
    requires DeployHeaderBytes(h).Ok? && DeployHeaderBytes(g) == DeployHeaderBytes(h)
    ensures g.bodyHash == h.bodyHash
  {
    hide DeployHeaderBytes, NormText;
    HeaderUnique(h, g, [], []);
  }

  /** The body stays the same exactly when the session's bytes do, payment aside or along. */
  lemma BodiesStay(p: DeployItem, q: DeployItem, s: DeployItem, t: DeployItem)
    requires q == p || (p == s && q == t)
    requires BodyBytes(p, s).Ok? && BodyBytes(q, t).Ok?
    ensures BodyBytes(q, t) == BodyBytes(p, s) <==> DeployItemBytes(t) == DeployItemBytes(s)
  {
    hide DeployItemBytes;
    var x, y := DeployItemBytes(s).value, DeployItemBytes(t).value;
    if BodyBytes(q, t) == BodyBytes(p, s) {
      if q == p {
        CancelPrefix(DeployItemBytes(p).value, y, x);
      } else {
        assert |x| == |y|;
        SplitSame(y, y, x, x);
      }
    }
  }

  /** Short of a collision, a transaction hash stands for one payload, up to what the encoders ignore. */
  lemma TransactionHashCommits(c: Crypto, p: TransactionPayload, q: TransactionPayload)
    requires PayloadOk(p) && PayloadOk(q) && PayloadBytes(p).Ok? && PayloadBytes(q).Ok?
    ensures c.hash(PayloadBytes(p).value) == c.hash(PayloadBytes(q).value) <==>
            NormPayload(p) == NormPayload(q) || Collision(c, PayloadBytes(p).value, PayloadBytes(q).value)
  {
    hide PayloadOk, PayloadBytes, NormPayload;
    PayloadDetermined(p, q);
  }

  /** Short of a collision, a deploy hash stands for one header, payment and session. */
  lemma DeployHashCommits(c: Crypto, h: Header, p: DeployItem, s: DeployItem, g: Header, q: DeployItem, t: DeployItem)
    requires HeaderOk(h) && HeaderOk(g) && DeployHeaderBytes(h).Ok? && DeployHeaderBytes(g).Ok?
    requires DeployItemOk(p) && DeployItemOk(s) && DeployItemOk(q) && DeployItemOk(t) && Complete(p) && Complete(q)
    requires BodyBytes(p, s).Ok? && h.bodyHash == Some(c.hash(BodyBytes(p, s).value))
    requires BodyBytes(q, t).Ok? && g.bodyHash == Some(c.hash(BodyBytes(q, t).value))
    ensures c.hash(DeployHeaderBytes(h).value) == c.hash(DeployHeaderBytes(g).value) ==>
              (NormHeader(h) == NormHeader(g) && NormDeployItem(p) == NormDeployItem(q)
               && NormDeployItem(s) == NormDeployItem(t))
              || Collision(c, DeployHeaderBytes(h).value, DeployHeaderBytes(g).value)
              || Collision(c, BodyBytes(p, s).value, BodyBytes(q, t).value)
    ensures NormHeader(h).(bodyHash := None) == NormHeader(g).(bodyHash := None)
            && NormDeployItem(p) == NormDeployItem(q) && NormDeployItem(s) == NormDeployItem(t)
            ==> c.hash(DeployHeaderBytes(h).value) == c.hash(DeployHeaderBytes(g).value)
  {
    hide HeaderOk, DeployHeaderBytes, DeployItemOk, Complete, BodyBytes, NormDeployItem;
    BodyDetermined(p, s, q, t);
    if DeployHeaderBytes(h) == DeployHeaderBytes(g) {
      HeaderUnique(h, g, [], []);
    }
    NormHeaderBytes(h);
    NormHeaderBytes(g);
  }

  // --------------------------------------------------------------- the wire

  /** Signers and signatures back to back, without lengths. */
  function ApprovalsBody(approvals: seq<Approval>): (b: Bytes) {
    if approvals == [] then []
    else PublicKeyBytes(approvals[0].signer) + approvals[0].signature + ApprovalsBody(approvals[1..])
  }

  /** `Approval.toBytes`. */
  function ApprovalsBytes(approvals: seq<Approval>): (r: Result<Bytes>) {
    var count :- ToBytesU32(|approvals|);
    Ok(count + ApprovalsBody(approvals))
  }

  /** The signers are keys of either algorithm. */
  predicate SignersOk(approvals: seq<Approval>) {
    forall i :: 0 <= i < |approvals| ==> PublicKeyOk(approvals[i].signer)
  }

  /** As many approvals, with signatures of the same length place by place. */
  predicate SameLengths(xs: seq<Approval>, ys: seq<Approval>) {
    |xs| == |ys| && forall i :: 0 <= i < |xs| ==> |xs[i].signature| == |ys[i].signature|
  }

  /** The signature lengths a reader has to be told. */
  function Lengths(approvals: seq<Approval>): (ns: seq<nat>)
    ensures |ns| == |approvals| && forall i :: 0 <= i < |approvals| ==> ns[i] == |approvals[i].signature|
  {
    seq(|approvals|, i requires 0 <= i < |approvals| => |approvals[i].signature|)
  }

  /** Signer, then signature, one approval after the other. */
  function ReadSigned(lengths: seq<nat>, b: Bytes): (r: Parsed<seq<Approval>>) {
    if lengths == [] then Ok(([], b))
    else
      var (signer, r1) :- ReadPublicKey(b);
      var (signature, r2) :- ReadBytes(r1, lengths[0]);
      var (xs, rest) :- ReadSigned(lengths[1..], r2);
      Ok(([Approval(signer, signature)] + xs, rest))
  }

  /** The count in four bytes, then the approvals; signatures of the usual 65 bytes, say. */
  function ReadApprovals(lengths: seq<nat>, b: Bytes): (r: Result<seq<Approval>>) {
    var (n, r1) :- ReadLE(b, 4);
    var (xs, rest) :- ReadSigned(lengths, r1);
    if n != |lengths| || rest != [] then Err(InvalidFormat) else Ok(xs)
  }

  lemma {:induction false} ReadSignedBack(xs: seq<Approval>, rest: Bytes)
    requires SignersOk(xs)
    ensures ReadSigned(Lengths(xs), ApprovalsBody(xs) + rest) == Ok((xs, rest))
  {
    hide PublicKeyBytes, PublicKeyOk, ReadPublicKey, ReadBytes;
    if xs == [] {
      assert [] + rest == rest;
    } else {
      var x, tail := xs[0], ApprovalsBody(xs[1..]);
      Reassociate(PublicKeyBytes(x.signer), x.signature, tail, rest);
      ReadPublicKeyBack(x.signer, x.signature + (tail + rest));
      ReadBytesBack(x.signature, tail + rest);
      assert Lengths(xs)[1..] == Lengths(xs[1..]);
      ReadSignedBack(xs[1..], rest);
      assert xs == [x] + xs[1..];
    }
  }

  /** Told the lengths of the signatures, the reader gives back the approvals. */
  lemma ReadApprovalsBack(xs: seq<Approval>)
    requires SignersOk(xs) && ApprovalsBytes(xs).Ok?
    ensures ReadApprovals(Lengths(xs), ApprovalsBytes(xs).value) == Ok(xs)
  {
    hide LE, ReadLE, ReadSigned, ApprovalsBody, SignersOk;
    ReadSizeBack(|xs|, ApprovalsBody(xs));
    ReadSignedBack(xs, []);
    assert ApprovalsBody(xs) + [] == ApprovalsBody(xs);
  }

  /** Approvals that are written alike are the same exactly when their signatures have the same lengths. */
  lemma ApprovalsUnique(xs: seq<Approval>, ys: seq<Approval>)
    requires SignersOk(xs) && SignersOk(ys)
    requires ApprovalsBytes(xs).Ok? && ApprovalsBytes(xs) == ApprovalsBytes(ys)
    ensures |xs| == |ys|
    ensures xs == ys <==> SameLengths(xs, ys)
  {
    hide LE, ReadLE, ApprovalsBody, SignersOk, ReadApprovals;
    ReadSizeBack(|xs|, ApprovalsBody(xs));
    ReadSizeBack(|ys|, ApprovalsBody(ys));
    if SameLengths(xs, ys) {
      assert Lengths(xs) == Lengths(ys);
      ReadApprovalsBack(xs);
      ReadApprovalsBack(ys);
    }
  }

  function Ones(n: nat): (b: Bytes)
    ensures |b| == n && forall i :: 0 <= i < n ==> b[i] == 1
  {
    seq(n, i => 1)
  }

  /** Signatures are written without their lengths, so different lengths can hide: two lists, one encoding. */
  lemma SignatureLengthsMatter(m: nat, n: nat)
    requires m != n
    ensures var key := PublicKey.PublicKey(1, Ones(32));
            var xs := [Approval(key, Ones(m)), Approval(key, Ones(n))];
            var ys := [Approval(key, Ones(n)), Approval(key, Ones(m))];
            xs != ys && SignersOk(xs) && SignersOk(ys) && ApprovalsBytes(xs) == ApprovalsBytes(ys)
  {
    hide ToBytesU32;
    var key := PublicKey.PublicKey(1, Ones(32));
    OnesBody(key, m, n);
    OnesBody(key, n, m);
    assert |Ones(m)| != |Ones(n)|;
  }

  lemma OnesBody(key: PublicKey, m: nat, n: nat)
    requires key == PublicKey.PublicKey(1, Ones(32))
    ensures ApprovalsBody([Approval(key, Ones(m)), Approval(key, Ones(n))]) == Ones(66 + m + n)
  {
    var xs := [Approval(key, Ones(m)), Approval(key, Ones(n))];
    assert xs[1..] == [Approval(key, Ones(n))] && xs[1..][1..] == [];
    assert ApprovalsBody(xs[1..]) == PublicKeyBytes(key) + Ones(n) + [];
    assert PublicKeyBytes(key) == Ones(33);
  }

  /** The algorithm byte of a signature can be anything without changing whether it verifies. */
  lemma AlgorithmByteIsIgnored(c: Crypto, message: Bytes, a: Approval, alg: Byte)
    requires a.signature != []
    ensures Verifies(c, message, a.(signature := [alg] + a.signature[1..])) <==> Verifies(c, message, a)
  {
    assert ([alg] + a.signature[1..])[1..] == a.signature[1..];
  }

  /** `TransactionV1.toBytes`. */
  function TransactionV1Bytes(hash: Hash, payload: TransactionPayload, approvals: seq<Approval>): (r: Result<Bytes>) {
    var p :- PayloadBytes(payload);
    var a :- ApprovalsBytes(approvals);
    CalltableBytes([hash, p, a])
  }

  /** `Deploy.toBytes`. */
  function DeployBytes(hash: Hash, header: Header, payment: DeployItem, session: DeployItem, approvals: seq<Approval>)
    : (r: Result<Bytes>)
  {
    var h :- DeployHeaderBytes(header);
    var body :- BodyBytes(payment, session);
    var a :- ApprovalsBytes(approvals);
    Ok(h + hash + body + a)
  }

  /** Hash, payload and approvals, in the fields 0, 1 and 2. */
  function ReadTransactionV1(lengths: seq<nat>, b: Bytes): (r: Result<(Hash, TransactionPayload, seq<Approval>)>) {
    var hash :- FieldAt(b, 0);
    var f1 :- FieldAt(b, 1);
    var payload :- ReadPayload(f1);
    var f2 :- FieldAt(b, 2);
    var approvals :- ReadApprovals(lengths, f2);
    if |hash| != 32 then Err(InvalidFormat) else Ok((hash, payload, approvals))
  }

  /** Header, hash, payment, session and approvals, back to back. */
  function ReadDeploy(lengths: seq<nat>, b: Bytes)
    : (r: Result<(Header, Hash, Option<Item>, Option<Item>, seq<Approval>)>)
  {
    var (header, r1) :- ReadHeader(b);
    var (hash, r2) :- ReadBytes(r1, 32);
    var (payment, r3) :- ReadDeployItem(r2);
    var (session, r4) :- ReadDeployItem(r3);
    var approvals :- ReadApprovals(lengths, r4);
    Ok((header, hash, payment, session, approvals))
  }

  /** A V1 transaction reads back from its wire form. */
  lemma ReadTransactionV1Back(h: Hash, p: TransactionPayload, xs: seq<Approval>)
    requires PayloadOk(p) && SignersOk(xs) && TransactionV1Bytes(h, p, xs).Ok?
    ensures ReadTransactionV1(Lengths(xs), TransactionV1Bytes(h, p, xs).value) == Ok((h, NormPayload(p), xs))
  {
    hide PayloadOk, PayloadBytes, NormPayload, ApprovalsBytes, SignersOk, CalltableBytes, FieldAt, ReadPayload,
         ReadApprovals, Lengths;
    var vs: seq<Bytes> := [h, PayloadBytes(p).value, ApprovalsBytes(xs).value];
    FieldOfWritten(vs, 0);
    FieldOfWritten(vs, 1);
    FieldOfWritten(vs, 2);
    ReadPayloadBack(p);
    ReadApprovalsBack(xs);
  }

  /** A deploy whose items are set and have args reads back from its wire form. */
  lemma ReadDeployBack(d: Hash, h: Header, p: DeployItem, s: DeployItem, xs: seq<Approval>)
    requires HeaderOk(h) && DeployItemOk(p) && DeployItemOk(s) && Complete(p) && Complete(s) && SignersOk(xs)
    requires DeployBytes(d, h, p, s, xs).Ok?
    ensures ReadDeploy(Lengths(xs), DeployBytes(d, h, p, s, xs).value) ==
            Ok((NormHeader(h), d, NormDeployItem(p), NormDeployItem(s), xs))
  {
    hide HeaderOk, DeployHeaderBytes, DeployItemOk, Complete, DeployItemBytes, NormHeader, NormDeployItem,
         ApprovalsBytes, SignersOk, ReadHeader, ReadBytes, ReadDeployItem, ReadApprovals, Lengths;
    var x := ApprovalsBytes(xs).value;
    var pb, sb := DeployItemBytes(p).value, DeployItemBytes(s).value;
    Reassociate(DeployHeaderBytes(h).value, d, pb + sb, x);
    AssociateThree(pb, sb, x);
    ReadHeaderBack(h, d + (pb + (sb + x)));
    ReadBytesBack(d, pb + (sb + x));
    ReadDeployItemBack(p, sb + x);
    ReadDeployItemBack(s, x);
    ReadApprovalsBack(xs);
  }

  /** A V1 transaction's wire form gives back its hash, payload and, up to signature lengths, approvals. */
  lemma TransactionV1Determined(h: Hash, p: TransactionPayload, xs: seq<Approval>,
                                g: Hash, q: TransactionPayload, ys: seq<Approval>)
    requires PayloadOk(p) && PayloadOk(q)
    requires SignersOk(xs) && SignersOk(ys)
    requires TransactionV1Bytes(h, p, xs).Ok? && TransactionV1Bytes(h, p, xs) == TransactionV1Bytes(g, q, ys)
    ensures h == g && NormPayload(p) == NormPayload(q) && (xs == ys <==> SameLengths(xs, ys))
  {
    hide PayloadOk, PayloadBytes, NormPayload, ApprovalsBytes, SignersOk, CalltableBytes;
    var vs: seq<Bytes> := [h, PayloadBytes(p).value, ApprovalsBytes(xs).value];
    var ws: seq<Bytes> := [g, PayloadBytes(q).value, ApprovalsBytes(ys).value];
    CalltableSame(vs, ws);
    assert vs[0] == ws[0] && vs[1] == ws[1] && vs[2] == ws[2];
    PayloadDetermined(p, q);
    ApprovalsUnique(xs, ys);
  }

  /** A deploy's wire form gives back all five parts when both items are set and have args. */
  lemma DeployDetermined(d: Hash, h: Header, p: DeployItem, s: DeployItem, xs: seq<Approval>,
                         e: Hash, g: Header, q: DeployItem, t: DeployItem, ys: seq<Approval>)
    requires HeaderOk(h) && HeaderOk(g)
    requires DeployItemOk(p) && DeployItemOk(s) && DeployItemOk(q) && DeployItemOk(t)
    requires Complete(p) && Complete(s) && Complete(q) && Complete(t)
    requires SignersOk(xs) && SignersOk(ys)
    requires DeployBytes(d, h, p, s, xs).Ok? && DeployBytes(d, h, p, s, xs) == DeployBytes(e, g, q, t, ys)
    ensures d == e && NormHeader(h) == NormHeader(g) && NormDeployItem(p) == NormDeployItem(q)
    ensures NormDeployItem(s) == NormDeployItem(t) && (xs == ys <==> SameLengths(xs, ys))
  {
    hide HeaderOk, DeployHeaderBytes, DeployItemOk, Complete, DeployItemBytes, NormDeployItem, ApprovalsBytes,
         SignersOk;
    var hb, x := DeployHeaderBytes(h).value, ApprovalsBytes(xs).value;
    var gb, y := DeployHeaderBytes(g).value, ApprovalsBytes(ys).value;
    var pb, sb := DeployItemBytes(p).value, DeployItemBytes(s).value;
    var qb, tb := DeployItemBytes(q).value, DeployItemBytes(t).value;
    Reassociate(hb, d, pb + sb, x);
    Reassociate(gb, e, qb + tb, y);
    HeaderUnique(h, g, d + (pb + sb + x), e + (qb + tb + y));
    SplitSame(d, pb + sb + x, e, qb + tb + y);
    AssociateThree(pb, sb, x);
    AssociateThree(qb, tb, y);
    DeployItemUnique(p, q, sb + x, tb + y);
    DeployItemUnique(s, t, x, y);
    ApprovalsUnique(xs, ys);
  }
}
