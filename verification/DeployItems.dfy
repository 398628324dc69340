/**
 Deploy items and headers (src/types/ExecutableDeployItem.ts, src/types/Deploy.ts): the six item
 encodings, the deploy body made of two of them with nothing in between, and the header.
 */
module DeployItems {
  import opened Basics
  import opened Utf8
  import opened ByteConverters
  import opened CLValues
  import opened CodecLaw
  import opened UniqueDecoding
  import opened Arguments
  import opened TransactionParts
  import opened TransactionTargets
  import opened Payload

  /** One of the six kinds of item. Args may be missing; only some kinds can be written without. */
  datatype Item =
    | ModuleItem(moduleBytes: Bytes, args: Option<ArgMap>)
    | ByHashItem(hash: Hash, entryPoint: JsString, args: Option<ArgMap>)
    | ByNameItem(name: JsString, entryPoint: JsString, args: Option<ArgMap>)
    | VersionedByHashItem(hash: Hash, version: Option<int>, entryPoint: JsString, args: Option<ArgMap>)
    | VersionedByNameItem(name: JsString, version: Option<int>, entryPoint: JsString, args: Option<ArgMap>)
    | TransferItem(args: Option<ArgMap>)

  /** `ExecutableDeployItem`: a slot per kind, of which the first set one counts. */
  datatype DeployItem = DeployItem(
    moduleBytes: Option<(Bytes, Option<ArgMap>)>,
    byHash: Option<(Hash, JsString, Option<ArgMap>)>,
    byName: Option<(JsString, JsString, Option<ArgMap>)>,
    versionedByHash: Option<(Hash, Option<int>, JsString, Option<ArgMap>)>,
    versionedByName: Option<(JsString, Option<int>, JsString, Option<ArgMap>)>,
    transfer: Option<Option<ArgMap>>)

  /** The slot every method of the item dispatches to. */
  function Chosen(d: DeployItem): (i: Option<Item>) {
    if d.moduleBytes.Some? then Some(ModuleItem(d.moduleBytes.value.0, d.moduleBytes.value.1))
    else if d.byHash.Some? then Some(ByHashItem(d.byHash.value.0, d.byHash.value.1, d.byHash.value.2))
    else if d.byName.Some? then Some(ByNameItem(d.byName.value.0, d.byName.value.1, d.byName.value.2))
    else if d.versionedByHash.Some? then
      var v := d.versionedByHash.value;
      Some(VersionedByHashItem(v.0, v.1, v.2, v.3))
    else if d.versionedByName.Some? then
      var v := d.versionedByName.value;
      Some(VersionedByNameItem(v.0, v.1, v.2, v.3))
    else if d.transfer.Some? then Some(TransferItem(d.transfer.value))
    else None
  }

  function SetArgs(i: Item, args: Option<ArgMap>): (r: Item) {
    match i
    case ModuleItem(m, _) => ModuleItem(m, args)
    case ByHashItem(h, e, _) => ByHashItem(h, e, args)
    case ByNameItem(n, e, _) => ByNameItem(n, e, args)
    case VersionedByHashItem(h, v, e, _) => VersionedByHashItem(h, v, e, args)
    case VersionedByNameItem(n, v, e, _) => VersionedByNameItem(n, v, e, args)
    case TransferItem(_) => TransferItem(args)
  }

  /** The item with other args in the slot that counts. */
  function WithArgs(d: DeployItem, args: Option<ArgMap>): (r: DeployItem)
    requires Chosen(d).Some?
    ensures Chosen(r) == Some(SetArgs(Chosen(d).value, args))
  {
    if d.moduleBytes.Some? then d.(moduleBytes := Some((d.moduleBytes.value.0, args)))
    else if d.byHash.Some? then d.(byHash := Some((d.byHash.value.0, d.byHash.value.1, args)))
    else if d.byName.Some? then d.(byName := Some((d.byName.value.0, d.byName.value.1, args)))
    else if d.versionedByHash.Some? then
      var v := d.versionedByHash.value;
      d.(versionedByHash := Some((v.0, v.1, v.2, args)))
    else if d.versionedByName.Some? then
      var v := d.versionedByName.value;
      d.(versionedByName := Some((v.0, v.1, v.2, args)))
    else d.(transfer := Some(args))
  }

  // --------------------------------------------------------------- encoders

  function ItemTag(i: Item): (tag: Byte) {
    match i
    case ModuleItem(_, _) => 0
    case ByHashItem(_, _, _) => 1
    case ByNameItem(_, _, _) => 2
    case VersionedByHashItem(_, _, _, _) => 3
    case VersionedByNameItem(_, _, _, _) => 4
    case TransferItem(_) => 5
  }

  /** `args.toBytes()`, which throws when there is no args object. */
  function RequiredArgs(args: Option<ArgMap>): (r: Result<Bytes>) {
    if args.None? then Err(MissingField) else ArgsBytes(args.value)
  }

  /** `args ? args.toBytes() : []`. */
  function OptionalArgs(args: Option<ArgMap>): (r: Result<Bytes>) {
    if args.None? then Ok([]) else ArgsBytes(args.value)
  }

  /** What precedes the arguments. */
  function ItemHead(i: Item): (r: Result<Bytes>) {
    match i
    case ModuleItem(m, _) =>
      var size :- ToBytesU32(|m|);
      Ok(size + m)
    case ByHashItem(h, e, _) => Ok(h + StringBytes(e))
    case ByNameItem(n, e, _) => Ok(StringBytes(n) + StringBytes(e))
    case VersionedByHashItem(h, v, e, _) =>
      var version :- VersionBytes(v);
      Ok(h + version + StringBytes(e))
    case VersionedByNameItem(n, v, e, _) =>
      var version :- VersionBytes(v);
      Ok(StringBytes(n) + version + StringBytes(e))
    case TransferItem(_) => Ok([])
  }

  function ItemArgs(i: Item): (r: Result<Bytes>) {
    if i.ByHashItem? || i.ByNameItem? || i.TransferItem? then RequiredArgs(i.args) else OptionalArgs(i.args)
  }

  function ItemBytes(i: Item): (r: Result<Bytes>) {
    var head :- ItemHead(i);
    var args :- ItemArgs(i);
    Ok([ItemTag(i)] + head + args)
  }

  /** `ExecutableDeployItem.bytes`: an item without a slot set writes nothing. */
  function DeployItemBytes(d: DeployItem): (r: Result<Bytes>) {
    var i := Chosen(d);
    if i.None? then Ok([]) else ItemBytes(i.value)
  }

  /** `getArgs`. */
  function ItemArgMap(d: DeployItem): (r: Result<Option<ArgMap>>) {
    var i := Chosen(d);
    if i.None? then Err(MissingField) else Ok(i.value.args)
  }

  /** The deploy body: payment, then session, back to back. */
  function BodyBytes(payment: DeployItem, session: DeployItem): (r: Result<Bytes>) {
    var p :- DeployItemBytes(payment);
    var s :- DeployItemBytes(session);
    Ok(p + s)
  }

  // ---------------------------------------------------------- normal forms

  function NormOptionalArgs(args: Option<ArgMap>): (n: Option<ArgMap>) {
    if args.None? then None else Some(NormArgs(args.value))
  }

  /** The item as it is written: version 0 like no version, lone surrogates replaced. */
  function NormItem(i: Item): (n: Item) {
    var args := NormOptionalArgs(i.args);
    match i
    case ModuleItem(m, _) => ModuleItem(m, args)
    case ByHashItem(h, e, _) => ByHashItem(h, NormText(e), args)
    case ByNameItem(n, e, _) => ByNameItem(NormText(n), NormText(e), args)
    case VersionedByHashItem(h, v, e, _) => VersionedByHashItem(h, NormNumber(v), NormText(e), args)
    case VersionedByNameItem(n, v, e, _) => VersionedByNameItem(NormText(n), NormNumber(v), NormText(e), args)
    case TransferItem(_) => TransferItem(args)
  }

  function NormDeployItem(d: DeployItem): (n: Option<Item>) {
    if Chosen(d).None? then None else Some(NormItem(Chosen(d).value))
  }

  /** Texts short enough for their lengths, arguments without ambiguity. */
  predicate ItemOk(i: Item) {
    && (i.ByHashItem? || i.ByNameItem? || i.VersionedByHashItem? || i.VersionedByNameItem? ==> TextOk(i.entryPoint))
    && (i.ByNameItem? || i.VersionedByNameItem? ==> TextOk(i.name))
    && (i.args.Some? ==> ArgMapOk(i.args.value))
  }

  predicate ArgMapOk(args: ArgMap) {
    forall k :: 0 <= k < |args| ==> ArgProper(args[k])
  }

  predicate DeployItemOk(d: DeployItem) {
    Chosen(d).Some? ==> ItemOk(Chosen(d).value)
  }

  /** An item is set and carries an args object. */
  predicate Complete(d: DeployItem) {
    Chosen(d).Some? && Chosen(d).value.args.Some?
  }

  // --------------------------------------------------- which items are written

  /** Args with as many arguments and as long names as their lengths allow. */
  predicate ArgsFit(args: ArgMap) {
    |args| < 0x1_0000_0000
    && forall i :: 0 <= i < |args| ==> ArgFits(args[i]) && |Encode(args[i].0)| < 0x1_0000_0000
  }

  lemma {:induction false} ArgsBodyIsWritten(args: ArgMap)
    ensures ArgsBody(args).Ok? <==>
            forall i :: 0 <= i < |args| ==> ArgFits(args[i]) && |Encode(args[i].0)| < 0x1_0000_0000
  {
    hide WithTypeBytes, ArgFits, Encode, LE;
    if args != [] {
      WithTypeIsWritten(args[0]);
      ArgsBodyIsWritten(args[1..]);
      assert forall i :: 1 <= i < |args| ==> args[i] == args[1..][i - 1];
    }
  }

  /**
   An item is written exactly when its args, module and version fit. Only modules and versioned
   contracts can do without args.
   */
  lemma ItemIsWritten(i: Item)
    ensures ItemBytes(i).Ok? <==>
            && (i.args.Some? ==> ArgsFit(i.args.value))
            && match i
               case ModuleItem(m, _) => |m| < 0x1_0000_0000
               case ByHashItem(_, _, _) => i.args.Some?
               case ByNameItem(_, _, _) => i.args.Some?
               case VersionedByHashItem(_, v, _, _) => v.Some? ==> 0 <= v.value < 0x1_0000_0000
               case VersionedByNameItem(_, v, _, _) => v.Some? ==> 0 <= v.value < 0x1_0000_0000
               case TransferItem(_) => i.args.Some?
  {
    hide LE, StringBytes, ArgsBody, ArgFits, Encode;
    if i.args.Some? {
      ArgsBodyIsWritten(i.args.value);
    }
  }

  // -------------------------------------------------------------- the reader

  /** Args up to the end of the input may be missing altogether. */
  function ReadOptionalArgs(b: Bytes): (r: Parsed<Option<ArgMap>>) {
    if b == [] then Ok((None, []))
    else
      var (args, rest) :- ReadArgMap(b);
      Ok((Some(args), rest))
  }

  /** Tags 0 to 5: module, by hash, by name, versioned by hash, versioned by name, transfer. */
  function ReadItem(b: Bytes): (r: Parsed<Item>) {
    var (tag, r1) :- ReadByte(b);
    if tag == 0 then ReadModuleItem(r1)
    else if tag == 1 then
      var (hash, r2) :- ReadBytes(r1, 32);
      ReadByHash(hash, r2)
    else if tag == 2 then
      var (name, r2) :- ReadText(r1);
      ReadByName(name, r2)
    else if tag == 3 then
      var (hash, r2) :- ReadBytes(r1, 32);
      ReadVersionedByHash(hash, r2)
    else if tag == 4 then
      var (name, r2) :- ReadText(r1);
      ReadVersionedByName(name, r2)
    else if tag == 5 then
      var (args, rest) :- ReadOptionalArgs(r1);
      Ok((TransferItem(args), rest))
    else Err(UnknownTag)
  }

  function ReadModuleItem(b: Bytes): (r: Parsed<Item>) {
    var (m, r1) :- ReadSized(b);
    var (args, rest) :- ReadOptionalArgs(r1);
    Ok((ModuleItem(m, args), rest))
  }

  function ReadByHash(hash: Hash, b: Bytes): (r: Parsed<Item>) {
    var (entryPoint, r1) :- ReadText(b);
    var (args, rest) :- ReadOptionalArgs(r1);
    Ok((ByHashItem(hash, entryPoint, args), rest))
  }

  function ReadByName(name: JsString, b: Bytes): (r: Parsed<Item>) {
    var (entryPoint, r1) :- ReadText(b);
    var (args, rest) :- ReadOptionalArgs(r1);
    Ok((ByNameItem(name, entryPoint, args), rest))
  }

  function ReadVersionedByHash(hash: Hash, b: Bytes): (r: Parsed<Item>) {
    var (version, r1) :- ReadVersion(b);
    var (entryPoint, r2) :- ReadText(r1);
    var (args, rest) :- ReadOptionalArgs(r2);
    Ok((VersionedByHashItem(hash, version, entryPoint, args), rest))
  }

  function ReadVersionedByName(name: JsString, b: Bytes): (r: Parsed<Item>) {
    var (version, r1) :- ReadVersion(b);
    var (entryPoint, r2) :- ReadText(r1);
    var (args, rest) :- ReadOptionalArgs(r2);
    Ok((VersionedByNameItem(name, version, entryPoint, args), rest))
  }

  /** Nothing left is an item without a slot set. */
  function ReadDeployItem(b: Bytes): (r: Parsed<Option<Item>>) {
    if b == [] then Ok((None, []))
    else
      var (i, rest) :- ReadItem(b);
      Ok((Some(i), rest))
  }

  /** A deploy body: the payment, then the session. */
  function ReadBody(b: Bytes): (r: Result<(Option<Item>, Option<Item>)>) {
    var (payment, r1) :- ReadDeployItem(b);
    var (session, rest) :- ReadDeployItem(r1);
    if rest != [] then Err(InvalidFormat) else Ok((payment, session))
  }

  // -------------------------------------------------- what the reader gives back

  lemma ReadArgMapBack(args: ArgMap, rest: Bytes)
    requires ArgMapOk(args) && ArgsBytes(args).Ok?
    ensures ReadArgMap(ArgsBytes(args).value + rest) == Ok((NormArgs(args), rest))
    ensures |ArgsBytes(args).value| >= 4
  {
    hide LE, NormArgs, ArgsBody, RuntimeArgsBody, ShortNames, ArgProper, ReadArgs, ReadLE;
    var body := ArgsBody(args).value;
    AssociateThree(LE(|args|, 4), body, rest);
    ReadSizeBack(|args|, body + rest);
    PlainBody(args);
    ReadArgsBack(args, rest);
  }

  /** With arguments, or at the end of the input, the argument part reads back. */
  lemma ReadOptionalArgsBack(i: Item, rest: Bytes)
    requires ItemOk(i) && ItemArgs(i).Ok? && (i.args.Some? || rest == [])
    ensures ReadOptionalArgs(ItemArgs(i).value + rest) == Ok((NormOptionalArgs(i.args), rest))
  {
    hide ArgsBytes, ArgMapOk, TextOk, NormArgs, ReadArgMap;
    if i.args.Some? {
      ReadArgMapBack(i.args.value, rest);
    }
  }

  lemma ReadModuleBack(i: Item, tail: Bytes)
    requires i.ModuleItem? && ItemHead(i).Ok?
    ensures ReadSized(ItemHead(i).value + tail) == Ok((i.moduleBytes, tail))
  {
    hide LE, ReadSized;
    AssociateThree(LE(|i.moduleBytes|, 4), i.moduleBytes, tail);
    ReadSizedBack(i.moduleBytes, tail);
  }

  /** Hash or name, version, entry point: the pieces of the four stored kinds in front of `tail`. */
  lemma ReadStoredPieces(i: Item, tail: Bytes)
    requires i.ByHashItem? || i.ByNameItem? || i.VersionedByHashItem? || i.VersionedByNameItem?
    requires ItemOk(i) && ItemHead(i).Ok?
    ensures var versioned := i.VersionedByHashItem? || i.VersionedByNameItem?;
            && (versioned ==> VersionBytes(i.version).Ok?)
            && var e := StringBytes(i.entryPoint) + tail;
               var v := if versioned then VersionBytes(i.version).value + e else e;
               && ReadText(e) == Ok((NormText(i.entryPoint), tail))
               && (versioned ==> ReadVersion(v) == Ok((NormNumber(i.version), e)))
               && (i.ByHashItem? || i.VersionedByHashItem? ==>
                     ReadBytes(ItemHead(i).value + tail, 32) == Ok((i.hash, v)))
               && (i.ByNameItem? || i.VersionedByNameItem? ==>
                     ReadText(ItemHead(i).value + tail) == Ok((NormText(i.name), v)))
  {
    hide StringBytes, VersionBytes, ReadText, ReadVersion, ReadBytes, NormText, NormNumber, TextOk, ArgMapOk;
    var s := StringBytes(i.entryPoint);
    var e := s + tail;
    ReadTextBack(i.entryPoint, tail);
    var id := if i.ByHashItem? || i.VersionedByHashItem? then i.hash else StringBytes(i.name);
    var v := e;
    if i.VersionedByHashItem? || i.VersionedByNameItem? {
      var version := VersionBytes(i.version).value;
      v := version + e;
      ReadVersionBack(i.version, e);
      Reassociate(id, version, s, tail);
    } else {
      AssociateThree(id, s, tail);
    }
    if i.ByHashItem? || i.VersionedByHashItem? {
      ReadBytesBack(i.hash, v);
    } else {
      ReadTextBack(i.name, v);
    }
  }

  /** An item with arguments, or at the end of the input, reads back by its tag, whatever follows it. */
  lemma ReadItemBack(i: Item, rest: Bytes)
    requires ItemOk(i) && ItemBytes(i).Ok? && (i.args.Some? || rest == [])
    ensures ReadItem(ItemBytes(i).value + rest) == Ok((NormItem(i), rest))
  {
    hide ItemHead, ItemArgs, ItemOk, NormText, NormNumber, NormOptionalArgs, ReadSized, ReadText, ReadVersion,
         ReadBytes, ReadOptionalArgs, StringBytes, VersionBytes;
    var head, args := ItemHead(i).value, ItemArgs(i).value;
    var b := ItemBytes(i).value + rest;
    Reassociate([ItemTag(i)], head, args, rest);
    assert b[1..] == head + (args + rest);
    ReadOptionalArgsBack(i, rest);
    match i
    case ModuleItem(_, _) => ReadModuleBack(i, args + rest);
    case TransferItem(_) => TransferHead(i, args + rest);
    case _ => ReadStoredPieces(i, args + rest);
  }

  lemma TransferHead(i: Item, tail: Bytes)
    requires i.TransferItem?
    ensures ItemHead(i).value + tail == tail
  {
    assert [] + tail == tail;
  }

  lemma ItemStartsWithTag(i: Item)
    requires ItemBytes(i).Ok?
    ensures ItemBytes(i).value != []
  {
    hide ItemHead, ItemArgs;
  }

  /** The first slot set, in the order of the format, decides the first byte; without one there is no byte. */
  lemma SlotDecidesTag(d: DeployItem)
    requires DeployItemBytes(d).Ok?
    ensures var b := DeployItemBytes(d).value;
            if d.moduleBytes.Some? then b != [] && b[0] == 0
            else if d.byHash.Some? then b != [] && b[0] == 1
            else if d.byName.Some? then b != [] && b[0] == 2
            else if d.versionedByHash.Some? then b != [] && b[0] == 3
            else if d.versionedByName.Some? then b != [] && b[0] == 4
            else if d.transfer.Some? then b != [] && b[0] == 5
            else b == []
  {
    hide ItemHead, ItemArgs;
  }

  /** What is read back of an item is the slot that counts, as it is written. */
  lemma ReadDeployItemBack(d: DeployItem, rest: Bytes)
    requires DeployItemOk(d) && DeployItemBytes(d).Ok? && (Complete(d) || rest == [])
    ensures ReadDeployItem(DeployItemBytes(d).value + rest) == Ok((NormDeployItem(d), rest))
  {
    hide Chosen, ItemBytes, ItemOk, NormItem, ReadItem;
    if Chosen(d).Some? {
      ReadItemBack(Chosen(d).value, rest);
      ItemStartsWithTag(Chosen(d).value);
    } else {
      assert [] + rest == [];
    }
  }

  /** A body whose payment is set and has args reads back as payment and session, in this order. */
  lemma ReadBodyBack(p: DeployItem, s: DeployItem)
    requires DeployItemOk(p) && DeployItemOk(s) && Complete(p) && BodyBytes(p, s).Ok?
    ensures ReadBody(BodyBytes(p, s).value) == Ok((NormDeployItem(p), NormDeployItem(s)))
  {
    hide DeployItemOk, Complete, DeployItemBytes, NormDeployItem, ReadDeployItem;
    var x := DeployItemBytes(s).value;
    ReadDeployItemBack(p, x);
    ReadDeployItemBack(s, []);
    assert x + [] == x;
  }

  // ---------------------------------------------------------- determination

  /** Items with arguments delimit themselves; at the end of the input any item does. */
  lemma ItemUnique(a: Item, b: Item, q: Bytes, r: Bytes)
    requires ItemOk(a) && ItemOk(b) && ItemBytes(a).Ok? && ItemBytes(b).Ok?
    requires (a.args.Some? && b.args.Some?) || q == r == []
    requires ItemBytes(a).value + q == ItemBytes(b).value + r
    ensures NormItem(a) == NormItem(b) && q == r
  {
    hide *;
    ReadItemBack(a, q);
    ReadItemBack(b, r);
  }

  lemma NormHeadBytes(i: Item)
    ensures ItemHead(NormItem(i)) == ItemHead(i)
  {
    hide ToBytesU32, StringBytes, NormText, NormOptionalArgs;
    if i.ByHashItem? || i.ByNameItem? || i.VersionedByHashItem? || i.VersionedByNameItem? {
      NormTextBytes(i.entryPoint);
    }
    if i.ByNameItem? || i.VersionedByNameItem? {
      NormTextBytes(i.name);
    }
  }

  lemma NormItemArgs(i: Item)
    ensures ItemArgs(NormItem(i)) == ItemArgs(i) && ItemTag(NormItem(i)) == ItemTag(i)
  {
    hide ArgsBytes, NormArgs, NormText, NormNumber;
    if i.args.Some? {
      NormArgsBytes(i.args.value);
    }
  }

  lemma NormItemBytes(i: Item)
    ensures ItemBytes(NormItem(i)) == ItemBytes(i)
  {
    hide ItemHead, ItemArgs, ItemTag, NormItem;
    NormHeadBytes(i);
    NormItemArgs(i);
  }

  lemma DeployItemUnique(a: DeployItem, b: DeployItem, q: Bytes, r: Bytes)
    requires DeployItemOk(a) && DeployItemOk(b) && DeployItemBytes(a).Ok? && DeployItemBytes(b).Ok?
    requires (Complete(a) && Complete(b)) || q == r == []
    requires DeployItemBytes(a).value + q == DeployItemBytes(b).value + r
    ensures NormDeployItem(a) == NormDeployItem(b) && q == r
  {
    hide *;
    ReadDeployItemBack(a, q);
    ReadDeployItemBack(b, r);
  }

  lemma SameNormSameBytes(a: DeployItem, b: DeployItem)
    requires NormDeployItem(a) == NormDeployItem(b)
    ensures DeployItemBytes(a) == DeployItemBytes(b)
  {
    hide Chosen, ItemBytes, NormItem;
    if Chosen(a).Some? {
      NormItemBytes(Chosen(a).value);
      NormItemBytes(Chosen(b).value);
    }
  }

  /**
   When the payments are set and have args, a body that can be written is the same bytes as another
   exactly when payment and session agree as they are written. The session may be anything, even unset.
   */
  lemma BodyDetermined(p: DeployItem, s: DeployItem, q: DeployItem, t: DeployItem)
    requires DeployItemOk(p) && DeployItemOk(s) && DeployItemOk(q) && DeployItemOk(t)
    requires Complete(p) && Complete(q)
    ensures BodyBytes(p, s).Ok? ==>
              (BodyBytes(p, s) == BodyBytes(q, t) <==>
               NormDeployItem(p) == NormDeployItem(q) && NormDeployItem(s) == NormDeployItem(t))
  {
    hide DeployItemOk, Complete, DeployItemBytes, NormDeployItem, ReadBody;
    if BodyBytes(p, s).Ok? && BodyBytes(p, s) == BodyBytes(q, t) {
      ReadBodyBack(p, s);
      ReadBodyBack(q, t);
    }
    if NormDeployItem(p) == NormDeployItem(q) && NormDeployItem(s) == NormDeployItem(t) {
      SameNormSameBytes(p, q);
      SameNormSameBytes(s, t);
    }
  }

  // ------------------------------------- why payments must be set and have args

  /** A payment and session whose body is also that of another, complete payment. */
  ghost predicate Confused(p: DeployItem, s: DeployItem, q: DeployItem, t: DeployItem) {
    && DeployItemOk(s) && DeployItemOk(q) && DeployItemOk(t) && Complete(q)
    && BodyBytes(p, s).Ok? && BodyBytes(p, s) == BodyBytes(q, t)
    && NormDeployItem(p) != NormDeployItem(q)
  }

  function EmptyModule(args: Option<ArgMap>): (d: DeployItem) {
    DeployItem(Some(([], args)), None, None, None, None, None)
  }

  /** Nine zero bytes are a module with empty args; five are one without. */
  lemma EmptyModules()
    ensures DeployItemBytes(EmptyModule(None)) == Ok([0, 0, 0, 0, 0])
    ensures DeployItemBytes(EmptyModule(Some([]))) == Ok([0, 0, 0, 0, 0, 0, 0, 0, 0])
    ensures DeployItemOk(EmptyModule(None)) && DeployItemOk(EmptyModule(Some([]))) && Complete(EmptyModule(Some([])))
  {
    hide LE;
    var zero := LE(0, 4);
    FourZeros();
    assert [0] + (zero + []) + [] == [0, 0, 0, 0, 0];
    assert [0] + (zero + []) + (zero + []) == [0, 0, 0, 0, 0, 0, 0, 0, 0];
  }

  /** An empty args object adds four zero bytes to an item written without. */
  lemma EmptyArgsBytes(i: Item)
    requires i.args.None? && ItemBytes(i).Ok?
    ensures ItemBytes(SetArgs(i, Some([]))) == Ok(ItemBytes(i).value + [0, 0, 0, 0])
  {
    hide LE, StringBytes, VersionBytes;
    FourZeros();
    assert LE(0, 4) + [] == [0, 0, 0, 0];
    var j := SetArgs(i, Some([]));
    assert ItemHead(j) == ItemHead(i) && ItemTag(j) == ItemTag(i);
    assert ItemArgs(i) == Ok([]) && ItemArgs(j) == Ok([0, 0, 0, 0]);
    var head := [ItemTag(i)] + ItemHead(i).value;
    assert head + [] == head;
  }

  /** A set payment without args shares its body with the same payment with empty args. */
  lemma ArglessPaymentIsAmbiguous(p: DeployItem)
    requires DeployItemOk(p) && DeployItemBytes(p).Ok? && Chosen(p).Some? && Chosen(p).value.args.None?
    ensures Confused(p, EmptyModule(Some([])), WithArgs(p, Some([])), EmptyModule(None))
  {
    hide ItemBytes, NormText, NormNumber, NormArgs, EmptyModule, WithArgs, Chosen, TextOk;
    var q := WithArgs(p, Some([]));
    var b := DeployItemBytes(p).value;
    EmptyModules();
    EmptyArgsBytes(Chosen(p).value);
    assert b + [0, 0, 0, 0, 0, 0, 0, 0, 0] == b + [0, 0, 0, 0] + [0, 0, 0, 0, 0];
  }

  /** An unset payment writes nothing, so it trades places with any session unseen. */
  lemma UnsetPaymentIsAmbiguous(p: DeployItem, d: DeployItem)
    requires Chosen(p).None? && DeployItemBytes(d).Ok?
    ensures BodyBytes(p, d) == BodyBytes(d, p)
    ensures DeployItemOk(d) && Complete(d) ==> Confused(p, d, d, p)
  {
    hide ItemBytes, ItemOk, NormItem;
    var b := DeployItemBytes(d).value;
    assert [] + b == b && b + [] == b;
  }

  /** A payment that can be written is told apart from every complete payment exactly when it is complete itself. */
  lemma OnlyCompletePaymentsAreSafe(p: DeployItem)
    requires DeployItemOk(p) && DeployItemBytes(p).Ok?
    ensures Complete(p) <==> !exists s, q, t :: Confused(p, s, q, t)
  {
    hide Chosen, DeployItemOk, DeployItemBytes, NormDeployItem, BodyBytes;
    if Complete(p) {
      forall s, q, t ensures !Confused(p, s, q, t) {
        if Confused(p, s, q, t) {
          BodyDetermined(p, s, q, t);
        }
      }
    } else if Chosen(p).None? {
      EmptyModules();
      UnsetPaymentIsAmbiguous(p, EmptyModule(Some([])));
    } else {
      ArglessPaymentIsAmbiguous(p);
    }
  }

  lemma FourZeros()
    ensures LE(0, 4) == [0, 0, 0, 0]
  {
    assert LE(0, 1) == [0] + LE(0, 0);
    assert LE(0, 2) == [0] + LE(0, 1);
    assert LE(0, 3) == [0] + LE(0, 2);
    assert LE(0, 4) == [0] + LE(0, 3);
  }

  // ------------------------------------------------------------ the header

  datatype Header = Header(
    account: Option<PublicKey>, bodyHash: Option<Hash>, chainName: JsString, dependencies: seq<Hash>,
    gasPrice: int, timestamp: JsDate, ttl: int)

  function PresentHash(h: Option<Hash>): (r: Result<Bytes>) {
    if h.None? then Err(MissingField) else Ok(h.value)
  }

  function PresentKey(k: Option<PublicKey>): (r: Result<Bytes>) {
    if k.None? then Err(MissingField) else Ok(PublicKeyBytes(k.value))
  }

  /** `DeployHeader.toBytes`. */
  function DeployHeaderBytes(h: Header): (r: Result<Bytes>) {
    var count :- ToBytesU32(|h.dependencies|);
    var account :- PresentKey(h.account);
    var timestamp :- DateBytes(h.timestamp);
    var ttl :- ToBytesU64(h.ttl);
    var gasPrice :- ToBytesU64(h.gasPrice);
    var bodyHash :- PresentHash(h.bodyHash);
    var chainName :- ToBytesString(h.chainName);
    Ok(Concat([account, timestamp, ttl, gasPrice, bodyHash, count + Concat(h.dependencies), chainName]))
  }

  predicate HeaderOk(h: Header) {
    h.account.Some? ==> PublicKeyOk(h.account.value)
  }

  /** The header as it is written. */
  function NormHeader(h: Header): (n: Header) {
    h.(chainName := NormText(h.chainName))
  }

  lemma NormHeaderBytes(h: Header)
    ensures DeployHeaderBytes(NormHeader(h)) == DeployHeaderBytes(h)
  {
    hide Encode, Decode, ToBytesU64, ToBytesU32, Concat;
    NormTextKeeps(h.chainName);
  }

  /** A header is written exactly when account and body hash are set, the date is valid and all numbers are in range. */
  lemma HeaderIsWritten(h: Header)
    ensures DeployHeaderBytes(h).Ok? <==>
            && h.account.Some? && h.bodyHash.Some? && h.timestamp.ValidDate? && h.timestamp.ms >= 0
            && 0 <= h.ttl < 0x1_0000_0000_0000_0000 && 0 <= h.gasPrice < 0x1_0000_0000_0000_0000
            && |h.dependencies| < 0x1_0000_0000 && |Encode(h.chainName)| < 0x1_0000_0000
  {
    hide LE, Encode, Concat, PublicKeyBytes;
  }

  // ------------------------------------------------- reading the header back

  function ReadHashes(n: nat, b: Bytes): (r: Parsed<seq<Hash>>) {
    if n == 0 then Ok(([], b))
    else
      var (h, r1) :- ReadBytes(b, 32);
      var (hs, rest) :- ReadHashes(n - 1, r1);
      Ok(([h] + hs, rest))
  }

  /** The name's length in bytes, then UTF-8. */
  function ReadName(b: Bytes): (r: Parsed<JsString>) {
    var (x, rest) :- ReadSized(b);
    Ok((Decode(x), rest))
  }

  /** Account, timestamp, ttl, gas price, body hash, dependencies, chain name. */
  function ReadHeader(b: Bytes): (r: Parsed<Header>) {
    var (account, r1) :- ReadPublicKey(b);
    var (ms, r2) :- ReadLE(r1, 8);
    var (ttl, r3) :- ReadLE(r2, 8);
    var (gasPrice, r4) :- ReadLE(r3, 8);
    var (bodyHash, r5) :- ReadBytes(r4, 32);
    var (n, r6) :- ReadLE(r5, 4);
    var (dependencies, r7) :- ReadHashes(n, r6);
    var (chainName, rest) :- ReadName(r7);
    if ms > 8640000000000000 then Err(OutOfBounds)
    else Ok((Header(Some(account), Some(bodyHash), chainName, dependencies, gasPrice, ValidDate(ms), ttl), rest))
  }

  lemma {:induction false} ReadHashesBack(hs: seq<Hash>, rest: Bytes)
    ensures ReadHashes(|hs|, Concat(hs) + rest) == Ok((hs, rest))
  {
    hide ReadBytes;
    if hs == [] {
      assert [] + rest == rest;
    } else {
      AssociateThree(hs[0], Concat(hs[1..]), rest);
      ReadBytesBack(hs[0], Concat(hs[1..]) + rest);
      ReadHashesBack(hs[1..], rest);
      assert hs == [hs[0]] + hs[1..];
    }
  }

  lemma ReadNameBack(s: JsString, rest: Bytes)
    requires ToBytesString(s).Ok?
    ensures ReadName(ToBytesString(s).value + rest) == Ok((NormText(s), rest))
  {
    hide LE, Encode, Decode, ReadSized;
    AssociateThree(LE(|Encode(s)|, 4), Encode(s), rest);
    ReadSizedBack(Encode(s), rest);
  }

  lemma ReadU64Back(n: int, rest: Bytes)
    requires ToBytesU64(n).Ok?
    ensures ReadLE(ToBytesU64(n).value + rest, 8) == Ok((n, rest))
  {
    hide LE, ReadLE, Pow256;
    SmallPowers();
    ReadLEBack(n, 8, rest);
  }

  lemma ConcatStep(x: Bytes, xs: seq<Bytes>, rest: Bytes)
    ensures Concat([x] + xs) + rest == x + (Concat(xs) + rest)
  {
    assert ([x] + xs)[1..] == xs;
    AssociateThree(x, Concat(xs), rest);
  }

  /** The header's bytes and what follows them, piece by piece. */
  lemma HeaderPieces(h: Header, rest: Bytes)
    requires DeployHeaderBytes(h).Ok?
    ensures h.account.Some? && h.bodyHash.Some? && DateBytes(h.timestamp).Ok? && ToBytesU64(h.ttl).Ok?
            && ToBytesU64(h.gasPrice).Ok? && ToBytesU32(|h.dependencies|).Ok? && ToBytesString(h.chainName).Ok?
    ensures DeployHeaderBytes(h).value + rest ==
            PublicKeyBytes(h.account.value) + (DateBytes(h.timestamp).value + (ToBytesU64(h.ttl).value
            + (ToBytesU64(h.gasPrice).value + (h.bodyHash.value + (ToBytesU32(|h.dependencies|).value
            + Concat(h.dependencies) + (ToBytesString(h.chainName).value + rest))))))
  {
    hide PublicKeyBytes, DateBytes, ToBytesU64, ToBytesU32, ToBytesString;
    var a, t := PublicKeyBytes(h.account.value), DateBytes(h.timestamp).value;
    var l, g := ToBytesU64(h.ttl).value, ToBytesU64(h.gasPrice).value;
    var b, d := h.bodyHash.value, ToBytesU32(|h.dependencies|).value + Concat(h.dependencies);
    var n := ToBytesString(h.chainName).value;
    ConcatStep(a, [t, l, g, b, d, n], rest);
    ConcatStep(t, [l, g, b, d, n], rest);
    ConcatStep(l, [g, b, d, n], rest);
    ConcatStep(g, [b, d, n], rest);
    ConcatStep(b, [d, n], rest);
    ConcatStep(d, [n], rest);
    ConcatStep(n, [], rest);
    assert [a, t, l, g, b, d, n] == [a] + [t, l, g, b, d, n] && [t, l, g, b, d, n] == [t] + [l, g, b, d, n]
           && [l, g, b, d, n] == [l] + [g, b, d, n] && [g, b, d, n] == [g] + [b, d, n] && [b, d, n] == [b] + [d, n]
           && [d, n] == [d] + [n] && [n] == [n] + [];
    assert [] + rest == rest;
  }

  /** A header reads back field by field in the order of the format, whatever follows it. */
  lemma ReadHeaderBack(h: Header, rest: Bytes)
    requires HeaderOk(h) && DeployHeaderBytes(h).Ok?
    ensures ReadHeader(DeployHeaderBytes(h).value + rest) == Ok((NormHeader(h), rest))
  {
    hide DeployHeaderBytes, PublicKeyBytes, PublicKeyOk, ToBytesU64, LE, ToBytesString, NormText, Concat, ReadPublicKey,
         ReadLE, ReadBytes, ReadHashes, ReadName;
    HeaderPieces(h, rest);
    var name, ds := ToBytesString(h.chainName).value + rest, h.dependencies;
    var d := LE(|ds|, 4) + Concat(ds) + name;
    var hash := h.bodyHash.value + d;
    var gas := ToBytesU64(h.gasPrice).value + hash;
    var ttl := ToBytesU64(h.ttl).value + gas;
    ReadPublicKeyBack(h.account.value, DateBytes(h.timestamp).value + ttl);
    ReadU64Back(h.timestamp.ms, ttl);
    ReadU64Back(h.ttl, gas);
    ReadU64Back(h.gasPrice, hash);
    ReadBytesBack(h.bodyHash.value, d);
    AssociateThree(LE(|ds|, 4), Concat(ds), name);
    ReadSizeBack(|ds|, Concat(ds) + name);
    ReadHashesBack(ds, name);
    ReadNameBack(h.chainName, rest);
  }

  /** Headers delimit themselves and are determined by their bytes, up to lone surrogates. */
  lemma HeaderUnique(h: Header, g: Header, q: Bytes, r: Bytes)
    requires HeaderOk(h) && HeaderOk(g) && DeployHeaderBytes(h).Ok? && DeployHeaderBytes(g).Ok?
    requires DeployHeaderBytes(h).value + q == DeployHeaderBytes(g).value + r
    ensures NormHeader(h) == NormHeader(g) && q == r
  {
    hide *;
    ReadHeaderBack(h, q);
    ReadHeaderBack(g, r);
  }
}
