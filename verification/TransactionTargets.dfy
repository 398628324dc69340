/**
 Transaction targets and invocation targets (src/types/TransactionTarget.ts): encoders, a reader of
 the wire format with its tags in numerals, and the SDK's own decoder.
 */
module TransactionTargets {
  import opened Basics
  import opened Utf8
  import opened ByteConverters
  import opened CLTypes
  import opened CLValues
  import opened UniqueDecoding
  import opened Calltables
  import opened TransactionParts

  datatype Runtime = VmCasperV1 | VmCasperV2

  datatype PackageTarget<Id> = PackageTarget(id: Id, version: Option<int>, protocolVersionMajor: Option<int>)

  datatype InvocationTarget = InvocationTarget(
    byHash: Option<Hash>, byName: Option<JsString>,
    byPackageHash: Option<PackageTarget<Hash>>, byPackageName: Option<PackageTarget<JsString>>)

  datatype StoredTarget = StoredTarget(id: InvocationTarget, runtime: Runtime)
  datatype SessionTarget = SessionTarget(moduleBytes: Bytes, runtime: Runtime, isInstallUpgrade: bool)
  datatype Target = Target(native: bool, stored: Option<StoredTarget>, session: Option<SessionTarget>)

  // --------------------------------------------------------------- encoders

  function RuntimeBytes(r: Runtime): (b: Result<Bytes>) {
    CalltableBytes([[if r.VmCasperV1? then 0 else 1]])
  }

  /** JavaScript's truthiness of an optional number: 0 counts as absent. */
  predicate Truthy(n: Option<int>) {
    n.Some? && n.value != 0
  }

  /** An `Option<U32>`: version 0 is written as None. */
  function VersionBytes(version: Option<int>): (r: Result<Bytes>) {
    if Truthy(version) then
      var n :- ToBytesU32(version.value);
      Ok([1] + n)
    else Ok([0])
  }

  /** The table of a package target: tag, id, version, and the protocol major version if there is one. */
  function PackageFields(tag: Byte, id: Bytes, version: Option<int>, major: Option<int>): (r: Result<seq<Bytes>>) {
    var v :- VersionBytes(version);
    if Truthy(major) then
      var m :- ToBytesU32(major.value);
      Ok([[tag], id, v, m])
    else Ok([[tag], id, v])
  }

  /** The fields of an invocation target's table; an empty name counts as absent. */
  function InvocationFields(t: InvocationTarget): (r: Result<seq<Bytes>>) {
    if t.byHash.Some? then Ok([[0], t.byHash.value])
    else if t.byName.Some? && t.byName.value != [] then Ok([[1], StringBytes(t.byName.value)])
    else if t.byPackageHash.Some? then
      var p := t.byPackageHash.value;
      PackageFields(2, p.id, p.version, p.protocolVersionMajor)
    else if t.byPackageName.Some? then
      var p := t.byPackageName.value;
      PackageFields(3, StringBytes(p.id), p.version, p.protocolVersionMajor)
    else Err(MissingField)
  }

  function InvocationBytes(t: InvocationTarget): (r: Result<Bytes>) {
    var vs :- InvocationFields(t);
    CalltableBytes(vs)
  }

  function StoredBytes(s: StoredTarget): (r: Result<Bytes>) {
    var id :- InvocationBytes(s.id);
    var runtime :- RuntimeBytes(s.runtime);
    CalltableBytes([[1], id, runtime])
  }

  function SessionBytes(s: SessionTarget): (r: Result<Bytes>) {
    var runtime :- RuntimeBytes(s.runtime);
    CalltableBytes([[2], [if s.isInstallUpgrade then 1 else 0], runtime, LE(|s.moduleBytes|, 4) + s.moduleBytes])
  }

  function TargetBytes(t: Target): (r: Result<Bytes>) {
    if t.native then CalltableBytes([[0]])
    else if t.stored.Some? then StoredBytes(t.stored.value)
    else if t.session.Some? then SessionBytes(t.session.value)
    else Err(MissingField)
  }

  // ------------------------------------------------------------ normal forms

  function NormNumber(n: Option<int>): (r: Option<int>) {
    if Truthy(n) then n else None
  }

  function NormPackage<Id>(p: PackageTarget<Id>): (r: PackageTarget<Id>) {
    PackageTarget(p.id, NormNumber(p.version), NormNumber(p.protocolVersionMajor))
  }

  /** The one target that counts; version 0 and protocol major 0 count as absent. */
  function UsedInvocation(t: InvocationTarget): (r: InvocationTarget) {
    if t.byHash.Some? then InvocationTarget(t.byHash, None, None, None)
    else if t.byName.Some? && t.byName.value != [] then InvocationTarget(None, t.byName, None, None)
    else if t.byPackageHash.Some? then InvocationTarget(None, None, Some(NormPackage(t.byPackageHash.value)), None)
    else if t.byPackageName.Some? then InvocationTarget(None, None, None, Some(NormPackage(t.byPackageName.value)))
    else InvocationTarget(None, None, None, None)
  }

  /** The target that counts, with its name as it is written. */
  function NormInvocation(t: InvocationTarget): (r: InvocationTarget) {
    var u := UsedInvocation(t);
    if u.byName.Some? then u.(byName := Some(NormText(u.byName.value)))
    else if u.byPackageName.Some? then
      u.(byPackageName := Some(u.byPackageName.value.(id := NormText(u.byPackageName.value.id))))
    else u
  }

  function NormTarget(t: Target): (r: Target) {
    if t.native then Target(true, None, None)
    else if t.stored.Some? then
      Target(false, Some(StoredTarget(NormInvocation(t.stored.value.id), t.stored.value.runtime)), None)
    else t
  }

  predicate InvocationOk(t: InvocationTarget) {
    && (t.byName.Some? ==> TextOk(t.byName.value))
    && (t.byPackageName.Some? ==> TextOk(t.byPackageName.value.id))
  }

  predicate TargetOk(t: Target) {
    t.stored.Some? ==> InvocationOk(t.stored.value.id)
  }

  // ------------------------------------------------------ step by step

  method RuntimeToBytes(v: Runtime) returns (r: Result<Bytes>)
    ensures r == RuntimeBytes(v)
  {
    hide CalltableBytes, TableOf, TableBytes, Values;
    var c := new CalltableSerialization();
    var _ := c.AddField(0, [if v.VmCasperV1? then 0 else 1]);
    assert Values(c.fields) == [[if v.VmCasperV1? then 0 else 1]];
    r := c.ToBytes();
  }

  /** `ByPackageHashInvocationTarget.toBytes` and `ByPackageNameInvocationTarget.toBytes`. */
  method PackageToBytes(tag: Byte, id: Bytes, version: Option<int>, major: Option<int>) returns (r: Result<Bytes>)
    ensures var vs := PackageFields(tag, id, version, major);
            r == if vs.Ok? then CalltableBytes(vs.value) else Err(vs.error)
  {
    hide CalltableBytes, TableOf, TableBytes, Values;
    var c := new CalltableSerialization();
    var versionBytes := VersionBytes(version);
    if versionBytes.Err? { return versionBytes; }
    var _ := c.AddField(0, [tag]);
    var _ := c.AddField(1, id);
    var _ := c.AddField(2, versionBytes.value);
    assert Values(c.fields) == [[tag], id, versionBytes.value];
    if Truthy(major) {
      var m := ToBytesU32(major.value);
      if m.Err? { return m; }
      var _ := c.AddField(3, m.value);
      assert Values(c.fields) == [[tag], id, versionBytes.value, m.value];
    }
    r := c.ToBytes();
  }

  method InvocationToBytes(t: InvocationTarget) returns (r: Result<Bytes>)
    ensures r == InvocationBytes(t)
  {
    hide CalltableBytes, TableOf, TableBytes, Values, PackageFields, StringBytes;
    if t.byHash.Some? {
      var c := new CalltableSerialization();
      var _ := c.AddField(0, [0]);
      var _ := c.AddField(1, t.byHash.value);
      assert Values(c.fields) == [[0], t.byHash.value];
      r := c.ToBytes();
    } else if t.byName.Some? && t.byName.value != [] {
      var c := new CalltableSerialization();
      var _ := c.AddField(0, [1]);
      var _ := c.AddField(1, StringBytes(t.byName.value));
      assert Values(c.fields) == [[1], StringBytes(t.byName.value)];
      r := c.ToBytes();
    } else if t.byPackageHash.Some? {
      var p := t.byPackageHash.value;
      r := PackageToBytes(2, p.id, p.version, p.protocolVersionMajor);
    } else if t.byPackageName.Some? {
      var p := t.byPackageName.value;
      r := PackageToBytes(3, StringBytes(p.id), p.version, p.protocolVersionMajor);
    } else {
      r := Err(MissingField);
    }
  }

  method StoredToBytes(s: StoredTarget) returns (r: Result<Bytes>)
    ensures r == StoredBytes(s)
  {
    hide CalltableBytes, TableOf, TableBytes, Values, InvocationBytes, RuntimeBytes;
    var c := new CalltableSerialization();
    var _ := c.AddField(0, [1]);
    var id := InvocationToBytes(s.id);
    if id.Err? { return id; }
    var _ := c.AddField(1, id.value);
    var runtime := RuntimeToBytes(s.runtime);
    if runtime.Err? { return runtime; }
    var _ := c.AddField(2, runtime.value);
    assert Values(c.fields) == [[1], id.value, runtime.value];
    r := c.ToBytes();
  }

  method SessionToBytes(s: SessionTarget) returns (r: Result<Bytes>)
    ensures r == SessionBytes(s)
  {
    hide CalltableBytes, TableOf, TableBytes, Values, RuntimeBytes, LE;
    var moduleBytesLength := LE(|s.moduleBytes|, 4);
    var c := new CalltableSerialization();
    var _ := c.AddField(0, [2]);
    var _ := c.AddField(1, [if s.isInstallUpgrade then 1 else 0]);
    var runtime := RuntimeToBytes(s.runtime);
    if runtime.Err? { return runtime; }
    var _ := c.AddField(2, runtime.value);
    var _ := c.AddField(3, moduleBytesLength + s.moduleBytes);
    assert Values(c.fields) ==
           [[2], [if s.isInstallUpgrade then 1 else 0], runtime.value, moduleBytesLength + s.moduleBytes];
    r := c.ToBytes();
  }

  method TargetToBytes(t: Target) returns (r: Result<Bytes>)
    ensures r == TargetBytes(t)
  {
    hide CalltableBytes, TableOf, TableBytes, Values, StoredBytes, SessionBytes;
    if t.native {
      var c := new CalltableSerialization();
      var _ := c.AddField(0, [0]);
      assert Values(c.fields) == [[0]];
      r := c.ToBytes();
    } else if t.stored.Some? {
      r := StoredToBytes(t.stored.value);
    } else if t.session.Some? {
      r := SessionToBytes(t.session.value);
    } else {
      r := Err(MissingField);
    }
  }

  // -------------------------------------------------------------- the reader

  /** Runtime 0 is version 1, runtime 1 version 2. */
  function ReadRuntime(b: Bytes): (r: Result<Runtime>) {
    var tag :- FieldAt(b, 0);
    if tag == [0] then Ok(VmCasperV1) else if tag == [1] then Ok(VmCasperV2) else Err(UnknownTag)
  }

  /** A 0 alone, or a 1 and four bytes. */
  function ReadVersion(b: Bytes): (r: Parsed<Option<int>>) {
    var (tag, r1) :- ReadByte(b);
    if tag == 0 then Ok((None, r1))
    else if tag > 1 then Err(UnknownTag)
    else
      var (n, rest) :- ReadLE(r1, 4);
      Ok((Some(n), rest))
  }

  function VersionIn(field: Bytes): (r: Result<Option<int>>) {
    var (v, rest) :- ReadVersion(field);
    if rest != [] then Err(InvalidFormat) else Ok(v)
  }

  /** The fourth field of a package target, if there is one. */
  function MajorAt(b: Bytes): (r: Result<Option<int>>) {
    var field := FieldAt(b, 3);
    if field.Err? then Ok(None)
    else
      var n :- NumberIn(field.value, 4);
      Ok(Some(n))
  }

  /** 0 is a hash, 1 a name, 2 a package hash, 3 a package name; packages go on with version and major version. */
  function ReadInvocation(b: Bytes): (r: Result<InvocationTarget>) {
    var tag :- FieldAt(b, 0);
    var id :- FieldAt(b, 1);
    if tag == [0] && |id| == 32 then Ok(InvocationTarget(Some(id), None, None, None))
    else if tag == [1] then
      var name :- TextIn(id);
      Ok(InvocationTarget(None, Some(name), None, None))
    else
      var field :- FieldAt(b, 2);
      var version :- VersionIn(field);
      var major :- MajorAt(b);
      if tag == [2] && |id| == 32 then
        Ok(InvocationTarget(None, None, Some(PackageTarget(id, version, major)), None))
      else if tag == [3] then
        var name :- TextIn(id);
        Ok(InvocationTarget(None, None, None, Some(PackageTarget(name, version, major))))
      else Err(UnknownTag)
  }

  function ReadStored(b: Bytes): (r: Result<StoredTarget>) {
    var first :- FieldAt(b, 1);
    var id :- ReadInvocation(first);
    var second :- FieldAt(b, 2);
    var runtime :- ReadRuntime(second);
    Ok(StoredTarget(id, runtime))
  }

  /** Four bytes of length and as many more. */
  function ReadSized(b: Bytes): (r: Parsed<Bytes>) {
    var (n, rest) :- ReadLE(b, 4);
    ReadBytes(rest, n)
  }

  function ReadSession(b: Bytes): (r: Result<SessionTarget>) {
    var first :- FieldAt(b, 1);
    var install :- NumberIn(first, 1);
    var second :- FieldAt(b, 2);
    var runtime :- ReadRuntime(second);
    var third :- FieldAt(b, 3);
    var (m, rest) :- ReadSized(third);
    if install > 1 || rest != [] then Err(InvalidFormat) else Ok(SessionTarget(m, runtime, install == 1))
  }

  /** 0 is native, 1 a stored target, 2 a session. */
  function ReadTarget(b: Bytes): (r: Result<Target>) {
    var tag :- FieldAt(b, 0);
    if tag == [0] then Ok(Target(true, None, None))
    else if tag == [1] then
      var s :- ReadStored(b);
      Ok(Target(false, Some(s), None))
    else if tag == [2] then
      var s :- ReadSession(b);
      Ok(Target(false, None, Some(s)))
    else Err(UnknownTag)
  }

  lemma ReadRuntimeBack(v: Runtime)
    requires RuntimeBytes(v).Ok?
    ensures ReadRuntime(RuntimeBytes(v).value) == Ok(v)
  {
    hide CalltableBytes, FieldAt;
    FieldOfWritten([[if v.VmCasperV1? then 0 else 1]], 0);
  }

  lemma ReadVersionBack(v: Option<int>, rest: Bytes)
    requires VersionBytes(v).Ok?
    ensures ReadVersion(VersionBytes(v).value + rest) == Ok((NormNumber(v), rest))
  {
    hide LE, ReadLE;
    var b := VersionBytes(v).value + rest;
    if Truthy(v) {
      ReadSizeBack(v.value, rest);
      assert b[1..] == LE(v.value, 4) + rest;
    } else {
      assert b[1..] == rest;
    }
  }

  lemma VersionInField(v: Option<int>)
    requires VersionBytes(v).Ok?
    ensures VersionIn(VersionBytes(v).value) == Ok(NormNumber(v))
  {
    hide VersionBytes, ReadVersion;
    ReadVersionBack(v, []);
    assert VersionBytes(v).value + [] == VersionBytes(v).value;
  }

  /** The fields every package target has. */
  lemma PackageAt(tag: Byte, id: Bytes, version: Option<int>, major: Option<int>)
    requires PackageFields(tag, id, version, major).Ok?
    requires CalltableBytes(PackageFields(tag, id, version, major).value).Ok?
    ensures VersionBytes(version).Ok?
    ensures var b := CalltableBytes(PackageFields(tag, id, version, major).value).value;
            && FieldAt(b, 0) == Ok([tag]) && FieldAt(b, 1) == Ok(id) && FieldAt(b, 2) == Ok(VersionBytes(version).value)
            && MajorAt(b) == Ok(NormNumber(major))
  {
    hide CalltableBytes, FieldAt, VersionBytes, ToBytesU32, NumberIn;
    var vs := PackageFields(tag, id, version, major).value;
    FieldOfWritten(vs, 0);
    FieldOfWritten(vs, 1);
    FieldOfWritten(vs, 2);
    FieldOfWritten(vs, 3);
    if Truthy(major) {
      NumberInField(major.value);
    }
  }

  /** A written invocation target reads back as the one that counts, with its name as written. */
  lemma ReadInvocationBack(t: InvocationTarget)
    requires InvocationBytes(t).Ok? && InvocationOk(t)
    ensures ReadInvocation(InvocationBytes(t).value) == Ok(NormInvocation(t))
  {
    hide CalltableBytes, FieldAt, PackageFields, StringBytes, TextIn, VersionIn, VersionBytes, MajorAt, TextOk,
         NormText;
    var vs := InvocationFields(t).value;
    if t.byHash.Some? || (t.byName.Some? && t.byName.value != []) {
      FieldOfWritten(vs, 0);
      FieldOfWritten(vs, 1);
      if t.byHash.None? {
        TextInField(t.byName.value);
      }
    } else if t.byPackageHash.Some? {
      var p := t.byPackageHash.value;
      PackageAt(2, p.id, p.version, p.protocolVersionMajor);
      VersionInField(p.version);
    } else {
      var p := t.byPackageName.value;
      PackageAt(3, StringBytes(p.id), p.version, p.protocolVersionMajor);
      VersionInField(p.version);
      TextInField(p.id);
    }
  }

  lemma ReadStoredBack(s: StoredTarget)
    requires StoredBytes(s).Ok? && InvocationOk(s.id)
    ensures FieldAt(StoredBytes(s).value, 0) == Ok([1])
    ensures ReadStored(StoredBytes(s).value) == Ok(StoredTarget(NormInvocation(s.id), s.runtime))
  {
    hide CalltableBytes, FieldAt, InvocationBytes, RuntimeBytes, ReadInvocation, ReadRuntime, NormInvocation,
         InvocationOk;
    var vs := [[1], InvocationBytes(s.id).value, RuntimeBytes(s.runtime).value];
    FieldOfWritten(vs, 0);
    FieldOfWritten(vs, 1);
    FieldOfWritten(vs, 2);
    ReadInvocationBack(s.id);
    ReadRuntimeBack(s.runtime);
  }

  lemma ReadSizedBack(x: Bytes, rest: Bytes)
    requires |x| < 0x1_0000_0000
    ensures ReadSized(LE(|x|, 4) + (x + rest)) == Ok((x, rest))
  {
    hide LE, ReadLE, ReadBytes;
    ReadSizeBack(|x|, x + rest);
    ReadBytesBack(x, rest);
  }

  lemma ReadSessionBack(s: SessionTarget)
    requires SessionBytes(s).Ok?
    ensures FieldAt(SessionBytes(s).value, 0) == Ok([2])
    ensures ReadSession(SessionBytes(s).value) == Ok(s)
  {
    hide CalltableBytes, FieldAt, RuntimeBytes, ReadRuntime, LE, NumberIn, ReadSized;
    var m := s.moduleBytes;
    var vs := [[2], [if s.isInstallUpgrade then 1 else 0], RuntimeBytes(s.runtime).value, LE(|m|, 4) + m];
    FieldOfWritten(vs, 0);
    FieldOfWritten(vs, 1);
    FieldOfWritten(vs, 2);
    FieldOfWritten(vs, 3);
    OneByte(if s.isInstallUpgrade then 1 else 0);
    ReadRuntimeBack(s.runtime);
    CalltableLimits(vs);
    assert |vs[3]| < 0x1_0000_0000;
    ReadSizedBack(m, []);
    assert m + [] == m;
  }

  /** A written target reads back as the one that counts. */
  lemma ReadTargetBack(t: Target)
    requires TargetBytes(t).Ok? && TargetOk(t)
    ensures ReadTarget(TargetBytes(t).value) == Ok(NormTarget(t))
  {
    hide CalltableBytes, FieldAt, StoredBytes, SessionBytes, ReadStored, ReadSession, NormInvocation, InvocationOk;
    if t.native {
      FieldOfWritten([[0]], 0);
    } else if t.stored.Some? {
      ReadStoredBack(t.stored.value);
    } else {
      ReadSessionBack(t.session.value);
    }
  }

  // ------------------------------------------------- which targets are written

  lemma RuntimeIsWritten(v: Runtime)
    ensures RuntimeBytes(v).Ok? && |RuntimeBytes(v).value| == 15
  {
    hide CalltableBytes, Concat;
    var vs: seq<Bytes> := [[if v.VmCasperV1? then 0 else 1]];
    CalltableLimits(vs);
    ConcatSizes(vs[0], [], [], []);
    TableLayout(vs, 0);
  }

  /** The numbers of a package target fit four bytes. */
  predicate PackageFits<Id>(p: PackageTarget<Id>) {
    && (p.version.Some? ==> 0 <= p.version.value < 0x1_0000_0000)
    && (p.protocolVersionMajor.Some? ==> 0 <= p.protocolVersionMajor.value < 0x1_0000_0000)
  }

  /** An invocation target is written exactly when one is set, its numbers are in range and its fields together fit. */
  lemma InvocationIsWritten(t: InvocationTarget)
    ensures InvocationFields(t).Ok? <==>
            || t.byHash.Some? || (t.byName.Some? && t.byName.value != [])
            || (if t.byPackageHash.Some? then PackageFits(t.byPackageHash.value)
                else t.byPackageName.Some? && PackageFits(t.byPackageName.value))
    ensures InvocationBytes(t).Ok? <==>
            InvocationFields(t).Ok? && |Concat(InvocationFields(t).value)| < 0x1_0000_0000
  {
    hide CalltableBytes, Concat, LE, StringBytes;
    if InvocationFields(t).Ok? {
      CalltableLimits(InvocationFields(t).value);
    }
  }

  /** A target is written exactly when one is set and its parts leave their fields the length. */
  lemma TargetIsWritten(t: Target)
    ensures TargetBytes(t).Ok? <==>
            || t.native
            || (if t.stored.Some? then
                  var id := InvocationBytes(t.stored.value.id);
                  id.Ok? && |id.value| + 16 < 0x1_0000_0000
                else t.session.Some? && |t.session.value.moduleBytes| + 21 < 0x1_0000_0000)
  {
    hide CalltableBytes, Concat, LE, InvocationBytes, RuntimeBytes;
    CalltableLimits([[0]]);
    ConcatSizes([0], [], [], []);
    if t.stored.Some? {
      var s := t.stored.value;
      RuntimeIsWritten(s.runtime);
      if InvocationBytes(s.id).Ok? {
        CalltableLimits([[1], InvocationBytes(s.id).value, RuntimeBytes(s.runtime).value]);
        ConcatSizes([1], InvocationBytes(s.id).value, RuntimeBytes(s.runtime).value, []);
      }
    } else if t.session.Some? {
      var s := t.session.value;
      RuntimeIsWritten(s.runtime);
      var flag: Bytes := [if s.isInstallUpgrade then 1 else 0];
      var m := LE(|s.moduleBytes|, 4) + s.moduleBytes;
      CalltableLimits([[2], flag, RuntimeBytes(s.runtime).value, m]);
      ConcatSizes([2], flag, RuntimeBytes(s.runtime).value, m);
    }
  }

  // ---------------------------------------------------------- determination

  /** Clearing the ignored fields and replacing lone surrogates does not change what is written. */
  lemma NormInvocationFields(t: InvocationTarget)
    ensures InvocationFields(NormInvocation(t)) == InvocationFields(t)
  {
    hide ToBytesU32, StringBytes, NormText;
    if t.byName.Some? {
      NormTextKeeps(t.byName.value);
      NormTextBytes(t.byName.value);
    }
    if t.byPackageName.Some? {
      NormTextBytes(t.byPackageName.value.id);
    }
  }

  lemma NormTargetBytes(t: Target)
    ensures TargetBytes(NormTarget(t)) == TargetBytes(t)
  {
    hide CalltableBytes, NormInvocation, InvocationFields, RuntimeBytes, SessionBytes;
    if !t.native && t.stored.Some? {
      NormInvocationFields(t.stored.value.id);
    }
  }

  /** Invocation targets write the same bytes exactly when they agree up to version 0 and protocol major 0. */
  lemma InvocationDetermined(t: InvocationTarget, u: InvocationTarget)
    requires InvocationOk(t) && InvocationOk(u) && InvocationBytes(t).Ok? && InvocationBytes(u).Ok?
    ensures InvocationBytes(t) == InvocationBytes(u) <==> NormInvocation(t) == NormInvocation(u)
  {
    hide CalltableBytes, InvocationFields, NormInvocation, InvocationOk, ReadInvocation;
    NormInvocationFields(t);
    NormInvocationFields(u);
    ReadInvocationBack(t);
    ReadInvocationBack(u);
  }

  /** Targets write the same bytes exactly when their normal forms agree. */
  lemma TargetDetermined(t: Target, u: Target)
    requires TargetOk(t) && TargetOk(u) && TargetBytes(t).Ok? && TargetBytes(u).Ok?
    ensures TargetBytes(t) == TargetBytes(u) <==> NormTarget(t) == NormTarget(u)
  {
    hide *;
    NormTargetBytes(t);
    NormTargetBytes(u);
    ReadTargetBack(t);
    ReadTargetBack(u);
  }

  // --------------------------------------------------------------- decoder

  /** The text of `CLValueOption.fromBytes(...).toString()` read as a number: None gives '' and throws. */
  function VersionFromField(b: Bytes): (r: Result<Option<int>>) {
    var (v, _) :- FromBytes(OptionOf(Simple(U32)), b);
    if v.VOption? && v.content.Some? && v.content.value.VFixed? then Ok(Some(v.content.value.n)) else Err(InvalidFormat)
  }

  function MajorFromField(field: Option<Bytes>): (r: Result<Option<int>>) {
    if field.None? then Ok(None)
    else
      var (n, _) :- FromBytesFixed(32, false, field.value);
      Ok(Some(n))
  }

  function HashFromField(b: Bytes): (r: Result<Hash>) {
    if |b| < 32 then Err(EarlyEnd) else Ok(b[..32])
  }

  function TextFromField(b: Bytes): (r: Result<JsString>) {
    var (s, _) :- StringFromBytes(b);
    Ok(s)
  }

  /** `TransactionInvocationTarget.fromBytes`. */
  function InvocationFromBytes(b: Bytes): (r: Result<InvocationTarget>) {
    var table :- ParseTable(b);
    var tagBytes := FindField(table.fields, 0);
    if tagBytes.None? || |tagBytes.value| != 1 then Err(InvalidFormat)
    else
      var tag := tagBytes.value[0];
      var id := FindField(table.fields, 1);
      if tag > 3 then Err(UnknownTag)
      else if id.None? then Err(MissingField)
      else if tag == 0 then
        var h :- HashFromField(id.value);
        Ok(InvocationTarget(Some(h), None, None, None))
      else if tag == 1 then
        var s :- TextFromField(id.value);
        Ok(InvocationTarget(None, Some(s), None, None))
      else PackageFromFields(tag, id.value, FindField(table.fields, 2), FindField(table.fields, 3))
  }

  function PackageFromFields(tag: Byte, id: Bytes, version: Option<Bytes>, major: Option<Bytes>)
    : (r: Result<InvocationTarget>)
  {
    if version.None? then Err(MissingField)
    else
      var m :- MajorFromField(major);
      if tag == 2 then
        var h :- HashFromField(id);
        var v :- VersionFromField(version.value);
        Ok(InvocationTarget(None, None, Some(PackageTarget(h, v, m)), None))
      else
        var s :- TextFromField(id);
        var v :- VersionFromField(version.value);
        Ok(InvocationTarget(None, None, None, Some(PackageTarget(s, v, m))))
  }

  // ------------------------------------------------------------ round trip

  /** ASCII, but for a last character that may be U+FFFD. */
  predicate AsciiButLast(s: JsString) {
    Ascii(s) || (s != [] && Ascii(s[..|s| - 1]) && s[|s| - 1] == REPLACEMENT)
  }

  lemma {:induction false} DecodeShrinks(b: Bytes)
    ensures |Decode(b)| <= |b|
  {
    hide Step;
    if b != [] {
      StepShrinks(b);
      DecodeShrinks(b[Step(b).1..]);
    }
  }

  lemma StepShrinks(b: Bytes)
    requires b != []
    ensures |Step(b).0| <= Step(b).1
    ensures Step(b).1 >= 2 ==> |Step(b).0| < Step(b).1
  {
  }

  /** The first two bytes of a non-ASCII character are always consumed together. */
  lemma NonAsciiStep(s: JsString, b: Bytes)
    requires s != [] && s[0] >= 0x80
    requires |b| >= 2 && |EncodeHead(s)| >= 2 && b[0] == EncodeHead(s)[0] && b[1] == EncodeHead(s)[1]
    ensures Step(b).1 >= 2
  {
    if StartsWithPair(s) {
      GroupsOfPoint(PairPoint(s[0], s[1]));
    }
  }

  lemma AsciiButLastOfTail(s: JsString)
    requires s != [] && s[0] < 0x80
    ensures AsciiButLast(s) <==> AsciiButLast(s[1..])
  {
    hide Ascii;
    AsciiOfTail(s);
    if |s| > 1 {
      var t := s[1..];
      AsciiOfTail(s[..|s| - 1]);
      assert s[..|s| - 1][1..] == t[..|t| - 1];
      assert t[|t| - 1] == s[|s| - 1];
    }
  }

  /** Reading as many UTF-8 bytes as the text has UTF-16 units gives the text back exactly for these texts. */
  lemma {:induction false} TruncatedDecode(s: JsString)
    ensures |Encode(s)| >= |s|
    ensures Decode(Encode(s)[..|s|]) == s <==> AsciiButLast(s)
  {
    hide Step, EncodeHead, AsciiButLast;
    EncodeLength(s);
    if s == [] {
      EmptyIsAscii();
    } else if s[0] < 0x80 {
      AsciiHeadDecodes(s);
      AsciiButLastOfTail(s);
      TruncatedDecode(s[1..]);
    } else {
      NonAsciiHeadFails(s);
    }
  }

  lemma EmptyIsAscii()
    ensures AsciiButLast([])
  {
  }

  lemma AsciiHeadDecodes(s: JsString)
    requires s != [] && s[0] < 0x80 && |Encode(s)| >= |s|
    ensures |Encode(s[1..])| >= |s| - 1
    ensures Decode(Encode(s)[..|s|]) == [s[0]] + Decode(Encode(s[1..])[..|s| - 1])
    ensures Decode(Encode(s)[..|s|]) == s <==> Decode(Encode(s[1..])[..|s| - 1]) == s[1..]
  {
    hide Step, EncodeHead, Head;
    EncodeLength(s[1..]);
    HeadLength(s);
    var tail := Encode(s[1..]);
    var b := Encode(s)[..|s|];
    assert Encode(s) == [s[0]] + tail;
    assert b == [s[0]] + tail[..|s| - 1];
    StepOfAscii(b);
    assert b[1..] == tail[..|s| - 1];
    var d := Decode(tail[..|s| - 1]);
    assert s == [s[0]] + s[1..];
    CancelHead(s[0], d, s[1..]);
  }

  lemma StepOfAscii(b: Bytes)
    requires b != [] && b[0] < 0x80
    ensures Step(b) == ([b[0]], 1)
  {
  }

  lemma CancelHead(c: CodeUnit, a: JsString, b: JsString)
    ensures [c] + a == [c] + b <==> a == b
  {
    assert ([c] + a)[1..] == a && ([c] + b)[1..] == b;
  }

  lemma NonAsciiHeadFails(s: JsString)
    requires s != [] && s[0] >= 0x80 && |Encode(s)| >= |s|
    ensures Decode(Encode(s)[..|s|]) == s <==> AsciiButLast(s)
  {
    hide Step, EncodeHead, Head, StartsWithPair;
    HeadLength(s);
    var b := Encode(s)[..|s|];
    var h := EncodeHead(s);
    assert |h| >= 2 && b[0] == h[0];
    if |s| == 1 {
      LoneLeadByte(b, s);
    } else {
      assert b[1] == h[1];
      NonAsciiStep(s, b);
      StepShrinks(b);
      DecodeShrinks(b[Step(b).1..]);
      assert |Decode(b)| < |b|;
      assert !Ascii(s) && !Ascii(s[..|s| - 1]) by {
        assert s[..|s| - 1][0] == s[0];
      }
    }
  }

  lemma LoneLeadByte(b: Bytes, s: JsString)
    requires |s| == 1 && s[0] >= 0x80 && |b| == 1 && b[0] == EncodeHead(s)[0]
    ensures Decode(b) == s <==> AsciiButLast(s)
  {
    assert Step(b) == ([REPLACEMENT], 1);
    assert b[1..] == [];
    assert Decode(b) == [REPLACEMENT] + Decode([]);
    assert Decode(b) == [REPLACEMENT];
    assert s == [s[0]];
    assert s[..0] == [] && Ascii(s[..0]);
  }

  lemma TextFieldRoundTrip(s: JsString)
    requires |s| < 0x1_0000_0000
    ensures TextFromField(StringBytes(s)) == Ok(s) <==> AsciiButLast(s)
    ensures TextFromField(StringBytes(s)).Ok?
  {
    hide LE, Encode, Decode, AsciiButLast, FromBytesFixed;
    U32RoundTrip(|s|, Encode(s));
    TruncatedDecode(s);
  }

  lemma VersionFieldRoundTrip(version: Option<int>)
    requires VersionBytes(version).Ok?
    ensures VersionFromField(VersionBytes(version).value) == if Truthy(version) then Ok(version) else Err(InvalidFormat)
  {
    hide FromBytesFixed;
    var b := VersionBytes(version).value;
    if Truthy(version) {
      var n := ToBytesU32(version.value).value;
      U32RoundTrip(version.value, []);
      assert n + [] == n;
      assert b[1..] == n;
      assert FromBytes(Simple(U32), n) == Ok((VFixed(U32, version.value), []));
    } else {
      var none: Bytes := [0];
      assert none[1..] == [];
      assert FromBytes(OptionOf(Simple(U32)), none) == Ok((VOption(None, Simple(U32)), []));
    }
  }

  lemma MajorFieldRoundTrip(major: Option<int>)
    requires Truthy(major) && ToBytesU32(major.value).Ok?
    ensures MajorFromField(Some(ToBytesU32(major.value).value)) == Ok(major)
  {
    hide FromBytesFixed;
    U32RoundTrip(major.value, []);
    var b := ToBytesU32(major.value).value;
    assert b + [] == b;
  }

  /** What a decoder must find in the target that counts: a package version, and names it can read. */
  predicate InvocationTravels(t: InvocationTarget) {
    var n := UsedInvocation(t);
    && (n.byName.Some? ==> AsciiButLast(n.byName.value))
    && (n.byPackageHash.Some? ==> n.byPackageHash.value.version.Some?)
    && (n.byPackageName.Some? ==> n.byPackageName.value.version.Some? && AsciiButLast(n.byPackageName.value.id))
  }

  lemma PackageRoundTrip(tag: Byte, id: Bytes, version: Option<int>, major: Option<int>)
    requires tag == 2 || tag == 3
    requires PackageFields(tag, id, version, major).Ok?
    ensures var vs := PackageFields(tag, id, version, major).value;
            && |vs| >= 3 && vs[0] == [tag] && vs[1] == id
            && var r := PackageFromFields(tag, id, Some(vs[2]), if |vs| > 3 then Some(vs[3]) else None);
            && (tag == 2 && HashFromField(id).Ok? ==>
                  r == if Truthy(version)
                       then Ok(InvocationTarget(None, None,
                               Some(PackageTarget(HashFromField(id).value, NormNumber(version), NormNumber(major))),
                               None))
                       else Err(InvalidFormat))
            && (tag == 3 && TextFromField(id).Ok? ==>
                  r == if Truthy(version)
                       then Ok(InvocationTarget(None, None, None,
                               Some(PackageTarget(TextFromField(id).value, NormNumber(version), NormNumber(major)))))
                       else Err(InvalidFormat))
  {
    hide ToBytesU32, VersionBytes, VersionFromField, MajorFromField, TextFromField;
    VersionFieldRoundTrip(version);
    assert MajorFromField(None) == Ok(None) by {
      NoMajor();
    }
    if Truthy(major) {
      MajorFieldRoundTrip(major);
    }
  }

  lemma NoMajor()
    ensures MajorFromField(None) == Ok(None)
  {
  }

  /** Invocation bytes decode to their target exactly when a package that counts has a version and a name reads back. */
  lemma InvocationRoundTrip(t: InvocationTarget)
    requires InvocationBytes(t).Ok? && InvocationOk(t)
    ensures InvocationFromBytes(InvocationBytes(t).value) == Ok(UsedInvocation(t)) <==> InvocationTravels(t)
  {
    hide CalltableBytes, ParseTable, TableOf, FindField, PackageFields, StringBytes, TextFromField, PackageFromFields,
         AsciiButLast;
    var vs := InvocationFields(t).value;
    var b := InvocationBytes(t).value;
    CalltableRoundTrip(vs, []);
    assert b + [] == b;
    GetFieldOfTable(vs, 0);
    GetFieldOfTable(vs, 1);
    GetFieldOfTable(vs, 2);
    GetFieldOfTable(vs, 3);
    if t.byHash.Some? {
      assert t.byHash.value[..32] == t.byHash.value;
    } else if t.byName.Some? && t.byName.value != [] {
      TextFieldRoundTrip(t.byName.value);
    } else if t.byPackageHash.Some? {
      var p := t.byPackageHash.value;
      assert p.id[..32] == p.id;
      PackageLength(2, p.id, p.version, p.protocolVersionMajor);
      PackageRoundTrip(2, p.id, p.version, p.protocolVersionMajor);
    } else {
      var p := t.byPackageName.value;
      TextFieldRoundTrip(p.id);
      PackageLength(3, StringBytes(p.id), p.version, p.protocolVersionMajor);
      PackageRoundTrip(3, StringBytes(p.id), p.version, p.protocolVersionMajor);
    }
  }

  lemma PackageLength(tag: Byte, id: Bytes, version: Option<int>, major: Option<int>)
    requires PackageFields(tag, id, version, major).Ok?
    ensures 3 <= |PackageFields(tag, id, version, major).value| <= 4
  {
    hide ToBytesU32, VersionBytes;
  }
}
