/**
 The texts of keys and back (src/types/key/Key.ts, `toPrefixedString` and `newKey`), and with them
 the texts of all simple values: what `CLValue.toString` writes for a value of a simple type can be
 read back, so different values have different texts.
 */
module KeyTexts {
  import opened Basics
  import opened Numerals
  import opened HexTexts
  import opened CLTypes
  import opened CLValues
  import opened CodecLaw
  import opened UniqueDecoding

  /** `keyIDbyPrefix`, in its order. */
  const PREFIXES: seq<(string, nat)> := [
    ("account-hash-", 0), ("hash-", 1), ("transfer-", 3), ("uref-", 2), ("deploy-", 4), ("era-", 5), ("bid-", 7),
    ("balance-", 6), ("withdraw-", 8), ("dictionary-", 9), ("system-contract-registry-", 10), ("era-summary-", 11),
    ("unbond-", 12), ("chainspec-registry-", 13), ("checksum-registry-", 14), ("bid-addr-", 15), ("package-", 16),
    ("entity-", 17), ("byte-code-", 18), ("message-", 19), ("named-key-", 20), ("block-", 21), ("balance-hold-", 22),
    ("entry-point-", 23), ("system-entity-registry-", 10), ("state-", 24), ("rewards-handling-", 25)]

  /** `source.startsWith(prefix)`. */
  predicate StartsWith(s: JsString, p: string) {
    Js(p) <= s
  }

  /** The three prefixes that begin with another one win over it. */
  function Resolved(s: JsString, tag: nat): (t: nat) {
    if tag == 5 && StartsWith(s, "era-summary-") then 11
    else if tag == 7 && StartsWith(s, "bid-addr-") then 15
    else if tag == 6 && StartsWith(s, "balance-hold-") then 22
    else tag
  }

  /** The last of the first n prefixes that the text starts with decides. */
  function LastMatch(s: JsString, n: nat): (tag: Option<nat>)
    requires n <= |PREFIXES|
  {
    if n == 0 then None
    else if StartsWith(s, PREFIXES[n - 1].0) then Some(Resolved(s, PREFIXES[n - 1].1))
    else LastMatch(s, n - 1)
  }

  /** `findPrefixByMap`: the `return` in its callback does not leave the loop. */
  method FindPrefixByMap(source: JsString) returns (result: Option<nat>)
    ensures result == LastMatch(source, |PREFIXES|)
  {
    hide StartsWith, Resolved;
    result := None;
    for i := 0 to |PREFIXES|
      invariant result == LastMatch(source, i)
    {
      if StartsWith(source, PREFIXES[i].0) {
        result := Some(Resolved(source, PREFIXES[i].1));
      }
    }
  }

  lemma {:induction false} MatchesAgree(s: JsString, n: nat, tag: nat)
    requires n <= |PREFIXES|
    requires forall i :: 0 <= i < |PREFIXES| && StartsWith(s, PREFIXES[i].0) ==> Resolved(s, PREFIXES[i].1) == tag
    ensures LastMatch(s, n) ==
            if exists i :: 0 <= i < n && StartsWith(s, PREFIXES[i].0) then Some(tag) else None
  {
    hide StartsWith, Resolved;
    if n > 0 {
      MatchesAgree(s, n - 1, tag);
    }
  }

  /** A hexadecimal digit is no letter past f. */
  lemma HexAfterPrefix(p: JsString, hash: Bytes, i: nat)
    requires i < 2 * |hash|
    ensures (p + Hex(hash))[|p| + i] < 103
  {
    hide Hex;
    HexIsLower(hash);
    assert (p + Hex(hash))[|p| + i] == Hex(hash)[i];
  }

  predicate SameFour(s: JsString, p: JsString) {
    |s| >= 4 && |p| >= 4 && s[0] == p[0] && s[1] == p[1] && s[2] == p[2] && s[3] == p[3]
  }

  /** What a listed prefix and a key's own have in common where the text starts with both. */
  lemma SameStart(tag: Byte, hash: Bytes, i: nat)
    requires IsHashTag(tag) && |hash| == 32 && i < |PREFIXES|
    requires StartsWith(KeyPrefix(tag) + Hex(hash), PREFIXES[i].0)
    ensures SameFour(KeyPrefix(tag), Js(PREFIXES[i].0))
  {
    var q := KeyPrefix(tag);
    var s := q + Hex(hash);
    assert s[0] == q[0] && s[1] == q[1] && s[2] == q[2] && s[3] == q[3];
  }

  /** Whichever listed prefix a key's text starts with, it stands for the key's own tag. */
  lemma PrefixTag(tag: Byte, hash: Bytes, i: nat)
    requires IsHashTag(tag) && |hash| == 32 && i < |PREFIXES|
    requires StartsWith(KeyPrefix(tag) + Hex(hash), PREFIXES[i].0)
    ensures Resolved(KeyPrefix(tag) + Hex(hash), PREFIXES[i].1) == tag
  {
    hide Hex;
    SameStart(tag, hash, i);
    HexAfterPrefix(KeyPrefix(tag), hash, 0);
    HexAfterPrefix(KeyPrefix(tag), hash, 3);
    SameTag(tag, i);
  }

  /** Four letters tell the prefixes apart, but for those that begin with another. */
  lemma SameTag(tag: Byte, i: nat)
    requires IsHashTag(tag) && i < |PREFIXES| && SameFour(KeyPrefix(tag), Js(PREFIXES[i].0))
    ensures PREFIXES[i].1 == tag || (tag == 11 && i == 5) || (tag == 7 && i == 15) || (tag == 6 && i == 22)
  {
    if tag <= 4 {
      SameTagTo4(tag, i);
    } else if tag <= 7 {
      SameTagTo7(tag, i);
    } else if tag <= 10 {
      SameTagTo10(tag, i);
    } else if tag <= 12 {
      SameTagTo12(tag, i);
    } else {
      SameTagTo16(tag, i);
    }
  }

  lemma SameTagTo4(tag: Byte, i: nat)
    requires IsHashTag(tag) && tag <= 4 && i < |PREFIXES| && SameFour(KeyPrefix(tag), Js(PREFIXES[i].0))
    ensures PREFIXES[i].1 == tag
  {
  }

  lemma SameTagTo7(tag: Byte, i: nat)
    requires IsHashTag(tag) && 4 < tag <= 7 && i < |PREFIXES| && SameFour(KeyPrefix(tag), Js(PREFIXES[i].0))
    ensures PREFIXES[i].1 == tag || (tag == 7 && i == 15) || (tag == 6 && i == 22)
  {
  }

  lemma SameTagTo10(tag: Byte, i: nat)
    requires IsHashTag(tag) && 7 < tag <= 10 && i < |PREFIXES| && SameFour(KeyPrefix(tag), Js(PREFIXES[i].0))
    ensures PREFIXES[i].1 == tag
  {
  }

  lemma SameTagTo12(tag: Byte, i: nat)
    requires IsHashTag(tag) && 10 < tag <= 12 && i < |PREFIXES| && SameFour(KeyPrefix(tag), Js(PREFIXES[i].0))
    ensures PREFIXES[i].1 == tag || (tag == 11 && i == 5)
  {
  }

  lemma SameTagTo16(tag: Byte, i: nat)
    requires IsHashTag(tag) && 12 < tag && i < |PREFIXES| && SameFour(KeyPrefix(tag), Js(PREFIXES[i].0))
    ensures PREFIXES[i].1 == tag
  {
  }

  /** Where a key's own prefix stands in the list. */
  lemma OwnPrefixIsListed(tag: Byte) returns (i: nat)
    requires IsHashTag(tag)
    ensures i < |PREFIXES| && Js(PREFIXES[i].0) == KeyPrefix(tag)
  {
    i := if tag == 3 then 2 else if tag == 6 then 7 else if tag == 7 then 6 else if tag == 10 then 24 else tag;
  }

  lemma StartsWithOwn(p: string, s: JsString)
    ensures StartsWith(Js(p) + s, p)
  {
  }

  // ----------------------------------------------------------- reading keys

  /** `source.replace(prefix, '')`: without the first occurrence. */
  function Without(s: JsString, p: JsString): (r: JsString) {
    if p <= s then s[|p|..] else if s == [] then s else [s[0]] + Without(s[1..], p)
  }

  /** `Hash.fromHex` checks the length of the text and not its digits. */
  function HashOfHex(s: JsString): (r: Result<Bytes>) {
    if |s| != 64 then Err(InvalidFormat) else Ok(FromHex(s))
  }

  /** `AccountHash.fromString`. */
  function AccountHashOf(s: JsString): (r: Result<Bytes>) {
    if |s| == 66 && StartsWith(s, "00") then HashOfHex(s[2..])
    else if StartsWith(s, "account-hash-") then HashOfHex(s[13..])
    else HashOfHex(s)
  }

  const DASH: CodeUnit := 45

  function DashAt(s: JsString): (d: nat)
    ensures d <= |s| && (d < |s| ==> s[d] == DASH)
    ensures forall i :: 0 <= i < d ==> s[i] != DASH
  {
    if s == [] || s[0] == DASH then 0 else 1 + DashAt(s[1..])
  }

  /** The octal digits at the front. */
  function OctalValue(s: JsString, above: nat): (n: nat) {
    if s == [] || !(ZERO <= s[0] < ZERO + 8) then above else OctalValue(s[1..], 8 * above + (s[0] - ZERO))
  }

  /** `URef.fromString`: what stands before and after the first dash behind the prefix. */
  function URefOfText(s: JsString): (r: Result<URef>) {
    if !StartsWith(s, "uref-") then Err(InvalidFormat)
    else
      var parts := s[5..];
      var d := DashAt(parts);
      if d == |parts| then Err(InvalidFormat)
      else
        var access := OctalValue(parts[d + 1..], 0);
        if d + 1 == |parts| || !(ZERO <= parts[d + 1] < ZERO + 8) || access > 255 then Err(InvalidFormat)
        else Ok(URef.URef(FromHex(parts[..d]), access))
  }

  /** `Key.createByType`. */
  function CreateByType(s: JsString, tag: nat): (r: Result<Key>) {
    if tag == 2 then
      var u :- URefOfText(s);
      Ok(URefKey(u))
    else if tag == 0 then
      var h :- AccountHashOf(s);
      Ok(HashKey(0, h))
    else if tag == 3 then Ok(HashKey(3, FromHex(Without(s, Js("transfer-")))))
    else if tag == 7 || tag == 8 || tag == 12 then
      var h :- AccountHashOf(Without(s, KeyPrefix(tag)));
      Ok(HashKey(tag, h))
    else if tag == 10 then
      var h :- HashOfHex(Without(Without(s, Js("system-entity-registry-")), Js("system-contract-registry-")));
      Ok(HashKey(10, h))
    else if IsHashTag(tag) then
      var h :- HashOfHex(Without(s, KeyPrefix(tag)));
      Ok(HashKey(tag, h))
    else Err(UnknownTag)
  }

  /** `Key.newKey`. */
  function NewKey(s: JsString): (r: Result<Key>) {
    if |s| == 64 then
      var h :- HashOfHex(s);
      Ok(HashKey(1, h))
    else if StartsWith(s, "Key::") then Err(InvalidFormat)
    else if StartsWith(s, "00") && |s| == 66 then CreateByType(s[2..], 0)
    else
      var tag := LastMatch(s, |PREFIXES|);
      if tag.None? then Err(InvalidFormat) else CreateByType(s, tag.value)
  }

  lemma {:induction false} WithoutAbsent(s: JsString, p: JsString)
    requires p != [] && forall i :: 0 <= i < |s| ==> s[i] != p[0]
    ensures Without(s, p) == s
  {
    if s != [] {
      WithoutAbsent(s[1..], p);
      assert s == [s[0]] + s[1..];
    }
  }

  lemma WithoutPrefix(p: JsString, s: JsString)
    ensures Without(p + s, p) == s
  {
    assert (p + s)[..|p|] == p && (p + s)[|p|..] == s;
  }

  /** The hexadecimal text of a hash, read as an account hash or as a hash. */
  lemma HashTextReads(hash: Bytes)
    requires |hash| == 32
    ensures HashOfHex(Hex(hash)) == Ok(hash) && AccountHashOf(Hex(hash)) == Ok(hash)
    ensures AccountHashOf(Js("account-hash-") + Hex(hash)) == Ok(hash)
    ensures Without(Hex(hash), Js("system-contract-registry-")) == Hex(hash)
  {
    hide Hex;
    FromHexOfHex(hash);
    HexIsLower(hash);
    assert Js("account-hash-")[3] == 111 && Hex(hash)[3] < 103;
    WithoutAbsent(Hex(hash), Js("system-contract-registry-"));
    var s := Js("account-hash-") + Hex(hash);
    assert s[13..] == Hex(hash);
  }

  /** Once the tag is known, the rest of the text is read by it. */
  lemma CreateByOwnTag(tag: Byte, hash: Bytes)
    requires IsHashTag(tag) && |hash| == 32
    ensures CreateByType(KeyPrefix(tag) + Hex(hash), tag) == Ok(HashKey(tag, hash))
  {
    hide Hex, Without, HashOfHex, AccountHashOf, StartsWith;
    HashTextReads(hash);
    WithoutPrefix(KeyPrefix(tag), Hex(hash));
    FromHexOfHex(hash);
  }

  lemma NotBare(tag: Byte, hash: Bytes)
    requires IsHashTag(tag) && |hash| == 32
    ensures var s := KeyPrefix(tag) + Hex(hash);
            |s| >= 68 && !StartsWith(s, "Key::")
  {
    hide Hex;
    var q := KeyPrefix(tag);
    assert (q + Hex(hash))[0] == q[0];
  }

  lemma HashKeyTextReads(tag: Byte, hash: Bytes)
    requires IsHashTag(tag) && |hash| == 32
    ensures NewKey(KeyPrefix(tag) + Hex(hash)) == Ok(HashKey(tag, hash))
  {
    hide Hex, KeyPrefix, StartsWith, Resolved, LastMatch, CreateByType, IsHashTag;
    var s := KeyPrefix(tag) + Hex(hash);
    NotBare(tag, hash);
    var i := OwnPrefixIsListed(tag);
    StartsWithOwn(PREFIXES[i].0, Hex(hash));
    forall j | 0 <= j < |PREFIXES| && StartsWith(s, PREFIXES[j].0) ensures Resolved(s, PREFIXES[j].1) == tag {
      PrefixTag(tag, hash, j);
    }
    MatchesAgree(s, |PREFIXES|, tag);
    CreateByOwnTag(tag, hash);
  }

  lemma FirstDash(a: JsString, b: JsString)
    requires forall i :: 0 <= i < |a| ==> a[i] != DASH
    ensures DashAt(a + [DASH] + b) == |a|
  {
    var s := a + [DASH] + b;
    assert forall i :: 0 <= i < |a| ==> s[i] == a[i];
    assert s[|a|] == DASH;
  }

  lemma URefTextReads(u: URef)
    requires URefOk(u)
    ensures URefOfText(Js("uref-") + URefText(u)) == Ok(u)
  {
    hide Hex, FromHex, DashAt, OctalValue, Js;
    HexIsLower(u.data);
    FromHexOfHex(u.data);
    URefTextParts(u);
    var tail: JsString := [ZERO, ZERO, ZERO + u.access];
    var parts := Hex(u.data) + [DASH] + tail;
    var s := Js("uref-") + parts;
    assert s[5..] == parts;
    FirstDash(Hex(u.data), tail);
    assert parts[..64] == Hex(u.data) && parts[65..] == tail && parts[65] == ZERO;
    OctalOfThree(u.access);
  }

  lemma URefTextParts(u: URef)
    requires URefOk(u)
    ensures URefText(u) == Hex(u.data) + [DASH] + [ZERO, ZERO, ZERO + u.access]
  {
    hide Hex;
    assert Decimal(u.access) == [ZERO + u.access];
    assert Js("-00") == [DASH, ZERO, ZERO];
  }

  lemma OctalOfThree(a: nat)
    requires a <= 7
    ensures OctalValue([ZERO, ZERO, ZERO + a], 0) == a
  {
    var last: JsString := [ZERO + a];
    var both: JsString := [ZERO, ZERO + a];
    var all: JsString := [ZERO, ZERO, ZERO + a];
    assert all[1..] == both && both[1..] == last && last[1..] == [];
    assert OctalValue(all, 0) == OctalValue(both, 0) == OctalValue(last, 0) == OctalValue([], a);
  }

  lemma URefKeyTextReads(u: URef)
    requires URefOk(u)
    ensures NewKey(Js("uref-") + URefText(u)) == Ok(URefKey(u))
  {
    hide URefText, URefOfText, Resolved, LastMatch;
    var s := Js("uref-") + URefText(u);
    assert |s| == 73 by { URefTextLength(u); }
    assert s[0] == 117 && s[1] == 114 && s[2] == 101 && s[3] == 102 && s[4] == 45;
    forall j | 0 <= j < |PREFIXES| && StartsWith(s, PREFIXES[j].0) ensures Resolved(s, PREFIXES[j].1) == 2 {
      var p := PREFIXES[j].0;
      assert s[0] == Js(p)[0] && s[1] == Js(p)[1];
      NoOverride(s);
    }
    assert StartsWith(s, PREFIXES[3].0);
    MatchesAgree(s, |PREFIXES|, 2);
    URefTextReads(u);
  }

  lemma NoOverride(s: JsString)
    ensures Resolved(s, 2) == 2
  {
  }

  lemma URefTextLength(u: URef)
    requires URefOk(u)
    ensures |URefText(u)| == 68
  {
    hide Hex;
    assert |Decimal(u.access)| == 1;
  }

  /** `newKey` gives back every key from its text. */
  lemma KeyTextRoundTrip(k: Key)
    requires KeyOk(k)
    ensures NewKey(ToString(VKey(k))) == Ok(k)
  {
    hide NewKey, KeyPrefix, Hex, URefText, IsHashTag, URefOk;
    match k
    case HashKey(tag, hash) => HashKeyTextReads(tag, hash);
    case URefKey(u) => URefKeyTextReads(u);
  }

  // ------------------------------------------------------- texts of values

  predicate AllHex(s: JsString) {
    forall i :: 0 <= i < |s| ==> HexValue(s[i]) >= 0
  }

  /** `PublicKey.fromHex`. */
  function PublicKeyOfHex(s: JsString): (r: Result<PublicKey>) {
    if AllHex(s) && ((|s| == 66 && StartsWith(s, "01")) || (|s| == 68 && StartsWith(s, "02"))) then
      var b := FromHex(s);
      if b == [] then Err(InvalidFormat) else Ok(PublicKey.PublicKey(b[0], b[1..]))
    else Err(InvalidFormat)
  }

  /** The text of a public key is the hexadecimal of its bytes. */
  lemma KeyHexIsHexOfBytes(pk: PublicKey)
    requires PublicKeyOk(pk)
    ensures KeyHex(pk) == Hex([pk.alg] + pk.key)
  {
    var b := [pk.alg] + pk.key;
    assert b[1..] == pk.key;
    assert Decimal(pk.alg) == [ZERO + pk.alg];
  }

  /** It is read back by `fromHex`. */
  lemma PublicKeyTextRoundTrip(pk: PublicKey)
    requires PublicKeyOk(pk)
    ensures PublicKeyOfHex(KeyHex(pk)) == Ok(pk)
  {
    hide Hex, FromHex;
    var b := [pk.alg] + pk.key;
    KeyHexIsHexOfBytes(pk);
    FromHexOfHex(b);
    HexIsLower(b);
    assert Decimal(pk.alg) == [ZERO + pk.alg];
    assert b[1..] == pk.key;
  }

  function IntOfText(s: JsString): (r: Result<int>) {
    var negative := s != [] && s[0] == DASH;
    var digits := if negative then s[1..] else s;
    if digits == [] || !AllDigits(digits) then Err(InvalidFormat)
    else
      var n: int := DecimalValue(digits);
      Ok(if negative then -n else n)
  }

  lemma IntTextReads(n: int)
    ensures IntOfText(DecimalInt(n)) == Ok(n)
  {
    hide Decimal, DecimalValue;
    var digits := Decimal(if n < 0 then -n else n);
    assert IsDigit(digits[0]);
    if n < 0 {
      assert DecimalInt(n)[1..] == digits;
    }
  }

  /** Simple types but Any, and byte arrays: their values have texts of their own. */
  predicate TellsApart(t: CLType) {
    t.ByteArrayOf? || (t.Simple? && t.kind != Any)
  }

  /** The value of a type that a text stands for. */
  function ValueOfText(t: CLType, s: JsString): (r: Result<CLValue>)
    requires TellsApart(t)
  {
    if t.ByteArrayOf? then Ok(VByteArray(t.size, FromHex(s)))
    else if IsFixed(t.kind) then
      var n :- IntOfText(s);
      Ok(VFixed(t.kind, n))
    else if IsBig(t.kind) then
      var n :- IntOfText(s);
      Ok(VBig(t.kind, n, false))
    else match t.kind
    case Bool =>
      if s == Js("true") then Ok(VBool(true)) else if s == Js("false") then Ok(VBool(false)) else Err(InvalidFormat)
    case Unit => if s == Js("null") then Ok(VUnit) else Err(InvalidFormat)
    case String => Ok(VString(s))
    case Key =>
      var k :- NewKey(s);
      Ok(VKey(k))
    case URef =>
      var u :- URefOfText(Js("uref-") + s);
      Ok(VURef(u))
    case PublicKey =>
      var pk :- PublicKeyOfHex(s);
      Ok(VPublicKey(pk))
  }

  /** Values of such a type with parts of the right sizes; strings and numbers are all right. */
  predicate HasOwnText(v: CLValue) {
    match v
    case VBool(_) => true
    case VFixed(_, _) => true
    case VBig(_, _, kept) => !kept
    case VUnit => true
    case VString(_) => true
    case VKey(k) => KeyOk(k)
    case VURef(u) => URefOk(u)
    case VPublicKey(pk) => PublicKeyOk(pk)
    case VByteArray(n, b) => |b| == n
    case _ => false
  }

  /** The text of a value gives the value back. */
  lemma TextTellsValue(v: CLValue)
    requires HasOwnText(v)
    ensures TellsApart(TypeOf(v)) && ValueOfText(TypeOf(v), ToString(v)) == Ok(v)
  {
    hide NewKey, URefOfText, PublicKeyOfHex, IntOfText, DecimalInt, KeyHex, Hex, FromHex, KeyPrefix, URefText, KeyOk,
         URefOk, PublicKeyOk;
    match v
    case VFixed(_, n) => IntTextReads(n);
    case VBig(_, n, _) => IntTextReads(n);
    case VKey(k) => KeyTextRoundTrip(k);
    case VURef(u) => URefTextReads(u);
    case VPublicKey(pk) => PublicKeyTextRoundTrip(pk);
    case VByteArray(_, b) => FromHexOfHex(b);
    case VBool(b) => assert |Js("true")| != |Js("false")|;
    case _ =>
  }

  /** Values of one type that have texts of their own are equal exactly when their texts are. */
  lemma TextsTellApart(v: CLValue, w: CLValue)
    requires HasOwnText(v) && HasOwnText(w) && TypeOf(v) == TypeOf(w)
    ensures ToString(v) == ToString(w) <==> v == w
  {
    hide *;
    TextTellsValue(v);
    TextTellsValue(w);
  }

  /** A simple value or byte array that travels before the end of the input has a text of its own. */
  lemma TravellersHaveTexts(v: CLValue)
    requires IsLeaf(v) && LeafTravels(v, false)
    ensures HasOwnText(v)
  {
  }

  /** A kept zero is the exception: it has the text of a plain zero. */
  lemma KeptZeroHasNoTextOfItsOwn(k: BigKind)
    ensures ToString(VBig(k, 0, true)) == ToString(VBig(k, 0, false)) && VBig(k, 0, true) != VBig(k, 0, false)
  {
  }

  /** Composite values can share a text: an empty option and an empty string. */
  lemma OptionTextsCollide(v: CLValue)
    ensures ToString(VOption(None, TypeOf(v))) == ToString(VOption(Some(v), TypeOf(v))) <==> ToString(v) == []
    ensures ToString(VString([])) == []
  {
  }

  /** Tuples that cut the same text apart in different places, for every such text. */
  lemma TupleTextsCollide(a: JsString, b: JsString, c: JsString)
    ensures ToString(VTuple2(VString(a + Js(", ") + b), VString(c)))
            == ToString(VTuple2(VString(a), VString(b + Js(", ") + c)))
  {
    var comma := Js(", ");
    assert Js("(") + (a + comma + b) + comma + c + Js(")") == Js("(") + a + comma + (b + comma + c) + Js(")");
  }

  /** Lists of one and of two strings, because quotes are not escaped. */
  lemma ListTextsCollide(a: JsString, b: JsString)
    ensures ToString(VList(Simple(String), [VString(a + Js("\",\"") + b)]))
            == ToString(VList(Simple(String), [VString(a), VString(b)]))
  {
    var q, gap := Js("\""), Js("\",\"");
    JoinOne(VString(b));
    JoinOne(VString(a + gap + b));
    var two := [VString(a), VString(b)];
    assert two[1..] == [VString(b)];
    assert JoinQuoted(two) == q + a + q + Js(",") + (q + b + q);
    CutsAlike(a, b, q, Js(","), gap);
  }

  lemma JoinOne(v: CLValue)
    ensures JoinQuoted([v]) == Js("\"") + ToString(v) + Js("\"")
  {
    hide ToString;
    assert JoinQuoted([v]) == Js("\"") + ToString(v) + Js("\"") + [] + JoinQuoted([v][1..]);
  }

  lemma CutsAlike(a: JsString, b: JsString, q: JsString, comma: JsString, gap: JsString)
    requires gap == q + comma + q
    ensures q + a + q + comma + (q + b + q) == q + (a + gap + b) + q
  {
  }
}
