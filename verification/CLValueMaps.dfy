/**
 The mutable CLValueMap (src/types/clvalue/Map.ts): an entry list and a string index kept in
 step by `append` and by decoding.
 */
module CLValueMaps {
  import opened Basics
  import opened ByteConverters
  import opened CLTypes
  import opened CLValues
  import opened CodecLaw
  import opened KeyTexts

  /** The first entry filed under a key text, by scanning the list. */
  function LinearSearch(es: seq<Entry>, key: JsString): (v: Option<CLValue>) {
    if es == [] then None
    else if ToString(es[0].key) == key then Some(es[0].val)
    else LinearSearch(es[1..], key)
  }

  /** The index that filing the entries in order builds. */
  function IndexOf(es: seq<Entry>): (m: map<JsString, CLValue>) {
    if es == [] then map[]
    else
      var last := es[|es| - 1];
      IndexOf(es[..|es| - 1])[ToString(last.key) := last.val]
  }

  lemma {:induction false} SearchAppend(es: seq<Entry>, e: Entry, key: JsString)
    ensures LinearSearch(es + [e], key) ==
            if LinearSearch(es, key).Some? then LinearSearch(es, key)
            else if ToString(e.key) == key then Some(e.val) else None
  {
    if es == [] {
      assert ([] + [e])[1..] == [];
    } else {
      assert (es + [e])[1..] == es[1..] + [e];
      SearchAppend(es[1..], e, key);
    }
  }

  lemma {:induction false} SearchFinds(es: seq<Entry>, key: JsString)
    ensures LinearSearch(es, key).Some? <==> HasKey(es, key)
  {
    if es != [] {
      SearchFinds(es[1..], key);
      if HasKey(es, key) && ToString(es[0].key) != key {
        var i :| 0 <= i < |es| && ToString(es[i].key) == key;
        assert es[1..][i - 1] == es[i];
      }
      if HasKey(es[1..], key) {
        var i :| 0 <= i < |es[1..]| && ToString(es[1..][i].key) == key;
        assert es[i + 1] == es[1..][i];
      }
    }
  }

  /** Without repeated key texts the index has one slot per entry and answers like a scan of the list. */
  lemma {:induction false} IndexAnswersLikeSearch(es: seq<Entry>, key: JsString)
    requires DistinctKeys(es)
    ensures |IndexOf(es)| == |es|
    ensures key in IndexOf(es) <==> LinearSearch(es, key).Some?
    ensures key in IndexOf(es) ==> IndexOf(es)[key] == LinearSearch(es, key).value
  {
    if es != [] {
      var n := |es| - 1;
      var init, last := es[..n], es[n];
      var text := ToString(last.key);
      IndexAnswersLikeSearch(init, key);
      IndexAnswersLikeSearch(init, text);
      SearchAppend(init, last, key);
      SearchFinds(init, text);
      assert init + [last] == es;
      assert text !in IndexOf(init);
    }
  }

  lemma IndexOfAppend(es: seq<Entry>, e: Entry)
    ensures IndexOf(es + [e]) == IndexOf(es)[ToString(e.key) := e.val]
  {
    hide ToString;
    assert (es + [e])[..|es|] == es;
  }

  lemma AppendKeepsDistinct(es: seq<Entry>, e: Entry)
    requires DistinctKeys(es)
    ensures DistinctKeys(AppendEntry(es, e))
  {
  }

  // -------------------------------------------------- keys instead of texts

  /** The first entry with this very key. */
  function FirstWith(es: seq<Entry>, key: CLValue): (v: Option<CLValue>) {
    if es == [] then None else if es[0].key == key then Some(es[0].val) else FirstWith(es[1..], key)
  }

  /** Keys of one type, each with a text of its own. */
  predicate OwnTexts(es: seq<Entry>, t: CLType) {
    forall i :: 0 <= i < |es| ==> TypeOf(es[i].key) == t && HasOwnText(es[i].key)
  }

  /** Among such keys a search by text is a search by key. */
  lemma {:induction false} SearchIsByKey(es: seq<Entry>, key: CLValue)
    requires HasOwnText(key) && OwnTexts(es, TypeOf(key))
    ensures LinearSearch(es, ToString(key)) == FirstWith(es, key)
    ensures HasKey(es, ToString(key)) <==> exists i :: 0 <= i < |es| && es[i].key == key
  {
    hide ToString, TypeOf, HasOwnText;
    forall i | 0 <= i < |es| ensures ToString(es[i].key) == ToString(key) <==> es[i].key == key {
      TextsTellApart(es[i].key, key);
    }
    if es != [] {
      SearchIsByKey(es[1..], key);
    }
  }

  /** Strings are such keys, whatever they are. */
  lemma StringKeysAreTheirTexts(es: seq<Entry>)
    requires forall i :: 0 <= i < |es| ==> TypeOf(es[i].key) == Simple(String)
    ensures OwnTexts(es, Simple(String))
  {
  }

  // ------------------------------------------------ decoding keeps the first

  /** The pairs as they stand in the input, repeated keys included. */
  function RawEntries(t: CLType, n: nat, b: Bytes): (r: Parsed<seq<Entry>>)
    requires t.MapOf?
  {
    if n == 0 || b == [] then Ok(([], b))
    else
      var (k, r1) :- FromBytes(t.key, b);
      var (x, r2) :- FromBytes(t.val, r1);
      var (es, rest) :- RawEntries(t, n - 1, r2);
      Ok(([Entry(k, x)] + es, rest))
  }

  /** Filing a list of entries one after the other. */
  function AppendAll(acc: seq<Entry>, es: seq<Entry>): (r: seq<Entry>)
    decreases |es|
  {
    if es == [] then acc else AppendAll(AppendEntry(acc, es[0]), es[1..])
  }

  /** The decoding loop reads every pair and files them in order. */
  lemma {:induction false} DecodeFilesRawEntries(t: CLType, n: nat, b: Bytes, acc: seq<Entry>)
    requires t.MapOf?
    ensures var raw := RawEntries(t, n, b);
            DecodeEntries(t, n, b, acc) ==
            if raw.Ok? then Ok((AppendAll(acc, raw.value.0), raw.value.1)) else Err(raw.error)
  {
    hide FromBytes, AppendEntry;
    if n != 0 && b != [] {
      var k := FromBytes(t.key, b);
      if k.Ok? {
        var x := FromBytes(t.val, k.value.1);
        if x.Ok? {
          var e := Entry(k.value.0, x.value.0);
          DecodeFilesRawEntries(t, n - 1, x.value.1, AppendEntry(acc, e));
          var raw := RawEntries(t, n - 1, x.value.1);
          if raw.Ok? {
            assert ([e] + raw.value.0)[1..] == raw.value.0;
          }
        }
      }
    }
  }

  /** Of several entries with one key text the first is kept: searches do not notice the dropped ones. */
  lemma {:induction false} FilingKeepsTheFirst(acc: seq<Entry>, es: seq<Entry>, key: JsString)
    requires DistinctKeys(acc)
    ensures DistinctKeys(AppendAll(acc, es))
    ensures LinearSearch(AppendAll(acc, es), key) == LinearSearch(acc + es, key)
    decreases |es|
  {
    hide AppendEntry, LinearSearch, DistinctKeys;
    if es == [] {
      assert acc + es == acc;
    } else {
      var e := es[0];
      var next := AppendEntry(acc, e);
      AppendKeepsDistinct(acc, e);
      FilingKeepsTheFirst(next, es[1..], key);
      SearchSkipsDuplicate(acc, e, es[1..], key);
      assert acc + es == acc + [e] + es[1..];
    }
  }

  lemma {:induction false} SearchSkipsDuplicate(acc: seq<Entry>, e: Entry, tail: seq<Entry>, key: JsString)
    ensures LinearSearch(AppendEntry(acc, e) + tail, key) == LinearSearch(acc + [e] + tail, key)
  {
    SearchConcat(acc, tail, key);
    SearchConcat(acc + [e], tail, key);
    SearchAppend(acc, e, key);
    SearchFinds(acc, ToString(e.key));
  }

  lemma {:induction false} SearchConcat(a: seq<Entry>, b: seq<Entry>, key: JsString)
    ensures LinearSearch(a + b, key) ==
            if LinearSearch(a, key).Some? then LinearSearch(a, key) else LinearSearch(b, key)
  {
    if a == [] {
      assert a + b == b;
    } else {
      assert (a + b)[1..] == a[1..] + b;
      SearchConcat(a[1..], b, key);
    }
  }

  /** A decoded map has distinct key texts, and looks up each of them as the first pair in the input that has it. */
  lemma DecodedMapKeepsTheFirst(t: CLType, b: Bytes, key: JsString)
    requires t.MapOf? && MapSpec(t, b).Ok?
    ensures var es := MapSpec(t, b).value.0.entries;
            var u32 := FromBytesFixed(32, false, b).value;
            && DistinctKeys(es)
            && RawEntries(t, u32.0, u32.1).Ok?
            && LinearSearch(es, key) == LinearSearch(RawEntries(t, u32.0, u32.1).value.0, key)
  {
    var u32 := FromBytesFixed(32, false, b).value;
    DecodeFilesRawEntries(t, u32.0, u32.1, []);
    var raw := RawEntries(t, u32.0, u32.1).value.0;
    FilingKeepsTheFirst([], raw, key);
    assert [] + raw == raw;
  }

  /** The pairs in the input have the types of the map. */
  lemma {:induction false} RawEntriesTyped(t: CLType, n: nat, b: Bytes)
    requires t.MapOf? && RawEntries(t, n, b).Ok?
    ensures var es := RawEntries(t, n, b).value.0;
            forall i :: 0 <= i < |es| ==> TypeOf(es[i].key) == t.key && TypeOf(es[i].val) == t.val
  {
    hide FromBytes, TypeOf;
    if n != 0 && b != [] {
      var r1 := FromBytes(t.key, b).value.1;
      DecodedType(t.key, b);
      DecodedType(t.val, r1);
      RawEntriesTyped(t, n - 1, FromBytes(t.val, r1).value.1);
    }
  }

  lemma {:induction false} FilingKeepsTexts(acc: seq<Entry>, es: seq<Entry>, t: CLType)
    requires OwnTexts(acc, t) && OwnTexts(es, t)
    ensures OwnTexts(AppendAll(acc, es), t)
    decreases |es|
  {
    hide HasOwnText, TypeOf, ToString;
    if es != [] {
      FilingKeepsTexts(AppendEntry(acc, es[0]), es[1..], t);
    }
  }

  /**
   On the keys themselves: when those in the input have texts of their own, as strings always do, a
   decoded map has for each key the value of the first pair in the input with that key.
   */
  lemma DecodedMapKeepsTheFirstKey(t: CLType, b: Bytes, key: CLValue)
    requires t.MapOf? && MapSpec(t, b).Ok?
    requires TypeOf(key) == t.key && HasOwnText(key)
    ensures var es := MapSpec(t, b).value.0.entries;
            var u32 := FromBytesFixed(32, false, b).value;
            && RawEntries(t, u32.0, u32.1).Ok?
            && var raw := RawEntries(t, u32.0, u32.1).value.0;
               (t.key == Simple(String) || OwnTexts(raw, t.key)) ==> FirstWith(es, key) == FirstWith(raw, key)
  {
    hide HasOwnText, TypeOf, ToString, LinearSearch, DistinctKeys, FromBytes;
    var u32 := FromBytesFixed(32, false, b).value;
    DecodedMapKeepsTheFirst(t, b, ToString(key));
    DecodeFilesRawEntries(t, u32.0, u32.1, []);
    var raw := RawEntries(t, u32.0, u32.1).value.0;
    RawEntriesTyped(t, u32.0, u32.1);
    if t.key == Simple(String) {
      StringKeysAreTheirTexts(raw);
    }
    if OwnTexts(raw, t.key) {
      FilingKeepsTexts([], raw, t.key);
      SearchIsByKey(raw, key);
      SearchIsByKey(AppendAll([], raw), key);
    }
  }

  // --------------------------------------------------------------- the class

  lemma StringKey(s: JsString)
    ensures HasOwnText(VString(s)) && ToString(VString(s)) == s && TypeOf(VString(s)) == Simple(String)
  {
  }

  lemma FirstOfEachString(t: CLType, b: Bytes)
    requires t.MapOf? && MapSpec(t, b).Ok? && t.key == Simple(String)
    ensures var u32 := FromBytesFixed(32, false, b);
            && u32.Ok? && RawEntries(t, u32.value.0, u32.value.1).Ok?
            && forall s: JsString :: FirstWith(MapSpec(t, b).value.0.entries, VString(s))
                                     == FirstWith(RawEntries(t, u32.value.0, u32.value.1).value.0, VString(s))
  {
    hide FromBytes, TypeOf, HasOwnText, ToString, FirstWith;
    StringKey([]);
    DecodedMapKeepsTheFirstKey(t, b, VString([]));
    var u32 := FromBytesFixed(32, false, b).value;
    forall s: JsString
      ensures FirstWith(MapSpec(t, b).value.0.entries, VString(s))
              == FirstWith(RawEntries(t, u32.0, u32.1).value.0, VString(s))
    {
      StringKey(s);
      DecodedMapKeepsTheFirstKey(t, b, VString(s));
    }
  }

  datatype AppendError = InvalidKeyType | InvalidValueType | KeyExists

  class CLValueMap {
    const keyType: CLType
    const valType: CLType
    var data: seq<Entry>
    var indexedData: map<JsString, CLValue>

    /** The entries have the map's types, no key text is repeated and the index is exactly the list's. */
    ghost predicate Valid()
      reads this
    {
      && DistinctKeys(data) && indexedData == IndexOf(data)
      && forall i :: 0 <= i < |data| ==> TypeOf(data[i].key) == keyType && TypeOf(data[i].val) == valType
    }

    /** The map's keys have texts of their own: strings always, other simple keys and byte arrays by their sizes. */
    predicate PlainKeys()
      reads this
    {
      keyType == Simple(String) || OwnTexts(data, keyType)
    }

    constructor (keyType: CLType, valType: CLType)
      ensures Valid() && data == []
      ensures this.keyType == keyType && this.valType == valType
    {
      this.keyType := keyType;
      this.valType := valType;
      data := [];
      indexedData := map[];
    }

    /**
     Types are compared by identity: `sameKeyType` and `sameValType` say whether the entry's type
     objects are the map's own. A type of the same structure but built anew is refused.
     */
    method Append(key: CLValue, val: CLValue, sameKeyType: bool, sameValType: bool) returns (e: Option<AppendError>)
      requires Valid()
      requires (sameKeyType ==> TypeOf(key) == keyType) && (sameValType ==> TypeOf(val) == valType)
      modifies this
      ensures Valid()
      ensures e == if !sameKeyType then Some(InvalidKeyType)
                   else if !sameValType then Some(InvalidValueType)
                   else if HasKey(old(data), ToString(key)) then Some(KeyExists)
                   else None
      ensures data == if e.None? then old(data) + [Entry(key, val)] else old(data)
      ensures sameKeyType && sameValType && HasOwnText(key) && old(PlainKeys()) ==>
                (e.None? <==> forall i :: 0 <= i < |old(data)| ==> old(data)[i].key != key)
    {
      hide ToString, TypeOf, LinearSearch, HasKey, DistinctKeys, IndexOf, HasOwnText, OwnTexts;
      if sameKeyType && HasOwnText(key) && PlainKeys() {
        if keyType == Simple(String) {
          StringKeysAreTheirTexts(data);
        }
        SearchIsByKey(data, key);
      }
      if !sameKeyType {
        return Some(InvalidKeyType);
      }
      if !sameValType {
        return Some(InvalidValueType);
      }
      var keyString := ToString(key);
      IndexAnswersLikeSearch(data, keyString);
      SearchFinds(data, keyString);
      if keyString in indexedData {
        return Some(KeyExists);
      }
      AppendKeepsDistinct(data, Entry(key, val));
      IndexOfAppend(data, Entry(key, val));
      data := data + [Entry(key, val)];
      indexedData := indexedData[keyString := val];
      return None;
    }

    method Get(key: JsString) returns (v: Option<CLValue>)
      requires Valid()
      ensures v == LinearSearch(data, key)
      ensures keyType == Simple(String) ==> v == FirstWith(data, VString(key))
      ensures forall k :: TypeOf(k) == keyType && HasOwnText(k) && PlainKeys() && key == ToString(k) ==>
                v == FirstWith(data, k)
    {
      hide HasOwnText, TypeOf, IndexOf, OwnTexts;
      IndexAnswersLikeSearch(data, key);
      if keyType == Simple(String) {
        StringKeysAreTheirTexts(data);
        StringKey(key);
        SearchIsByKey(data, VString(key));
      }
      forall k | TypeOf(k) == keyType && HasOwnText(k) && PlainKeys() && key == ToString(k)
        ensures LinearSearch(data, key) == FirstWith(data, k)
      {
        SearchIsByKey(data, k);
      }
      v := if key in indexedData then Some(indexedData[key]) else None;
    }

    /** The first of the given keys that is present decides. */
    method FindAny(keys: seq<JsString>) returns (v: Option<CLValue>, found: bool)
      requires Valid()
      ensures found <==> exists i :: 0 <= i < |keys| && HasKey(data, keys[i])
      ensures found == v.Some?
      ensures found ==> exists i :: 0 <= i < |keys| && LinearSearch(data, keys[i]) == v
                                    && forall j :: 0 <= j < i ==> !HasKey(data, keys[j])
    {
      hide FirstWith, HasOwnText, ToString, TypeOf, HasKey, LinearSearch;
      for n := 0 to |keys|
        invariant forall j :: 0 <= j < n ==> !HasKey(data, keys[j])
      {
        v := Get(keys[n]);
        SearchFinds(data, keys[n]);
        if v.Some? {
          return v, true;
        }
      }
      return None, false;
    }

    method Length() returns (n: nat)
      requires Valid()
      ensures n == |data|
    {
      IndexAnswersLikeSearch(data, []);
      n := |indexedData|;
    }

    /** `bytes()` writes the entry list; read back by type it gives the same entries whenever they travel. */
    method ToBytes() returns (r: Result<Bytes>)
      requires Valid()
      ensures r == ValueBytes(VMap(keyType, valType, data))
      ensures r.Ok? && Travels(VMap(keyType, valType, data), false) ==>
                FromBytes(MapOf(keyType, valType), r.value) == Ok((VMap(keyType, valType, data), []))
    {
      var v := VMap(keyType, valType, data);
      r := MapBytes(v);
      if r.Ok? && Travels(v, false) {
        RoundTrip(v, [], false);
        assert r.value + [] == r.value;
      }
    }

    /** `CLValueMap.fromBytes`: the loop appends every decoded pair and ignores a refused one. */
    static method FromBytesLoop(bytes: Bytes, t: CLType) returns (r: Result<(CLValueMap, Bytes)>)
      requires t.MapOf?
      ensures r.Ok? <==> MapSpec(t, bytes).Ok?
      ensures r.Err? ==> MapSpec(t, bytes) == Err(r.error)
      ensures r.Ok? ==>
                && fresh(r.value.0) && r.value.0.Valid()
                && MapSpec(t, bytes) == Ok((VMap(t.key, t.val, r.value.0.data), r.value.1))
                && r.value.0.keyType == t.key && r.value.0.valType == t.val
      ensures r.Ok? && t.key == Simple(String) ==>
                var u32 := FromBytesFixed(32, false, bytes);
                && u32.Ok? && RawEntries(t, u32.value.0, u32.value.1).Ok?
                && forall s: JsString :: FirstWith(r.value.0.data, VString(s))
                                         == FirstWith(RawEntries(t, u32.value.0, u32.value.1).value.0, VString(s))
    {
      hide FromBytes, ToString, TypeOf, IndexOf, DistinctKeys, HasKey, FirstWith, HasOwnText, OwnTexts;
      if MapSpec(t, bytes).Ok? && t.key == Simple(String) {
        FirstOfEachString(t, bytes);
      }
      var u32 := FromBytesFixed(32, false, bytes);
      if u32.Err? {
        return Err(u32.error);
      }
      var result := new CLValueMap(t.key, t.val);
      var size: nat, remainder := u32.value.0, u32.value.1;
      if size == 0 {
        return Ok((result, remainder));
      }
      var i: nat := 0;
      while i < size
        invariant 0 <= i <= size
        invariant fresh(result) && result.Valid() && result.keyType == t.key && result.valType == t.val
        invariant DecodeEntries(t, size, u32.value.1, []) == DecodeEntries(t, size - i, remainder, result.data)
      {
        if |remainder| > 0 {
          var k := FromBytes(t.key, remainder);
          if k.Err? {
            return Err(k.error);
          }
          var x := FromBytes(t.val, k.value.1);
          if x.Err? {
            return Err(x.error);
          }
          DecodedType(t.key, remainder);
          DecodedType(t.val, k.value.1);
          remainder := x.value.1;
          // The decoder gives a value the very type object it was handed.
          var _ := result.Append(k.value.0, x.value.0, true, true);
        }
        i := i + 1;
      }
      r := Ok((result, remainder));
    }
  }
}
