/**
 Era rewards: grouping the V1 list by validator (src/types/EraEnd.ts, `fromV1`) and the JSON form
 of the grouped map (src/types/SerializationUtils.ts).
 */
module EraRewards {
  import opened Basics
  import opened Numerals
  import opened CLValues
  import opened CodecLaw
  import opened KeyTexts
  import opened OrderedMaps

  datatype EraReward = EraReward(validator: PublicKey, amount: nat)
  datatype ValidatorWeight = ValidatorWeight(validator: PublicKey, weight: nat)
  datatype EraReport = EraReport(
    equivocators: seq<PublicKey>, inactiveValidators: seq<PublicKey>, rewards: seq<EraReward>)
  datatype EraEndV1 = EraEndV1(eraReport: EraReport, nextEraValidatorWeights: seq<ValidatorWeight>)

  /** Amounts per validator, keyed by the hex form of the public key. */
  type RewardMap = OrderedMap<JsString, seq<nat>>

  datatype EraEnd = EraEnd(
    nextEraGasPrice: nat, equivocators: seq<PublicKey>, inactiveValidators: seq<PublicKey>,
    nextEraValidatorWeights: seq<ValidatorWeight>, rewards: RewardMap)

  /** Different keys have different hex forms. */
  lemma KeyHexInjective(p: PublicKey, q: PublicKey)
    requires PublicKeyOk(p) && PublicKeyOk(q) && KeyHex(p) == KeyHex(q)
    ensures p == q
  {
    hide KeyHex, PublicKeyOfHex;
    PublicKeyTextRoundTrip(p);
    PublicKeyTextRoundTrip(q);
  }

  // ---------------------------------------------------------------- grouping

  /** The amounts already listed for a key. */
  function AmountsAt(m: RewardMap, k: JsString): (amounts: seq<nat>) {
    if Get(m, k).None? then [] else Get(m, k).value
  }

  function AddReward(m: RewardMap, r: EraReward): (n: RewardMap) {
    Put(m, KeyHex(r.validator), AmountsAt(m, KeyHex(r.validator)) + [r.amount])
  }

  function Grouped(rewards: seq<EraReward>): (m: RewardMap) {
    if rewards == [] then [] else AddReward(Grouped(rewards[..|rewards| - 1]), rewards[|rewards| - 1])
  }

  /** `EraEnd.fromV1`. */
  method FromV1(eraEnd: Option<EraEndV1>) returns (r: Option<EraEnd>)
    ensures eraEnd.None? ==> r == None
    ensures eraEnd.Some? ==>
              var report := eraEnd.value.eraReport;
              r == Some(EraEnd(1, report.equivocators, report.inactiveValidators,
                               eraEnd.value.nextEraValidatorWeights, Grouped(report.rewards)))
  {
    hide KeyHex, Put, Get;
    if eraEnd.None? {
      return None;
    }
    var rewards := eraEnd.value.eraReport.rewards;
    var rewardsMap: RewardMap := [];
    for i := 0 to |rewards|
      invariant rewardsMap == Grouped(rewards[..i])
    {
      ghost var before := rewardsMap;
      var validatorHex := KeyHex(rewards[i].validator);
      if Get(rewardsMap, validatorHex).None? {
        rewardsMap := Put(rewardsMap, validatorHex, []);
        PutThenGet(before, validatorHex, [], validatorHex);
        PutTwice(before, validatorHex, [], [rewards[i].amount]);
        assert [] + [rewards[i].amount] == [rewards[i].amount];
      }
      rewardsMap := Put(rewardsMap, validatorHex, AmountsAt(rewardsMap, validatorHex) + [rewards[i].amount]);
      assert rewards[..i + 1][..i] == rewards[..i];
    }
    assert rewards[..|rewards|] == rewards;
    r := Some(EraEnd(1, eraEnd.value.eraReport.equivocators, eraEnd.value.eraReport.inactiveValidators,
                     eraEnd.value.nextEraValidatorWeights, rewardsMap));
  }

  /** Setting a key twice is setting it the second time. */
  lemma {:induction false} PutTwice<K, V>(m: OrderedMap<K, V>, k: K, v: V, w: V)
    ensures Put(Put(m, k, v), k, w) == Put(m, k, w)
  {
    if m != [] && m[0].0 != k {
      PutTwice(m[1..], k, v, w);
      assert Put(m, k, v)[1..] == Put(m[1..], k, v);
    }
  }

  // -------------------------------------------------------------- no loss

  /** The amounts of one validator, in the order they were listed. */
  function AmountsOf(rewards: seq<EraReward>, k: JsString): (amounts: seq<nat>) {
    if rewards == [] then []
    else
      var last := rewards[|rewards| - 1];
      AmountsOf(rewards[..|rewards| - 1], k) + if KeyHex(last.validator) == k then [last.amount] else []
  }

  predicate Occurs(rewards: seq<EraReward>, k: JsString) {
    exists i :: 0 <= i < |rewards| && KeyHex(rewards[i].validator) == k
  }

  /** A validator's list is exactly the subsequence of its rewards, and there is one only for validators rewarded. */
  lemma {:induction false} EachListIsTheSubsequence(rewards: seq<EraReward>, k: JsString)
    ensures Get(Grouped(rewards), k) == if Occurs(rewards, k) then Some(AmountsOf(rewards, k)) else None
    ensures !Occurs(rewards, k) ==> AmountsOf(rewards, k) == []
  {
    hide KeyHex, Put, Get;
    if rewards == [] {
      EmptyGet<JsString, seq<nat>>(k);
    } else {
      var n := |rewards| - 1;
      var init, last := rewards[..n], rewards[n];
      var key := KeyHex(last.validator);
      EachListIsTheSubsequence(init, k);
      assert AmountsOf(init, k) + [] == AmountsOf(init, k);
      PutThenGet(Grouped(init), key, AmountsAt(Grouped(init), key) + [last.amount], k);
      OccursStep(rewards, k);
    }
  }

  lemma EmptyGet<K, V>(k: K)
    ensures Get<K, V>([], k) == None
  {
  }

  lemma OccursStep(rewards: seq<EraReward>, k: JsString)
    requires rewards != []
    ensures var n := |rewards| - 1;
            Occurs(rewards, k) <==> Occurs(rewards[..n], k) || KeyHex(rewards[n].validator) == k
  {
    hide KeyHex;
    var n := |rewards| - 1;
    if Occurs(rewards[..n], k) {
      var i :| 0 <= i < n && KeyHex(rewards[..n][i].validator) == k;
      assert rewards[i] == rewards[..n][i];
    }
    if Occurs(rewards, k) {
      var i :| 0 <= i < |rewards| && KeyHex(rewards[i].validator) == k;
      assert i < n ==> rewards[..n][i] == rewards[i];
    }
  }

  function Sum(amounts: seq<nat>): (n: nat) {
    if amounts == [] then 0 else Sum(amounts[..|amounts| - 1]) + amounts[|amounts| - 1]
  }

  function TotalOf(rewards: seq<EraReward>): (n: nat) {
    if rewards == [] then 0 else TotalOf(rewards[..|rewards| - 1]) + rewards[|rewards| - 1].amount
  }

  function MapTotal(m: RewardMap): (n: nat) {
    if m == [] then 0 else Sum(m[0].1) + MapTotal(m[1..])
  }

  function MapCount(m: RewardMap): (n: nat) {
    if m == [] then 0 else |m[0].1| + MapCount(m[1..])
  }

  lemma {:induction false} PutMovesTotals(m: RewardMap, k: JsString, amounts: seq<nat>)
    ensures MapTotal(Put(m, k, amounts)) == MapTotal(m) - Sum(AmountsAt(m, k)) + Sum(amounts)
    ensures MapCount(Put(m, k, amounts)) == MapCount(m) - |AmountsAt(m, k)| + |amounts|
  {
    if m == [] {
      assert [(k, amounts)][1..] == [];
    } else if m[0].0 == k {
      assert ([(k, amounts)] + m[1..])[1..] == m[1..];
    } else {
      PutMovesTotals(m[1..], k, amounts);
      assert Put(m, k, amounts)[1..] == Put(m[1..], k, amounts);
    }
  }

  /** Neither amount nor number of rewards changes, and no validator has two lists. */
  lemma {:induction false} GroupingConserves(rewards: seq<EraReward>)
    ensures MapTotal(Grouped(rewards)) == TotalOf(rewards)
    ensures MapCount(Grouped(rewards)) == |rewards|
    ensures UniqueKeys(Grouped(rewards))
  {
    hide KeyHex, Put, UniqueKeys;
    if rewards == [] {
      NoKeysAreUnique();
    } else {
      var n := |rewards| - 1;
      var m, last := Grouped(rewards[..n]), rewards[n];
      var key := KeyHex(last.validator);
      var before := AmountsAt(m, key);
      GroupingConserves(rewards[..n]);
      PutMovesTotals(m, key, before + [last.amount]);
      assert (before + [last.amount])[..|before|] == before;
      PutKeepsUnique(m, key, before + [last.amount]);
    }
  }

  lemma NoKeysAreUnique()
    ensures UniqueKeys<JsString, seq<nat>>([])
  {
  }

  // ------------------------------------------------------------- JSON form

  type JsonRewards = seq<(JsString, seq<JsString>)>

  function AmountTexts(amounts: seq<nat>): (texts: seq<JsString>)
    ensures |texts| == |amounts| && forall i :: 0 <= i < |amounts| ==> texts[i] == Decimal(amounts[i])
  {
    seq(|amounts|, i requires 0 <= i < |amounts| => Decimal(amounts[i]))
  }

  /** `serializeRewards`: keys with their amounts in decimal. */
  function SerializeRewards(m: RewardMap): (json: JsonRewards)
    ensures |json| == |m|
    ensures forall i :: 0 <= i < |m| ==> json[i] == (m[i].0, AmountTexts(m[i].1))
  {
    seq(|m|, i requires 0 <= i < |m| => (m[i].0, AmountTexts(m[i].1)))
  }

  /** `CLValueUInt512.fromJSON` of a decimal text; negative numbers are refused. */
  function ParseAmount(s: JsString): (r: Result<nat>) {
    var digits := if s != [] && s[0] == 45 then s[1..] else s;
    if digits == [] || !AllDigits(digits) then Err(InvalidFormat)
    else if |digits| < |s| && DecimalValue(digits) > 0 then Err(InvalidFormat)
    else Ok(DecimalValue(digits))
  }

  function ParseAmounts(texts: seq<JsString>): (r: Result<seq<nat>>) {
    if texts == [] then Ok([])
    else
      var n :- ParseAmount(texts[0]);
      var tail :- ParseAmounts(texts[1..]);
      Ok([n] + tail)
  }

  /** The parsed pairs, in order. */
  function ParseEntries(json: JsonRewards): (r: Result<RewardMap>)
    ensures r.Ok? ==> |r.value| == |json|
  {
    if json == [] then Ok([])
    else
      var amounts :- ParseAmounts(json[0].1);
      var tail :- ParseEntries(json[1..]);
      Ok([(json[0].0, amounts)] + tail)
  }

  /** `new Map(entries)`. */
  function MapOfEntries(entries: RewardMap): (m: RewardMap) {
    if entries == [] then []
    else
      var last := entries[|entries| - 1];
      Put(MapOfEntries(entries[..|entries| - 1]), last.0, last.1)
  }

  /** `deserializeRewards`. */
  function DeserializeRewards(json: JsonRewards): (r: Result<RewardMap>) {
    var entries :- ParseEntries(json);
    var m := MapOfEntries(entries);
    if |m| != |json| then Err(DuplicateKey) else Ok(m)
  }

  /** A map built from entries is those entries when their keys are distinct, and smaller when they are not. */
  lemma {:induction false} MapSizeTellsDuplicates(entries: RewardMap)
    ensures UniqueKeys(MapOfEntries(entries))
    ensures |MapOfEntries(entries)| <= |entries|
    ensures |MapOfEntries(entries)| == |entries| <==> UniqueKeys(entries)
    ensures UniqueKeys(entries) ==> MapOfEntries(entries) == entries
  {
    hide UniqueKeys, OrderedMaps.HasKey, Put;
    NoKeysAreUnique();
    if entries != [] {
      var n := |entries| - 1;
      var init, last := entries[..n], entries[n];
      var m := MapOfEntries(init);
      MapSizeTellsDuplicates(init);
      PutKeepsUnique(m, last.0, last.1);
      assert entries == init + [last];
      UniqueSoFar(entries);
      if OrderedMaps.HasKey(m, last.0) {
        PutKeepsPlaces(m, last.0, last.1);
      } else {
        PutIsAppend(m, last.0, last.1);
      }
    }
  }

  lemma UniqueSoFar(entries: RewardMap)
    requires entries != []
    ensures UniqueKeys(entries) <==>
            UniqueKeys(entries[..|entries| - 1])
            && !OrderedMaps.HasKey(entries[..|entries| - 1], entries[|entries| - 1].0)
  {
    var n := |entries| - 1;
    var init := entries[..n];
    assert forall i :: 0 <= i < n ==> init[i] == entries[i];
    if UniqueKeys(entries) {
      assert UniqueKeys(init);
    }
    if UniqueKeys(init) && !OrderedMaps.HasKey(init, entries[n].0) {
      forall i, j | 0 <= i < j < |entries| ensures entries[i].0 != entries[j].0 {
        assert init[i].0 == entries[i].0;
      }
    }
  }

  /** Deserializing fails exactly when two entries share a key; otherwise it is the entries in order. */
  lemma DeserializeFailsExactlyOnDuplicates(json: JsonRewards)
    requires ParseEntries(json).Ok?
    ensures DeserializeRewards(json) ==
            if UniqueKeys(ParseEntries(json).value) then ParseEntries(json) else Err(DuplicateKey)
  {
    hide UniqueKeys, MapOfEntries;
    MapSizeTellsDuplicates(ParseEntries(json).value);
  }

  lemma ParseOfDecimal(n: nat)
    ensures ParseAmount(Decimal(n)) == Ok(n)
  {
    assert IsDigit(Decimal(n)[0]);
  }

  lemma {:induction false} ParseOfTexts(amounts: seq<nat>)
    ensures ParseAmounts(AmountTexts(amounts)) == Ok(amounts)
  {
    if amounts != [] {
      ParseOfDecimal(amounts[0]);
      assert AmountTexts(amounts)[1..] == AmountTexts(amounts[1..]);
      ParseOfTexts(amounts[1..]);
      assert amounts == [amounts[0]] + amounts[1..];
    }
  }

  lemma {:induction false} ParseOfSerialized(m: RewardMap)
    ensures ParseEntries(SerializeRewards(m)) == Ok(m)
  {
    hide ParseAmounts, AmountTexts;
    if m != [] {
      ParseOfTexts(m[0].1);
      assert SerializeRewards(m)[1..] == SerializeRewards(m[1..]);
      ParseOfSerialized(m[1..]);
      assert m == [m[0]] + m[1..];
    }
  }

  /** Every reward map survives its JSON form, order included. */
  lemma RewardsRoundTrip(m: RewardMap)
    requires UniqueKeys(m)
    ensures DeserializeRewards(SerializeRewards(m)) == Ok(m)
  {
    hide UniqueKeys;
    ParseOfSerialized(m);
    DeserializeFailsExactlyOnDuplicates(SerializeRewards(m));
  }
}
