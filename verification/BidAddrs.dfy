/** Bid addresses (src/types/key/BidAddr.ts), over all ten tags. */
module BidAddrs {
  import opened Basics
  import opened HexTexts
  import opened Numerals
  import opened TransactionParts

  type Tag = t: Byte | t < 10

  datatype BidAddr = BidAddr(
    tag: Tag, unified: Option<Hash>, validator: Option<Hash>, delegatorAccount: Option<Hash>,
    delegatorPurse: Option<JsString>, eraId: Option<int>)

  const CREDIT: Tag := 4

  /** One hash: unified, validator and validator-rev. */
  predicate OneHash(t: Tag) {
    t == 0 || t == 1 || t == 9
  }

  /** A validator and a delegator account: delegated, reserved and unbond. */
  predicate Pair(t: Tag) {
    t == 2 || t == 5 || t == 7
  }

  /** A validator and a delegator purse: delegated, reserved and unbond. */
  predicate Purse(t: Tag) {
    t == 3 || t == 6 || t == 8
  }

  // --------------------------------------------------------------- encoders

  /** `toBytes`; an era id of 0 counts as missing, as does an empty purse. */
  function ToBytes(a: BidAddr): (r: Result<Bytes>) {
    if a.tag == 0 then
      if a.unified.None? then Err(MissingField) else Ok([a.tag] + a.unified.value)
    else if a.validator.None? then Err(MissingField)
    else if OneHash(a.tag) then Ok([a.tag] + a.validator.value)
    else if Pair(a.tag) then
      if a.delegatorAccount.None? then Err(MissingField)
      else Ok([a.tag] + a.validator.value + a.delegatorAccount.value)
    else if Purse(a.tag) then
      if a.delegatorPurse.None? || a.delegatorPurse.value == [] then Err(MissingField)
      else
        var purse :- HexBytesFromHex(a.delegatorPurse.value);
        Ok([a.tag] + a.validator.value + purse)
    else if a.eraId.None? || a.eraId.value == 0 then Err(MissingField)
    else if !(0 <= a.eraId.value < 0x1_0000_0000_0000_0000) then Err(OutOfBounds)
    else Ok([a.tag] + a.validator.value + LE(a.eraId.value, 8))
  }

  /** `toHex`; the purse goes in as it is, the era id must fit 32 bits. */
  function ToHex(a: BidAddr): (r: Result<JsString>) {
    if a.tag == 0 then
      if a.unified.None? then Err(MissingField) else Ok(Hex([a.tag]) + Hex(a.unified.value))
    else if a.validator.None? then Err(MissingField)
    else if OneHash(a.tag) then Ok(Hex([a.tag]) + Hex(a.validator.value))
    else if Pair(a.tag) then
      if a.delegatorAccount.None? then Err(MissingField)
      else Ok(Hex([a.tag]) + Hex(a.validator.value) + Hex(a.delegatorAccount.value))
    else if Purse(a.tag) then
      if a.delegatorPurse.None? || a.delegatorPurse.value == [] then Err(MissingField)
      else Ok(Hex([a.tag]) + Hex(a.validator.value) + a.delegatorPurse.value)
    else if a.eraId.None? then Err(MissingField)
    else if !(0 <= a.eraId.value < 0x1_0000_0000) then Err(OutOfBounds)
    else Ok(Hex([a.tag]) + Hex(a.validator.value) + Hex(LE(a.eraId.value, 4) + Zeros(4)))
  }

  // --------------------------------------------------------------- decoders

  function Address(tag: Tag): (a: BidAddr) {
    BidAddr(tag, None, None, None, None, None)
  }

  /** `fromBytes`: a purse takes all that is left, and neither it nor an era id is dropped from the remainder. */
  function FromBytes(b: Bytes): (r: Result<(BidAddr, Bytes)>) {
    if |b| < 33 then Err(InvalidFormat)
    else if b[0] >= 10 then Err(UnknownTag)
    else
      var tag: Tag := b[0];
      var first, rest := b[1..33], b[33..];
      if tag == 0 then Ok((Address(tag).(unified := Some(first)), rest))
      else if OneHash(tag) then Ok((Address(tag).(validator := Some(first)), rest))
      else if Pair(tag) then
        if |rest| < 32 then Err(EarlyEnd)
        else Ok((Address(tag).(validator := Some(first), delegatorAccount := Some(rest[..32])), rest[32..]))
      else if Purse(tag) then
        Ok((Address(tag).(validator := Some(first), delegatorPurse := Some(Hex(rest))), rest))
      else if rest == [] then Err(InvalidFormat)
      else
        var era := FromLE(Slice(rest, 0, 8));
        if era > MAX_SAFE then Err(OutOfBounds)
        else Ok((Address(tag).(validator := Some(first), eraId := Some(era)), rest))
  }

  /** `fromHex`: exact lengths; of an era id only the low four bytes are read. */
  function FromHexText(s: JsString): (r: Result<BidAddr>) {
    var b := FromHex(s);
    if b == [] then Err(InvalidFormat)
    else if b[0] >= 10 then Err(UnknownTag)
    else
      var tag: Tag := b[0];
      if |b| != (if OneHash(tag) then 33 else if tag == CREDIT then 41 else 65) then Err(InvalidFormat)
      else
        var first := b[1..33];
        if tag == 0 then Ok(Address(tag).(unified := Some(first)))
        else if OneHash(tag) then Ok(Address(tag).(validator := Some(first)))
        else if Pair(tag) then Ok(Address(tag).(validator := Some(first), delegatorAccount := Some(b[33..])))
        else if Purse(tag) then Ok(Address(tag).(validator := Some(first), delegatorPurse := Some(Hex(b[33..]))))
        else Ok(Address(tag).(validator := Some(first), eraId := Some(FromLE(b[33..37]))))
  }

  // ------------------------------------------------------------- properties

  /** Only the fields the tag uses are set. */
  predicate Plain(a: BidAddr) {
    && (a.unified.Some? <==> a.tag == 0)
    && (a.validator.Some? <==> a.tag != 0)
    && (a.delegatorAccount.Some? <==> Pair(a.tag))
    && (a.delegatorPurse.Some? <==> Purse(a.tag))
    && (a.eraId.Some? <==> a.tag == CREDIT)
  }

  predicate PurseIsLower(a: BidAddr) {
    Purse(a.tag) && a.delegatorPurse.Some? ==> LowerHex(a.delegatorPurse.value)
  }

  lemma {:induction false} LEOfLowHalf(n: nat, k: nat, j: nat)
    requires n < Pow256(k)
    ensures LE(n, k + j) == LE(n, k) + Zeros(j)
  {
    if k > 0 {
      LEOfLowHalf(n / 256, k - 1, j);
    } else if j > 0 {
      LEOfLowHalf(0, 0, j - 1);
      assert Zeros(j) == [0] + Zeros(j - 1);
    }
  }

  lemma EraBytes(era: nat)
    requires era < 0x1_0000_0000
    ensures LE(era, 8) == LE(era, 4) + Zeros(4)
  {
    SmallPowers();
    LEOfLowHalf(era, 4, 4);
  }

  lemma HexThree(a: Bytes, b: Bytes, c: Bytes)
    ensures Hex(a + b + c) == Hex(a) + Hex(b) + Hex(c)
  {
    HexConcat(a + b, c);
    HexConcat(a, b);
  }

  /** Where both write, `toHex` is the hexadecimal of `toBytes`, for a purse only if it is lower-case hexadecimal. */
  lemma HexIsHexOfBytes(a: BidAddr)
    requires ToHex(a).Ok? && ToBytes(a).Ok?
    ensures ToHex(a).value == Hex(ToBytes(a).value) <==> PurseIsLower(a)
  {
    hide Hex, HexBytesOf, LowerHex, LE, OneHash, Pair, Purse;
    Kinds(a.tag);
    if a.tag == 0 {
      HexConcat([a.tag], a.unified.value);
    } else if OneHash(a.tag) {
      HexConcat([a.tag], a.validator.value);
    } else if Pair(a.tag) {
      HexThree([a.tag], a.validator.value, a.delegatorAccount.value);
    } else if Purse(a.tag) {
      var purse := a.delegatorPurse.value;
      HexThree([a.tag], a.validator.value, HexBytesOf(purse));
      PairsRoundTrip(purse);
      var head := Hex([a.tag]) + Hex(a.validator.value);
      CancelText(head, purse, Hex(HexBytesOf(purse)));
    } else {
      EraBytes(a.eraId.value);
      HexThree([a.tag], a.validator.value, LE(a.eraId.value, 8));
    }
  }

  lemma Kinds(t: Tag)
    ensures !(OneHash(t) && Pair(t)) && !(OneHash(t) && Purse(t)) && !(Pair(t) && Purse(t))
    ensures OneHash(t) || Pair(t) || Purse(t) <==> t != CREDIT
    ensures OneHash(0) && !Pair(0) && !Purse(0)
  {
  }

  lemma CancelText(head: JsString, x: JsString, y: JsString)
    ensures head + x == head + y <==> x == y
  {
    assert (head + x)[|head|..] == x && (head + y)[|head|..] == y;
  }

  /** Credits are where the two disagree on what they accept: bytes refuse era 0, hexadecimal eras from 2^32. */
  lemma WhatIsWritten(a: BidAddr)
    requires Plain(a)
    ensures ToBytes(a).Ok? <==> (Purse(a.tag) ==> HexBytesOf(a.delegatorPurse.value) != [])
                                && (a.tag == CREDIT ==> 1 <= a.eraId.value < 0x1_0000_0000_0000_0000)
    ensures ToHex(a).Ok? <==> (Purse(a.tag) ==> a.delegatorPurse.value != [])
                              && (a.tag == CREDIT ==> 0 <= a.eraId.value < 0x1_0000_0000)
  {
    hide HexBytesOf, Hex, LE;
    EmptyHasNoBytes();
  }

  /** The ten layouts by their tags, in numerals. */
  lemma LayoutByTag(a: BidAddr)
    requires Plain(a) && ToBytes(a).Ok?
    ensures ToBytes(a).value == match a.tag
                                case 0 => [0] + a.unified.value
                                case 1 => [1] + a.validator.value
                                case 2 => [2] + a.validator.value + a.delegatorAccount.value
                                case 3 => [3] + a.validator.value + HexBytesOf(a.delegatorPurse.value)
                                case 4 => [4] + a.validator.value + LE(a.eraId.value, 8)
                                case 5 => [5] + a.validator.value + a.delegatorAccount.value
                                case 6 => [6] + a.validator.value + HexBytesOf(a.delegatorPurse.value)
                                case 7 => [7] + a.validator.value + a.delegatorAccount.value
                                case 8 => [8] + a.validator.value + HexBytesOf(a.delegatorPurse.value)
                                case 9 => [9] + a.validator.value
  {
    hide HexBytesOf, LE;
  }

  lemma EmptyHasNoBytes()
    ensures HexBytesOf([]) == []
  {
  }

  /** The bytes in front: tag, then the first hash. */
  lemma CutHead(tag: Tag, h: Hash, rest: Bytes)
    ensures var b := [tag] + h + rest;
            |b| == 33 + |rest| && b[0] == tag && b[1..33] == h && b[33..] == rest
  {
  }

  /** An address of one or two hashes comes back from its bytes with the rest untouched. */
  lemma HashesRoundTrip(a: BidAddr, rest: Bytes)
    requires Plain(a) && (OneHash(a.tag) || Pair(a.tag))
    ensures ToBytes(a).Ok? && FromBytes(ToBytes(a).value + rest) == Ok((a, rest))
  {
    if a.tag == 0 {
      CutHead(a.tag, a.unified.value, rest);
    } else if OneHash(a.tag) {
      CutHead(a.tag, a.validator.value, rest);
    } else {
      var account := a.delegatorAccount.value;
      CutHead(a.tag, a.validator.value, account + rest);
      assert [a.tag] + a.validator.value + account + rest == [a.tag] + a.validator.value + (account + rest);
      assert (account + rest)[..32] == account && (account + rest)[32..] == rest;
    }
  }

  /** Bytes give the address back exactly when a purse is lower-case hexadecimal and an era id is at most 2^53 - 1. */
  lemma BytesRoundTrip(a: BidAddr)
    requires Plain(a) && ToBytes(a).Ok?
    ensures var b := ToBytes(a).value;
            && ((FromBytes(b).Ok? && FromBytes(b).value.0 == a) <==>
                PurseIsLower(a) && (a.tag == CREDIT ==> a.eraId.value <= 0x1F_FFFF_FFFF_FFFF))
            && (FromBytes(b).Ok? ==> FromBytes(b).value.1 == if OneHash(a.tag) || Pair(a.tag) then [] else b[33..])
  {
    hide Hex, HexBytesOf, LowerHex, LE, FromLE;
    var b := ToBytes(a).value;
    if OneHash(a.tag) || Pair(a.tag) {
      HashesRoundTrip(a, []);
      assert b + [] == b;
    } else if Purse(a.tag) {
      PairsRoundTrip(a.delegatorPurse.value);
      CutHead(a.tag, a.validator.value, HexBytesOf(a.delegatorPurse.value));
    } else {
      var era := a.eraId.value;
      SmallPowers();
      FromLEOfLE(era, 8);
      CutHead(a.tag, a.validator.value, LE(era, 8));
      assert LE(era, 8)[0..8] == LE(era, 8);
    }
  }

  /** Every decoded address is plain. */
  lemma DecodedIsPlain(s: JsString, b: Bytes)
    ensures FromHexText(s).Ok? ==> Plain(FromHexText(s).value)
    ensures FromBytes(b).Ok? ==> Plain(FromBytes(b).value.0)
  {
    hide Hex, FromHex, FromLE;
  }

  lemma HexReadsBack(a: BidAddr)
    requires Plain(a) && ToHex(a).Ok?
    requires Purse(a.tag) ==> LowerHex(a.delegatorPurse.value) && |a.delegatorPurse.value| == 64
    ensures FromHexText(ToHex(a).value) == Ok(a)
  {
    hide Hex, FromHex, HexBytesOf, LowerHex, LE, FromLE;
    var s := ToHex(a).value;
    if OneHash(a.tag) {
      var h := if a.tag == 0 then a.unified.value else a.validator.value;
      CutHead(a.tag, h, []);
      assert [a.tag] + h + [] == [a.tag] + h;
      HexConcat([a.tag], h);
      FromHexOfHex([a.tag] + h);
    } else if Pair(a.tag) {
      CutHead(a.tag, a.validator.value, a.delegatorAccount.value);
      HexThree([a.tag], a.validator.value, a.delegatorAccount.value);
      FromHexOfHex([a.tag] + a.validator.value + a.delegatorAccount.value);
    } else if Purse(a.tag) {
      var purse := HexBytesOf(a.delegatorPurse.value);
      PairsRoundTrip(a.delegatorPurse.value);
      CutHead(a.tag, a.validator.value, purse);
      HexThree([a.tag], a.validator.value, purse);
      FromHexOfHex([a.tag] + a.validator.value + purse);
    } else {
      var era := LE(a.eraId.value, 4);
      SmallPowers();
      FromLEOfLE(a.eraId.value, 4);
      CutHead(a.tag, a.validator.value, era + Zeros(4));
      HexThree([a.tag], a.validator.value, era + Zeros(4));
      FromHexOfHex([a.tag] + a.validator.value + (era + Zeros(4)));
      var b := [a.tag] + a.validator.value + (era + Zeros(4));
      assert b[33..37] == era by {
        assert b[33..][..4] == era;
      }
    }
  }

  /** Hexadecimal text gives the address back exactly when a purse is 64 lower-case hexadecimal digits. */
  lemma HexRoundTrip(a: BidAddr)
    requires Plain(a) && ToHex(a).Ok?
    ensures FromHexText(ToHex(a).value) == Ok(a) <==>
            (Purse(a.tag) ==> LowerHex(a.delegatorPurse.value) && |a.delegatorPurse.value| == 64)
  {
    hide Hex, FromHex, LowerHex, LE, FromLE;
    if Purse(a.tag) ==> LowerHex(a.delegatorPurse.value) && |a.delegatorPurse.value| == 64 {
      HexReadsBack(a);
    } else if FromHexText(ToHex(a).value) == Ok(a) {
      HexIsLower(FromHex(ToHex(a).value)[33..]);
    }
  }

  /** `toJSON` puts a prefix in front that `fromJSON`, which is `fromHex`, never accepts. */
  lemma PrefixedTextIsRefused(a: BidAddr)
    requires ToHex(a).Ok?
    ensures FromHexText(Js("bid-addr-") + ToHex(a).value) == Err(InvalidFormat)
  {
    hide ToHex, Hex;
    var s := Js("bid-addr-") + ToHex(a).value;
    assert s[0] == 98 && s[1] == 105;
    assert FromHex(s) == [];
  }
}
