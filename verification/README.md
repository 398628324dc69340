# The Casper SDK's wire format and transaction life cycle, in Dafny

This project models the byte formats of the Casper JavaScript SDK from the bottom up and proves
what its encoders and decoders promise each other, together with the two small state machines
that sit on top of them.

* **CLValues.** A recursive, type-directed encoder and decoder over 23 kinds of type. The
  centre is the prefix-codec law `CodecLaw.RoundTrip`: bytes of a value followed by anything
  decode, by the value's type, to that value and exactly what followed.
* **The wire format.** A second reader that shares nothing with the encoders and has every tag,
  width and index in numerals: `UniqueDecoding.ReadBack` for values, `Payload.ReadPayloadBack` for
  whole payloads, `DeployItems.ReadBodyBack` and `ReadHeaderBack` for deploys. It opens call tables
  and types with the SDK's parsers, whose layout `Calltables.TableLayout`, `CLTypes.SimpleTags` and
  `CompositeTags` give in numerals too. It gives back whatever the encoders write, on more values
  than the SDK's decoder does, up to what the encoders ignore. Strings may be any UTF-16: what UTF-8
  makes of a lone surrogate is part of every statement. The lemmas called `XIsWritten` say exactly
  when an encoder throws.
* **Call tables, arguments, payloads, deploys.** Nested framing, hand-grown buffers proved equal
  to plain concatenation, and the theorems that make a hash meaningful: `Payload.PayloadDetermined`
  and `DeployItems.BodyDetermined` say exactly which two payloads or deploy bodies share their
  bytes, and `DeployItems.OnlyCompletePaymentsAreSafe` that the latter reaches as far as it can.
* **Signing.** Classes on the heap, because a wrapper and its origin share one array of approvals
  and a deploy made from another shares its header and session. `Lifecycle.Run` covers every
  sequence of signatures.
* **Confirmation.** The polling loop against an arbitrary node and clock, with a bound on polls
  that is shown to be reached.
* **Texts.** Keys and their prefixed texts, and which values a map, filing by text, can tell apart.
* **Conversions.** CSPR text, era rewards, auction state, bid addresses, type repair.

JavaScript strings are sequences of UTF-16 code units, lone surrogates included; UTF-8 is written
out in full (section 3 of RFC 3629, with the replacement rules of `TextDecoder`). A thrown
exception is an `Err`. Hashing, signing, verifying, the node and the clock are parameters.

`dafny verify dfyconfig.toml` checks everything.

## Conventions

`XBytes` is what an encoder writes, as a function; a method `XToBytes` or `C.ToBytes` is the
step-by-step encoder, proved equal to it. `NormX` clears what an encoder ignores and replaces lone
surrogates by U+FFFD, as writing does (`Utf8.NormTextKeeps`). `ReadX` reads the wire format,
`ReadXBack` says that it gives `NormX` of what was written, and a lemma `XDetermined` that bytes and
normal form determine each other. `Travels` describes the values the decoder gives back, `Proper`
those whose bytes are unambiguous.

## Where the code and its description differ

The model follows the code.

* A string value's length counts UTF-16 units while its text is UTF-8, so only ASCII comes back
  (`CodecLaw.StringTravelsExactlyWhenAscii`).
* A Custom entry point is written as a plain string field and read as a nested call table; it
  never comes back (`TransactionParts.EntryPointRoundTrip`).
* `BidAddr.toJSON` writes a prefix that `BidAddr.fromJSON` refuses
  (`BidAddrs.PrefixedTextIsRefused`).
* `PublicKey.verifySignature` drops the algorithm byte without comparing it
  (`Lifecycle.AlgorithmByteIsIgnored`).
* `addArgToDeploy` is documented to return the original deploy; it returns a new one, and the
  original, which shares header and session, stops validating, unless the session already had the
  argument with that value or a hash collides (`Lifecycle.StaysConsistentExactlyWhen`).
* Text with a lone surrogate shares its bytes, and so its hash, with the text that has U+FFFD
  there (`Utf8.NormTextKeeps`).
* A payment that is unset or has no args is not told apart from others by the body hash
  (`DeployItems.OnlyCompletePaymentsAreSafe`).
* A deploy whose session has a transfer beside another item is hashed as the other item and
  described as the transfer (`WrapperViews.WrapperDescribesTheHashedItem`).
* The constructor of a result compares the names of types only, so it accepts ill-typed values for
  every composite type and for no simple one (`CLValueResults.CheckIsExactForSimpleTypes`).
* `HexBytes.fromHex` throws on the empty text, which `toHex` writes for no bytes
  (`HexTexts.HexBytesRoundTrip`).
* A map files its entries under the texts of their keys. Simple keys but Any, and byte arrays, have
  texts of their own (`KeyTexts.TextsTellApart`), but an empty option has that of an empty string, and
  tuples and lists of strings can be cut apart in different places (`KeyTexts.TupleTextsCollide`), so
  different keys of such a type can be refused as already there.
* `findPrefixByMap` says it returns at the first match; its loop goes on and the last one counts.
  Every key's own text still leads to its kind (`KeyTexts.KeyTextRoundTrip`).
* `motesToCSPR` is documented to round; it is exact (`Conversions.MotesRoundTrip`).

## Model

| member | source | states |
|---|---|---|
| Utf8.DecodeOfEncode | src/types/clvalue/String.ts:26-30 | decoding the UTF-8 of a string gives the string if and only if no surrogate stands alone in it |
| Utf8.NormTextKeeps | src/types/clvalue/String.ts:26-30 | writing replaces lone surrogates and nothing else: same length, same bytes, well-formed, unchanged if and only if well-formed before |
| Utf8.EncodeIsPrefixFree | src/types/clvalue/String.ts:26-30 | a UTF-16 length and UTF-8 bytes followed by anything fit only one remainder and one string up to lone surrogates |
| Utf8.ReadUnitsOfEncode | src/types/clvalue/String.ts:26-30 | counting UTF-16 units while decoding finds the end of any written text, whatever follows it |
| Utf8.EncodeLength | src/types/clvalue/String.ts:26-30 | UTF-8 has at least as many bytes as UTF-16 units, as many only for ASCII, at most three times as many |
| Utf8.DecodeTextOfEncode | src/types/Args.ts:80-93 | `TextDecoder` gives a name back if and only if it has no lone surrogate and does not start with U+FEFF |
| ByteConverters.ToBytesNumberAccepts | src/types/ByteConverters.ts:34-72 | the number encoder accepts exactly the values in range for its width and sign |
| ByteConverters.ToBytesNumberFixed | src/types/ByteConverters.ts:34-72 | up to 64 bits it writes exactly bitSize/8 little-endian two's complement bytes |
| ByteConverters.ToBytesNumberBig | src/types/ByteConverters.ts:34-72 | above 64 bits it writes a length byte and the shortest little-endian magnitude, one zero byte for zero |
| ByteConverters.UnsignedWidths | src/types/ByteConverters.ts:77-97 | the unsigned 8, 16, 32 and 64 bit encoders are `toBytesNumber` at those widths on every integer |
| ByteConverters.TwosFits | src/types/ByteConverters.ts:52-71 | the masked number is never negative, so the last branch is dead, and it needs at most bitSize/8 bytes |
| ByteConverters.FixedRoundTrip | src/types/ByteConverters.ts:34-72 | the fixed-width decoder inverts the encoder for every value it accepts and leaves the rest |
| ByteConverters.BigRoundTrip | src/types/clvalue/UintBig.ts:67-98 | `fromBytesBigIntBase` inverts the big-integer encoder and leaves the rest |
| ByteConverters.ParsersReadLE | src/types/ByteConverters.ts:161-181 | the shifts of parseU16 and parseU32 read the little-endian number at the front |
| ByteConverters.FromBytesU64 | src/types/ByteConverters.ts:188-197 | eight bytes are read as the little-endian number, the caller's array is left reversed, any other length throws |
| ByteConverters.WriteInteger | src/types/ByteConverters.ts:218-225 | four little-endian bytes of the value modulo 2^32, negative values included, follow what was written before and nothing past them changes |
| ByteConverters.WriteUShort | src/types/ByteConverters.ts:246-253 | two little-endian bytes of the value modulo 2^16, negative values included, follow what was written before and nothing past them changes |
| ByteConverters.WriteBytes | src/types/ByteConverters.ts:274-283 | the bytes follow what was written before and nothing past them changes |
| ByteConverters.ExpandBuffer | src/types/ByteConverters.ts:304-315 | terminates, keeps the contents, fits the size, is the old length times a power of two and below twice the size when it grows |
| NumberLayouts.FixedLayout | src/types/ByteConverters.ts:34-97 | for U8, U32, U64, I32 and I64, in numerals: the accepted range, and one, four or eight bytes of two's complement, least significant first; an error for all other integers |
| NumberLayouts.BigLayout | src/types/ByteConverters.ts:34-72 | for U128, U256 and U512, in numerals: the accepted range, a lone 0 for zero, else a count and the fewest bytes that hold the number |
| NumberLayouts.UnsignedReading | src/types/clvalue/Numeric/Uint64.ts:31-40 | on any bytes the decoders of U8, U32 and U64 take one, four or eight and leave the rest, or fail on fewer |
| NumberLayouts.SignedReading | src/types/clvalue/Numeric/Int64.ts:32-42 | on any bytes the decoders of I32 and I64 read two's complement of four or eight and leave the rest, or fail on fewer |
| NumberLayouts.BigReading | src/types/clvalue/UintBig.ts:67-98 | big numbers of at most 16, 32 or 64 bytes are read, all others refused |
| UintBigs.BigToBytes | src/types/clvalue/UintBig.ts:16-33 | the parsing loop writes the byte count modulo 256 and the shortest big-endian magnitude; a negative number gains a zero byte |
| UintBigs.BigFromBuffer | src/types/clvalue/UintBig.ts:45-57 | the hexadecimal loop reads the counted bytes as a big-endian number, and fails on none |
| UintBigs.BigBytesRoundTrip | src/types/clvalue/UintBig.ts:16-57 | a number comes back if and only if it is not negative and fits 255 bytes |
| CLTypes.TypeRoundTrip | src/types/clvalue/cltype/Parser.ts:151-264 | a type's bytes followed by anything decode to the type and what followed |
| CLTypes.TypeBytesPrefixFree | src/types/clvalue/cltype/Parser.ts:151-264 | no type's bytes are the beginning of another's |
| CLTypes.SimpleTags | src/types/clvalue/cltype/CLType.ts:15-39 | the simple types are the bytes 0 to 12, 21 and 22, in this order |
| CLTypes.CompositeTags | src/types/clvalue/cltype/CLType.ts:15-39 | option, list, byte array, result, map and tuples start with 13 to 20 |
| WritableValues.TypeIsWritten | src/types/clvalue/cltype/ByteArray.ts:1-84 | a type is written if and only if every byte array size in it fits four bytes |
| CLValues.ListFromBytes | src/types/clvalue/List.ts:135-166 | the decoding loop computes the recursive reading of the list, errors included |
| CLValues.DecodedType | src/types/clvalue/Parser.ts:149-323 | a value decoded by a type has that type |
| WritableValues.ValueIsWritten | src/types/clvalue/CLValue.ts:133-195 | a value is written if and only if every number in it is in the range of its kind and every count fits four bytes; else the encoder throws |
| CodecLaw.RoundTrip | src/types/clvalue/Parser.ts:149-323 | for every value that travels and every rest, decoding its bytes with the rest behind them by its type gives the value and exactly the rest |
| CodecLaw.WritesSomething | src/types/clvalue/List.ts:143-158 | a value of a type of nonzero width writes at least one byte, which is why the decoder's end-of-input test drops nothing else |
| CodecLaw.StringTravelsExactlyWhenAscii | src/types/clvalue/String.ts:26-76 | a string comes back if and only if it is ASCII |
| CodecLaw.URefTravelsOnlyAtEnd | src/types/key/URef.ts:146-156 | a URef is decoded if and only if nothing follows it |
| CodecLaw.ChainspecKeyNeedsMore | src/types/key/Key.ts:476-641 | a chainspec-registry key comes back if and only if something follows it |
| CodecLaw.WhichKeysDecode | src/types/key/Key.ts:476-641 | the decoder takes fourteen kinds of one hash and a URef that fills the input, and nothing else of those modelled |
| CodecLaw.PublicKeyRoundTrip | src/types/keypair/PublicKey.ts:319-346 | a public key of either algorithm comes back with the rest |
| CodecLaw.ZeroWidthElementsAreDropped | src/types/clvalue/List.ts:143-165 | a list of zero-width elements at the end of the input comes back empty |
| ZeroWidths.ZeroWidthListTravels | src/types/clvalue/List.ts:135-166 | a list of zero-width values comes back if and only if it is empty, or more input follows and the type has no Unit |
| ZeroWidths.ZeroWidthEntriesAreDropped | src/types/clvalue/Map.ts:203-225 | a map of zero-width keys and values at the end of the input comes back empty |
| CodecLaw.BigIsNeverOneZero | src/types/clvalue/UintBig.ts:67-98 | a canonical big integer never starts with the bytes 1, 0 that mark a kept encoding |
| UniqueDecoding.ReadBack | src/types/clvalue/CLValue.ts:133-195 | a reader with all tags and widths in numerals gives back every proper value, lone surrogates replaced, and exactly what followed it |
| UniqueDecoding.UniqueParse | src/types/clvalue/CLValue.ts:133-195 | two proper values of one type whose bytes, each followed by anything, are the same are equal up to lone surrogates in their strings, and so is what follows |
| UniqueDecoding.NormValueBytes | src/types/clvalue/CLValue.ts:133-195 | replacing lone surrogates in a value changes neither its type nor its bytes |
| UniqueDecoding.StringUnique | src/types/clvalue/String.ts:26-42 | the encoding of any string delimits itself and determines it up to lone surrogates |
| CLValueLists.CLValueList.Append | src/types/clvalue/List.ts:66-68 | the value goes to the end, whatever its type |
| CLValueLists.CLValueList.Remove | src/types/clvalue/List.ts:74-76 | one element is cut out at the splice point, negative indices counting from the end |
| CLValueLists.CLValueList.Pop | src/types/clvalue/List.ts:82-84 | list and popped element together are the old list |
| CLValueLists.CLValueList.Set | src/types/clvalue/List.ts:100-105 | only the upper bound is checked, and only the element at the index changes |
| CLValueLists.CLValueList.Get | src/types/clvalue/List.ts:113-118 | the element at the index, undefined below 0, an error past the end |
| CLValueLists.CLValueList.ToBytes | src/types/clvalue/List.ts:38-43 | writes the list's bytes, which give it back if and only if every element put in has the declared type |
| CLValueLists.ListTravelsExactlyWhenTyped | src/types/clvalue/List.ts:38-166 | a list of values that travel comes back from its bytes if and only if all have the element type |
| CLValueMaps.IndexAnswersLikeSearch | src/types/clvalue/Map.ts:116-151 | without repeated key texts the index has one slot per entry and answers like a scan |
| CLValueMaps.CLValueMap.constructor | src/types/clvalue/Map.ts:36-44 | the empty map is valid |
| CLValueMaps.CLValueMap.Append | src/types/clvalue/Map.ts:159-181 | checks identity of key type, identity of value type and presence in that order, adds at the end or changes nothing, and keeps list and index in step; a string key, or any with a text of its own, is refused if and only if an entry has that very key |
| CLValueMaps.CLValueMap.Get | src/types/clvalue/Map.ts:126-128 | in every valid map the indexed lookup is the linear search of the list; for string keys, and others with texts of their own, it is the value of the entry with that very key |
| CLValueMaps.CLValueMap.FindAny | src/types/clvalue/Map.ts:135-143 | the first of the given keys that is present decides |
| CLValueMaps.CLValueMap.Length | src/types/clvalue/Map.ts:149-151 | the size of the index is the length of the list |
| CLValueMaps.CLValueMap.ToBytes | src/types/clvalue/Map.ts:50-58 | writes the entry list, which is read back whole when its values travel |
| CLValueMaps.CLValueMap.FromBytesLoop | src/types/clvalue/Map.ts:190-226 | decoding yields a valid map with the specified entries and remainder, or the specified error; of string keys the first in the input is kept |
| CLValueMaps.DecodedMapKeepsTheFirst | src/types/clvalue/Map.ts:190-226 | of pairs in the input with one key text the first is kept, for every key |
| CLValueMaps.SearchIsByKey | src/types/clvalue/Map.ts:126-128 | among keys with texts of their own, searching by text is searching by key |
| CLValueMaps.DecodedMapKeepsTheFirstKey | src/types/clvalue/Map.ts:190-226 | for strings, and other keys with texts of their own, a decoded map has for each key the value of the first pair in the input with that key |
| KeyTexts.FindPrefixByMap | src/types/key/Key.ts:649-681 | the loop yields the last prefix in the list that the text starts with, three longer ones winning over their beginnings |
| KeyTexts.KeyTextRoundTrip | src/types/key/Key.ts:396-867 | every key of one hash and every URef key is read back from its prefixed text |
| KeyTexts.PublicKeyTextRoundTrip | src/types/keypair/PublicKey.ts:122-197 | a public key is read back from its hexadecimal text |
| KeyTexts.KeyHexIsHexOfBytes | src/types/keypair/PublicKey.ts:122-139 | the text of a public key is the hexadecimal of algorithm byte and key |
| KeyTexts.TextTellsValue | src/types/clvalue/Map.ts:167-168 | the text of a simple value or byte array of the right size gives the value back |
| KeyTexts.TextsTellApart | src/types/clvalue/Map.ts:167-168 | two such values of one type are equal if and only if their texts are |
| KeyTexts.OptionTextsCollide | src/types/clvalue/Option.ts:44-46 | an empty option has the text of a set one if and only if the inner text is empty, as that of an empty string is |
| KeyTexts.TupleTextsCollide | src/types/clvalue/Tuple2.ts:41-43 | every text with two separators in it is that of two different pairs of strings |
| KeyTexts.ListTextsCollide | src/types/clvalue/List.ts:49-52 | any two strings, listed, have the text of one longer string listed |
| CLValueResults.CheckIsExactForSimpleTypes | src/types/clvalue/Result.ts:23-40 | the constructor accepts exactly the well-typed values if and only if the expected type is simple |
| CLValueResults.Namesake | src/types/clvalue/Result.ts:23-40 | for every composite type there is a value of another type with the same name |
| CLValueResults.ResultTravelsExactlyWhenTyped | src/types/clvalue/Result.ts:47-104 | of the results the constructor accepts exactly the fully typed ones come back from their bytes |
| CLValueResults.DecodedResult | src/types/clvalue/Result.ts:89-104 | a decoded result has an inner value of the full type, so the constructor never throws on it |
| TypeRepair.ByteListIsRepaired | src/types/clvalue/Parser.ts:61-95 | a List<U8> encoding labelled List<List<U8>> is retyped if and only if it has fewer than 2^31 bytes, and then decodes to itself |
| TypeRepair.ListOfListsIsKept | src/types/clvalue/Parser.ts:61-95 | a genuine List<List<U8>> encoding is retyped only when it is empty |
| TypeRepair.OnlyByteListsAreRetyped | src/types/clvalue/Parser.ts:61-95 | every other type is kept, and only bytes of exactly the length in front of them are retyped |
| Calltables.CalltableSerialization.AddField | src/types/CalltableSerialization.ts:57-67 | fields must come in index order; the new field starts where the earlier ones end; a refused one changes nothing |
| Calltables.CalltableSerialization.ToBytes | src/types/CalltableSerialization.ts:74-89 | the loop writes count, headers, size and payload of the table |
| Calltables.CalltableSerialization.GetField | src/types/CalltableSerialization.ts:97-100 | the value of the first field with the index |
| Calltables.CalltableSerialization.FromBytes | src/types/CalltableSerialization.ts:111-144 | the two loops read what the specification reads, errors included |
| Calltables.CalltableRoundTrip | src/types/CalltableSerialization.ts:74-144 | a written table followed by anything decodes to the same fields, offsets and total, so fields can go on being added |
| Calltables.CalltableInjective | src/types/CalltableSerialization.ts:74-89 | the bytes of a table determine its values and what follows |
| Calltables.CalltableLimits | src/types/CalltableSerialization.ts:74-89 | a table can be written if and only if it has at most 65536 fields and less than 2^32 payload bytes |
| Calltables.TableLayout | src/types/CalltableSerialization.ts:74-89 | in numerals: where the count, the index and running offset of each field, the size and the payload stand |
| Calltables.GetFieldOfTable | src/types/CalltableSerialization.ts:97-100 | in a freshly filled table field i is value i, and there is no other |
| OrderedMaps.PutThenGet | src/types/Args.ts:182-184 | setting a key changes what it maps to and nothing else |
| OrderedMaps.PutKeepsPlaces | src/types/Args.ts:182-184 | setting a known key keeps every key in its place |
| Arguments.WithTypeRoundTrip | src/types/clvalue/Parser.ts:136-140 | a value written with its type comes back with the rest if and only if it writes at least one byte, and is refused otherwise |
| Arguments.BufferAgreesWithPlain | src/types/Args.ts:27-73 | the buffer encoder and the plain encoder of an argument agree exactly as long as the name's bytes fit a u32 length |
| Arguments.ToBytesWithNamedArg | src/types/Args.ts:50-73 | at every size the grown buffer holds name length, name and value, and no write passes its end |
| Arguments.ArgsFromBytes | src/types/Args.ts:206-228 | the decoding loop computes the recursive reading, errors included |
| Arguments.NamedArgRoundTrip | src/types/Args.ts:80-93 | an argument followed by anything is read back, and re-encoding it measures exactly the bytes it took |
| Arguments.LoopReadsInOrder | src/types/Args.ts:206-228 | the offset rebuilt by re-encoding is the true start of the next argument: n more are read in order, or the input ends |
| Arguments.ArgsRoundTrip | src/types/Args.ts:191-228 | names, values and order come back if and only if the count at the start of the underlying buffer is right, which it is for an array that owns its buffer |
| TransactionParts.InitiatorToBytes | src/types/InitiatorAddr.ts:47-65 | the filled call table is the initiator's bytes |
| TransactionParts.InitiatorDetermined | src/types/InitiatorAddr.ts:47-65 | initiators write the same bytes if and only if the address that counts is the same |
| TransactionParts.ReadInitiatorBack | src/types/InitiatorAddr.ts:47-65 | a reader with kind 0 for public keys and 1 for account hashes gives back the address that counts |
| TransactionParts.InitiatorIsWritten | src/types/InitiatorAddr.ts:47-65 | written if and only if an address is set and a public key fits its field |
| TransactionParts.PaymentLimitedToBytes | src/types/PricingMode.ts:30-47 | the filled call table of the payment-limited mode, errors included |
| TransactionParts.FixedModeToBytes | src/types/PricingMode.ts:76-89 | the filled call table of the fixed mode, errors included |
| TransactionParts.PricingToBytes | src/types/PricingMode.ts:108-156 | the filled call table is the mode's bytes, errors included |
| TransactionParts.PricingDetermined | src/types/PricingMode.ts:30-156 | pricing modes write the same bytes if and only if the mode that counts is the same |
| TransactionParts.ReadPricingBack | src/types/PricingMode.ts:30-156 | a reader with kinds 0, 1 and 2 gives back, field by field, the mode that counts |
| TransactionParts.PricingIsWritten | src/types/PricingMode.ts:30-156 | written if and only if a mode is set and the numbers of the one that counts are in range |
| TransactionParts.EntryPointToBytes | src/types/TransactionEntryPoint.ts:135-151 | the filled call table is the entry point's bytes |
| TransactionParts.EntryPointDetermined | src/types/TransactionEntryPoint.ts:97-151 | entry points write the same bytes if and only if kind and, for Custom, name as written agree |
| TransactionParts.ReadEntryPointBack | src/types/TransactionEntryPoint.ts:97-151 | a reader that numbers the thirteen kinds from 0 gives back kind and, for Custom, name |
| TransactionParts.EntryPointIsWritten | src/types/TransactionEntryPoint.ts:135-151 | written whenever a custom name fits its field |
| TransactionParts.EntryPointRoundTrip | src/types/TransactionEntryPoint.ts:135-310 | an entry point comes back if and only if it is not Custom; Custom always fails |
| TransactionParts.SchedulingToBytes | src/types/TransactionScheduling.ts:54-172 | the filled call table is the scheduling's bytes, errors included |
| TransactionParts.SchedulingDetermined | src/types/TransactionScheduling.ts:160-172 | schedulings write the same bytes if and only if the one that counts is the same |
| TransactionParts.ReadSchedulingBack | src/types/TransactionScheduling.ts:54-172 | a reader with kinds 0, 1 and 2 gives back the scheduling that counts |
| TransactionParts.SchedulingIsWritten | src/types/TransactionScheduling.ts:160-172 | written if and only if the one that counts is a valid date or a number in range |
| TransactionParts.SchedulingRoundTrip | src/types/TransactionScheduling.ts:160-295 | a scheduling comes back if and only if its era id, when that counts, is at most 2^53 - 1 |
| TransactionTargets.PackageToBytes | src/types/TransactionTarget.ts:147-217 | the filled call table of a package target, with the protocol major version only when it is truthy |
| TransactionTargets.InvocationToBytes | src/types/TransactionTarget.ts:273-293 | the filled call table of the first target that is set, or an error |
| TransactionTargets.StoredToBytes | src/types/TransactionTarget.ts:438-445 | the filled call table of a stored target |
| TransactionTargets.SessionToBytes | src/types/TransactionTarget.ts:484-502 | the filled call table of a session target, module bytes behind their length |
| TransactionTargets.TargetToBytes | src/types/TransactionTarget.ts:549-564 | the filled call table is the target's bytes, errors included |
| TransactionTargets.InvocationDetermined | src/types/TransactionTarget.ts:147-293 | invocation targets write the same bytes if and only if they agree up to version 0, protocol major 0 and lone surrogates |
| TransactionTargets.ReadInvocationBack | src/types/TransactionTarget.ts:147-293 | a reader with tags 0 to 3 gives back the target that counts |
| TransactionTargets.InvocationIsWritten | src/types/TransactionTarget.ts:147-293 | written if and only if a target is set, its numbers are in range and its fields fit |
| TransactionTargets.TargetDetermined | src/types/TransactionTarget.ts:438-564 | targets write the same bytes if and only if their normal forms agree |
| TransactionTargets.ReadTargetBack | src/types/TransactionTarget.ts:438-564 | a reader with tags 0, 1 and 2, runtimes 0 and 1 and a 0 or 1 for installing gives back the target that counts |
| TransactionTargets.TargetIsWritten | src/types/TransactionTarget.ts:438-564 | written if and only if a target is set and its parts fit their fields |
| TransactionTargets.TruncatedDecode | src/types/clvalue/String.ts:67-76 | cutting UTF-8 at the UTF-16 length gives the text back exactly for ASCII whose last character may be U+FFFD |
| TransactionTargets.InvocationRoundTrip | src/types/TransactionTarget.ts:273-410 | an invocation target comes back if and only if the package that counts has a version and the name that counts survives the string codec |
| Payload.PayloadFields.AddField | src/types/TransactionV1Payload.ts:172-174 | sets the index in insertion order |
| Payload.PayloadFields.ToBytes | src/types/TransactionV1Payload.ts:196-219 | at every size the grown buffer holds the count, then index and value of each field in order |
| Payload.RuntimeArgsToBytes | src/types/TransactionV1Payload.ts:286-316 | at every size the grown buffer holds 0, the count and the arguments in order |
| Payload.BlobIsPlainArgs | src/types/TransactionV1Payload.ts:286-316 | the argument blob is a 0 followed by exactly what `Args.toBytes` writes |
| Payload.WithLength | src/types/TransactionV1Payload.ts:320-355 | a framed field is its u32 length and its bytes |
| Payload.PayloadToBytes | src/types/TransactionV1Payload.ts:286-368 | the whole encoder writes the specified payload and fails where its first failing part fails |
| Payload.RuntimeArgsDetermined | src/types/TransactionV1Payload.ts:286-316 | below 2^32 bytes two blobs are the same if and only if names, values and order agree as they are written |
| Payload.FieldsDetermined | src/types/TransactionV1Payload.ts:196-219 | the framed fields determine all four |
| Payload.ReadRuntimeArgsBack | src/types/TransactionV1Payload.ts:286-316 | below 2^32 bytes a reader gives back names, values and order of the arguments |
| Payload.ReadFieldsBack | src/types/TransactionV1Payload.ts:196-219 | a reader finds arguments, target, entry point and scheduling under 0, 1, 2 and 3 |
| Payload.ReadPayloadBack | src/types/TransactionV1Payload.ts:286-368 | a reader with every tag, width and index in numerals gives back all nine parts of a payload, up to what the encoders ignore and the lone surrogates they replace |
| Payload.PayloadIsWritten | src/types/TransactionV1Payload.ts:286-368 | written if and only if every part is, timestamp and ttl are in range and all fits; else the encoder throws |
| Payload.PayloadDetermined | src/types/TransactionV1Payload.ts:286-368 | a payload that can be written has the same bytes as another if and only if they agree on all nine parts up to what the encoders ignore and the lone surrogates they replace |
| Payload.NormArgsBytes | src/types/Args.ts:27-73 | replacing lone surrogates in names and values changes nothing either encoder of arguments writes |
| DeployItems.ReadItemBack | src/types/ExecutableDeployItem.ts:67-528 | a reader with tags 0 to 5 gives back an item with args and exactly what followed it, and at the end of the input any item |
| DeployItems.SlotDecidesTag | src/types/ExecutableDeployItem.ts:489-528 | the first of the six slots that is set decides the first byte, 0 to 5; without one nothing is written |
| DeployItems.ReadBodyBack | src/types/Deploy.ts:362-373 | a body whose payment is set and has args is read back as payment and session, in this order |
| DeployItems.ReadHeaderBack | src/types/Deploy.ts:147-160 | a reader of account, timestamp, ttl, gas price, body hash, dependencies and chain name gives back the header and what followed it |
| DeployItems.ItemIsWritten | src/types/ExecutableDeployItem.ts:67-528 | written if and only if args, module length and version fit; only modules and versioned contracts can do without args |
| DeployItems.HeaderIsWritten | src/types/Deploy.ts:147-160 | written if and only if account and body hash are set, the date is valid and every number is in range |
| DeployItems.ItemUnique | src/types/ExecutableDeployItem.ts:67-528 | each of the six item encodings with args delimits itself; at the end of the input all do |
| DeployItems.BodyDetermined | src/types/Deploy.ts:362-373 | with set payments that carry args, a body that can be written is the same bytes as another if and only if payment and session agree as they are written |
| DeployItems.OnlyCompletePaymentsAreSafe | src/types/Deploy.ts:362-373 | a payment that can be written is told apart from every set payment with args, whatever the sessions, if and only if it is set and has args itself |
| DeployItems.UnsetPaymentIsAmbiguous | src/types/ExecutableDeployItem.ts:489-528 | an unset payment writes nothing, so it trades places with any session unseen |
| DeployItems.ArglessPaymentIsAmbiguous | src/types/ExecutableDeployItem.ts:67-81 | every set payment without args shares its body with the same payment with empty args |
| DeployItems.HeaderUnique | src/types/Deploy.ts:147-160 | a header's bytes delimit themselves and determine the header up to lone surrogates |
| Lifecycle.OwnSignatureVerifies | src/types/keypair/PublicKey.ts:254-264 | a signature made with a key pair and its algorithm byte verifies under the public key |
| Lifecycle.SignedByParts | src/types/keypair/PrivateKey.ts:88-92 | signing leaves the key's public key as signer and a signature of its algorithm byte followed by what the key signs |
| Lifecycle.AlgorithmByteIsIgnored | src/types/keypair/PublicKey.ts:254-264 | changing the algorithm byte of a signature never changes whether it verifies |
| Lifecycle.TransactionV1.MakeTransactionV1 | src/types/Transaction.ts:392-396 | a new transaction carries the hash of its payload and an approvals array of its own, empty |
| Lifecycle.TransactionV1.Validate | src/types/Transaction.ts:300-318 | succeeds if and only if the hash is the payload's, there are approvals, and each signature has more than one byte of which all but the first verify under its signer; else fails with the first reason |
| Lifecycle.TransactionV1.Sign | src/types/Transaction.ts:324-333 | appends the key's approval of the hash, to a new array if there is none |
| Lifecycle.TransactionV1.SetSignature | src/types/Transaction.ts:361-370 | appends the given approval and returns the same object, or throws when there is no array |
| Lifecycle.ExecutableDeployItem.SetArg | src/types/ExecutableDeployItem.ts:464-483 | sets the argument in the slot that counts, or throws and changes nothing |
| Lifecycle.WithArg | src/types/ExecutableDeployItem.ts:464-483 | only the args of the chosen item change, by setting one key |
| Lifecycle.Deploy.MakeDeploy | src/types/Deploy.ts:362-373 | sets the body hash in the caller's header and returns a consistent, unsigned deploy around the caller's objects |
| Lifecycle.Deploy.Validate | src/types/Deploy.ts:238-266 | succeeds if and only if body hash and hash are those of the bytes and each signature has more than one byte of which all but the first verify under its signer; else fails with the first reason |
| Lifecycle.Deploy.Sign | src/types/Deploy.ts:273-277 | appends the key's approval of the hash |
| Lifecycle.Deploy.SetSignature | src/types/Deploy.ts:301-309 | appends the given approval and returns the same object |
| Lifecycle.Deploy.AddArgToDeploy | src/types/Deploy.ts:339-352 | refuses signed deploys untouched; otherwise the argument is set and the returned deploy is consistent, while a consistent old one stays so if and only if the session already had the argument, short of two named collisions |
| Lifecycle.StaysConsistentExactlyWhen | src/types/Deploy.ts:339-373 | the old deploy keeps the hash of its header if and only if the argument was there with a value written alike, or body hashes or header hashes collide |
| Lifecycle.PutChangesNothing | src/types/Args.ts:182-184 | setting an argument leaves the arguments as they are written if and only if it was there with a value written alike |
| Lifecycle.Transaction.New | src/types/Transaction.ts:566-607 | a wrapper has exactly one origin or is not made |
| Lifecycle.Transaction.FromTransactionV1 | src/types/Transaction.ts:692-708 | the wrapper has the transaction's hash, its parts and the very array of its approvals, and is in step with it if and only if there is one |
| Lifecycle.Transaction.FromDeploy | src/types/Deploy.ts:382-445 | a deploy is wrapped if and only if its payment is set and its session shows an entry point; the wrapper has its hash, the specified view of it and the very array of its approvals |
| WrapperViews.WrapperDescribesTheHashedItem | src/types/TransactionTarget.ts:619-728 | target and entry point of the wrapper are those of the item that is hashed if and only if no transfer is set beside another item |
| WrapperViews.NumericAmountIsShown | src/types/Deploy.ts:412-418 | a numeric `amount` of any width is read back from its text as the payment amount |
| WrapperViews.ViewLosesNothing | src/types/Transaction.ts:692-708 | the payload rebuilt from what a wrapper shows is the payload, and has its bytes |
| WrapperViews.WrapperShowsTheDeploy | src/types/Deploy.ts:382-445 | all of the header but body hash and dependencies can be rebuilt from a wrapped deploy; the rest of what it shows, slot by slot |
| Lifecycle.Transaction.Validate | src/types/Transaction.ts:636-644 | succeeds if and only if the origin's hashes match and each signature has more than one byte of which all but the first verify under its signer |
| Lifecycle.Transaction.SetSignature | src/types/Transaction.ts:660-671 | one approval is appended, seen through wrapper and origin alike |
| Lifecycle.Transaction.Sign | src/types/Transaction.ts:650-653 | appends the key's approval of the wrapper's hash |
| Lifecycle.Run | src/types/Transaction.ts:650-671 | any run through wrapper or origin leaves one approval per step, in order, and the hashes as they were |
| Lifecycle.RunIsValidExactlyWhen | src/types/Transaction.ts:300-333 | after any run all approvals verify if and only if every handed-over signature does |
| Lifecycle.MakeWrapSignValidate | src/types/Transaction.ts:392-708 | make, wrap, any run of signing, validate: true whenever the payload can be written |
| Lifecycle.MakeDeploySignValidate | src/types/Deploy.ts:238-445 | the same for a deploy that can be written and wrapped |
| Lifecycle.TransactionHashCommits | src/types/Transaction.ts:392-396 | two payloads share a hash if and only if they agree up to what the encoders ignore or are a collision |
| Lifecycle.DeployHashCommits | src/types/Deploy.ts:362-373 | two deploys share a hash only if header, payment and session agree as written or a collision is at hand, and always if all agree |
| Lifecycle.ApprovalsUnique | src/types/Transaction.ts:240-251 | approvals written alike are as many, and the same if and only if their signatures have the same lengths |
| Lifecycle.ReadApprovalsBack | src/types/Transaction.ts:240-251 | told the lengths of the signatures, a reader gives back the approvals |
| Lifecycle.SignatureLengthsMatter | src/types/Transaction.ts:240-251 | for any two different lengths there are two lists of approvals with one encoding |
| Lifecycle.TransactionV1Determined | src/types/Transaction.ts:343-352 | the wire form determines hash, payload as written and, if and only if signature lengths agree, approvals |
| Lifecycle.ReadTransactionV1Back | src/types/Transaction.ts:343-352 | a reader gives back hash, payload and approvals from the fields 0, 1 and 2 |
| Lifecycle.DeployDetermined | src/types/Deploy.ts:284-291 | with args in both items, the wire form determines hash, header, payment and session as written and, if and only if signature lengths agree, approvals |
| Lifecycle.ReadDeployBack | src/types/Deploy.ts:284-291 | with args in both items, a reader gives back header, hash, payment, session and approvals, in this order |
| Confirmation.WaitForConfirmation | src/rpc/rpc_client.ts:1414-1471 | the loop ends on every node and clock, makes the specified run, and keeps the bounds below |
| Confirmation.PollsAreBounded | src/rpc/rpc_client.ts:1414-1471 | at most maxRetries + ceil(timeout / 400) + 1 polls |
| Confirmation.RunsEndRightly | src/rpc/rpc_client.ts:1414-1471 | returns exactly a last poll with an execution result; gives up exactly at failure maxRetries + 1 of the whole run; times out never early; never polls after the deadline error |
| Confirmation.PollBoundIsReached | src/rpc/rpc_client.ts:1414-1471 | for every retry count and positive timeout some node uses the bound up |
| Confirmation.TimeIsAccountedFor | src/rpc/rpc_client.ts:1414-1471 | a run ends exactly after its polls' own times, the retry delay after each failure and 400 ms after each other poll but the last, and the overruns |
| Conversions.AcceptsExactlyAmounts | src/types/Conversions.ts:97-100 | exactly digits, or digits, a dot and digits, are accepted |
| Conversions.MotesAreTheFloor | src/types/Conversions.ts:97-113 | for every accepted text the motes are the floor of its value times 10^9 |
| Conversions.MotesRoundTrip | src/types/Conversions.ts:97-143 | every natural number survives the trip through text, which has no superfluous zeros |
| Conversions.AmountRoundTrip | src/types/Conversions.ts:97-143 | an amount comes back as the same text if and only if it has no superfluous zeros and at most nine places |
| EraRewards.FromV1 | src/types/EraEnd.ts:308-328 | the loop groups the rewards and carries the other fields over |
| EraRewards.EachListIsTheSubsequence | src/types/EraEnd.ts:308-328 | every validator's list is exactly the subsequence of its rewards, and only rewarded validators have one |
| EraRewards.GroupingConserves | src/types/EraEnd.ts:308-328 | total amount and number of rewards are unchanged and no validator has two lists |
| EraRewards.KeyHexInjective | src/types/keypair/PublicKey.ts:122-139 | different public keys have different hex forms, so grouping by text is grouping by validator |
| EraRewards.RewardsRoundTrip | src/types/SerializationUtils.ts:184-211 | every reward map survives its JSON form, order included |
| EraRewards.DeserializeFailsExactlyOnDuplicates | src/types/SerializationUtils.ts:184-199 | parsed entries are refused if and only if two share a key, and are otherwise returned in order |
| Auctions.FromV1 | src/types/AuctionState.ts:146-192 | the nested loops flatten the bids and carry the other fields over |
| Auctions.FlatteningConserves | src/types/AuctionState.ts:146-192 | one entry per validator and per delegator, the same total stake |
| Auctions.WhatIsFilledIn | src/types/AuctionState.ts:146-192 | every validator's entry has no reserved slots and delegations from 500 to 10^9 CSPR |
| Auctions.FlatteningLosesNothing | src/types/AuctionState.ts:146-192 | the V1 bids, with delegators in order under their validator, can be read back from the flat list |
| HexTexts.HexBytesRoundTrip | src/types/HexBytes.ts:29-56 | a text is read and written back unchanged if and only if it is lower-case hexadecimal of even, nonzero length; the empty text throws |
| BidAddrs.HexIsHexOfBytes | src/types/key/BidAddr.ts:310-517 | `toHex` is the hexadecimal of `toBytes`, for a purse if and only if it is lower-case hexadecimal |
| BidAddrs.WhatIsWritten | src/types/key/BidAddr.ts:310-517 | exactly which addresses each encoder writes: era 0 only as text, eras from 2^32 only as bytes |
| BidAddrs.LayoutByTag | src/types/key/BidAddr.ts:403-517 | what each of the ten tags, in numerals, is followed by |
| BidAddrs.HashesRoundTrip | src/types/key/BidAddr.ts:179-295 | an address of one or two hashes followed by anything comes back with the rest |
| BidAddrs.BytesRoundTrip | src/types/key/BidAddr.ts:179-517 | bytes give the address back if and only if a purse is lower-case hexadecimal and an era at most 2^53 - 1; purse and era bytes stay in the remainder |
| BidAddrs.HexRoundTrip | src/types/key/BidAddr.ts:100-396 | text gives the address back if and only if a purse is 64 lower-case hexadecimal digits |
| BidAddrs.DecodedIsPlain | src/types/key/BidAddr.ts:100-295 | decoders set exactly the fields of the tag |
| BidAddrs.PrefixedTextIsRefused | src/types/key/BidAddr.ts:524-534 | what `toJSON` writes, `fromJSON` refuses |

## Left out

- CLValues.KeyFromBytes: only the key kinds made of one 32-byte hash or a URef are decoded; era info, bid addresses, addressable entities, byte code, messages and named keys inside a Key are not modelled, they end in an unknown tag here.
- KeyTexts.KeyTextRoundTrip: texts of the form `Key::…(…)` are not read, and a URef's access text must be an octal number below 256, where the source keeps any number or NaN.
- WrapperViews.NumericAmountIsShown: the payment amount is the integer `parseInt` reads, before JavaScript rounds it to a double.
- Public keys whose inner key is null.
- Lifecycle.DeployDetermined: for items without args, which run into what follows them, nothing is promised.
- Confirmation.WaitForConfirmation: the clock does not step back and no sleep or timer ends early.
- Lifecycle.DeployHashCommits: the two directions are separate because a collision of bodies alone does not make the headers equal.
- EraRewards.ParseAmount: decimal texts only; `BigNumber.from` also reads 0x notation and JSON numbers.
- CodecLaw.RoundTrip: lists of Any and the dynamic type are outside, being no prefix codecs in the code; Unit, Any, URefs and a kept [1, 0] are covered at the end of the input, where they are decoded.
- Conversions.CsprToMotes: string input only; a JavaScript number is first printed by the engine.
- Lifecycle.ExecutableDeployItem.SetArg: an item holds its args by value; an Args object shared by two items would change in both.
- Numbers that are not integers, and ethers' refusal of JavaScript numbers from 2^53 on.
- The ISO text of timestamps, through which a deploy header's timestamp passes unchanged, and the text of durations.
- Auction bids without a bid object, and fields of the auction state that are only passed on, which are opaque here.
- JSON through typedjson, and `fromJSON` of transactions and deploys, beyond the list and map conversions above.
- BLAKE2b (RFC 7693), Ed25519 and secp256k1: abstract functions with a sign/verify law.
- Network requests, server-sent events, request and response classes: input and output.
- Builders, transfer helpers, network selection and the block body serializer: they assemble calls to what is modelled, or merge objects without an inverse.
