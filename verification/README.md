# A Dafny model of decanode's common package

decanode is a cross-chain settlement node. Its `common` package holds what every
other part relies on: the wire codec of the messages that nodes attest to, the
cache that turns public keys into addresses, the text of assets and coins, coin
lists, observed transactions, and the arithmetic of shares, scales and prices.
This project models that logic in Dafny 4.11 and proves what it promises for all
inputs, all byte strings and all interleavings. `dafny verify dfyconfig.toml`
checks the whole project.

## What is proved

**The codec** (`Varint`, `Wire`, `Decoding`, `DecodingLaws`, `Truncation`,
`Nesting`, `Encoding`, `Messages`, `RoundTrips`, `Merging`, `WireFormat`,
`Unmarshal`, `Buffers`, `Marshal`). Varints are read and written by the loops of the generated code, with
the bitwise or, the 64- and 32-bit truncation and the shift by 63 written out.
Wire records, groups nested to any depth included, have a grammar of their own, and
`skipCommon` is proved to accept exactly that grammar. A message type is a schema
and a function that applies one decoded field; for every message type at once it is
proved which byte strings decode and to what, that unknown fields are ignored, inside
nested messages too, that concatenation merges, and that cut-off input is reported as
such. Eight messages are
then given as instances, three levels deep, with their layout in literal tag bytes
and their round trips. The encoders work on an array, from the back, and are proved
to write exactly their own bytes; the decoders are loops over an index, proved equal
to the decoding function, error values included.

**The address cache** (`AddressCache`). Any number of `GetAddress` callers
interleave over one map and one read-write lock. Entries are always the derivation
their key spells, nobody races, every call can return and no run keeps the callers
busy for ever, and it is stated exactly for which arguments the cache can be noticed
at all.

**Assets, coins, lists** (`Text`, `DecimalText`, `Assets`, `Coins`, `Sorting`,
`ListEquality`, `Gas`, `Txs`). Parsing and printing are inverse; denoms are
injective; adding conserves; sort-then-compare equality is pinned to what the sort
promises, which is less than a stable order.

**Observed transactions** (`TxIds`, `ObservedTxs`). Facts about whole runs of
`SetDone` and `Sign`, with the exact condition under which their order matters.

**Arithmetic** (`Shares`, `Decimals`, `OraclePrices`, `SignificantFigures`).

Six properties that one could expect do not hold of the code. Each is stated with its
exact condition, and with an input that fails:

- the cache is visible for other spellings of five chain names, and for texts with a
  dash (`AddressCache.SpellingShadowed`, `AddressCache.LowerBtcShadowed`);
- a comparison of transactions can reorder their gas, although the comment of
  `Tx.EqualsEx` says that it changes neither (common/tx.go:160-180,
  common/gas.go:103-108): it is certain to leave the gas alone exactly when a text,
  the coins or the lengths differ or both lists are sorted with nothing to choose
  between (`Txs.GasLeftIff`, `Txs.CopyReordersGas`);
- the order of `SetDone` calls matters when an EVM hash comes with both `0x` and `0X`
  (`ObservedTxs.OrderMattersIff`, `ObservedTxs.BothPrefixes`);
- permuted coin lists may compare unequal when unequal coins share an asset text
  (`ListEquality.AlwaysEqualIff`, `ListEquality.TwoAmounts`);
- `Adds_deprecated` adds to every entry of an asset
  (`Gas.AddsDeprecatedConservesIff`, `Gas.AddedTwice`);
- a list given to its own `Adds_deprecated` need not be doubled (`Gas.SelfDoublesIff`,
  `Gas.AddedToItself`).

Where code and comment disagree the model follows the code; besides `Tx.EqualsEx`,
`ParseCoin` says that it panics but returns an error (common/coin.go:32-53).

## How the source is modelled

Go strings and byte slices in messages are byte strings, and a nil slice is an empty
one; message pointers are values, an optional submessage is an `Option`. Buffers are
shorter than 2^63, as a Go slice is. Amounts of `cosmos.Uint` are naturals. Text is
ASCII. Calls into code outside the package are parameters: the address derivations,
`cosmos.ParseUint`, the bech32 text of account addresses, and the decimal text of a
`big.Float`. `sort.Slice` stands for any procedure that sorts and permutes.

## Model

| member | source | states |
|---|---|---|
| Varint.SovIsEncodedLength | common/common.pb.go:3225-3227 | the bit-length formula for the size is the number of bytes the writer emits, for every number |
| Varint.EncodeVarintRoundTrip | common/common.pb.go:2627-2637 | every uint64 is written in at most ten bytes that the reader turns back into it, whatever follows |
| Varint.Int64RoundTrip | common/common.pb.go:2352-2356 | an int64 survives the uint64 it travels in, and a negative one takes ten bytes |
| Varint.AccumulateStep | common/common.pb.go:3569-3582 | or-ing a shifted, truncated seven-bit group keeps the low bits of the sum read so far, at any shift and width |
| Varint.OrSame | common/common.pb.go:3578 | a bit that is set on both sides of the or is set once |
| Varint.DecodeVarint | common/common.pb.go:3569-3582 | the loop returns the low bits of the varint and its length, or the overflow or end-of-input error |
| Varint.ReadVarintEnds | common/common.pb.go:3569-3582 | a read ends at the first byte below 128 among ten; overflow and end of input are the two ways there is none |
| Varint.DecodeUint32 | common/common.pb.go:7199-7214 | a 32-bit accumulator ends with the low 32 bits of the same number |
| Varint.DecodeUint64 | common/common.pb.go:7180-7195 | the 64-bit form of the same loop |
| Machine.ConversionsWrap | common/common.pb.go:6706-6707 | each width conversion differs from its argument by a multiple of two to the width |
| Wire.TagSplits | common/common.pb.go:6706-6707 | the tag 8n + w has field number n and wire type w, for every field number there is |
| Wire.TagTruncates | common/common.pb.go:6706-6707 | of any other tag the number is the rest of the division by 8, cut to a signed 32-bit number |
| Wire.SkipPayload | common/common.pb.go:7478-7524 | the branch on the wire type advances by the payload, with int64 wrap-around turning into a negative index |
| Wire.SkipCommon | common/common.pb.go:7457-7534 | the loop never reads outside the buffer and returns the index, or the error, of the recursive scanner |
| Wire.SkipRecord | common/common.pb.go:7457-7534 | the scanner steps over exactly one well-formed record, at any nesting depth |
| Wire.RecordOf | common/common.pb.go:7457-7534 | what the scanner stepped over inside the buffer spells a well-formed record |
| Wire.SkipIsExact | common/common.pb.go:7457-7534 | the scanner stops at n exactly when the first n bytes spell one well-formed record |
| DecodingLaws.WalkIsExact | common/common.pb.go:6686-6822 | no wire error exactly when the whole buffer spells accepted records, all of it consumed, and exactly the known ones are seen |
| DecodingLaws.DecodeOkIff | common/common.pb.go:6686-6822 | a decoder returns a message exactly when the buffer spells accepted records whose known fields, applied in order, give that message |
| DecodingLaws.DecodeConcat | common/common.pb.go:6686-6822 | decoding two joined buffers is decoding the second on top of the result of the first |
| DecodingLaws.DecodeIgnoresUnknown | common/common.pb.go:6801-6815 | an unknown field of any kind, put at any field boundary, does not change the result |
| DecodingLaws.DecodeIgnoresNumber | common/common.pb.go:6801-6815 | the same in plain arithmetic on the tag: any record whose tag without its low three bits is a positive number that the message type does not list |
| DecodingLaws.AcceptedIff | common/common.pb.go:6706-6720 | a tag 8n + w is taken for field n and no other, and only with the wire type that field has |
| Nesting.InsideField | common/common.pb.go:6686-6822 | for any message type, exchanging a field for one that is taken alike, at any field boundary and with its length spelled in any way, does not change what the buffer decodes to |
| Nesting.RateInFeed | common/common.pb.go:6768-6801 | two rates that decode alike can be exchanged inside a price feed |
| Nesting.FeedInQuorum | common/common.pb.go:6974-7009 | two price feeds that decode alike on top of any feed can be exchanged inside a quorum price feed |
| Nesting.AttestationInQuorum | common/common.pb.go:7010-7043 | two attestations that decode alike can be exchanged inside a quorum price feed |
| Nesting.QuorumInBatch | common/common.pb.go:7094-7127 | two quorum price feeds that decode alike can be exchanged inside a batch |
| Nesting.UnknownInFeed | common/common.pb.go:6802-6815 | an unknown field inside a price feed does not change the decoded quorum price feed |
| Nesting.UnknownInRate | common/common.pb.go:7216-7230 | an unknown field inside a rate, three levels down, does not change the decoded batch |
| Truncation.SkipCut | common/common.pb.go:7457-7534 | a record cut anywhere makes the scanner report the end, or an index past it outside groups |
| Truncation.DecodeTruncated | common/common.pb.go:6686-6822 | input that ends inside a field is rejected as ended too early |
| Encoding.DecodeEncoded | common/common.pb.go:2334-2366 | for every message type, decoding encoded fields is applying them in order |
| WireFormat.OraclePriceFormat | common/common.pb.go:2516-2532 | the layout in literal tag bytes |
| WireFormat.AttestationFormat | common/common.pb.go:1639-1659 | the layout in literal tag bytes |
| WireFormat.ErrataTxFormat | common/common.pb.go:2201-2221 | the layout in literal tag bytes |
| WireFormat.NetworkFeeFormat | common/common.pb.go:1901-1929 | the layout in literal tag bytes |
| WireFormat.AssetFormat | common/common.pb.go:1210-1267 | the layout in literal tag bytes |
| WireFormat.PriceFeedFormat | common/common.pb.go:2334-2366 | the layout in literal tag bytes |
| WireFormat.QuorumPriceFeedFormat | common/common.pb.go:2430-2462 | the layout in literal tag bytes; an empty feed that is present is still written |
| WireFormat.BatchFormat | common/common.pb.go:2479-2499 | the layout in literal tag bytes |
| RoundTrips.OraclePriceRoundTrip | common/common.pb.go:7149-7236 | decoding its encoding into a zero struct gives the message back |
| RoundTrips.AttestationRoundTrip | common/common.pb.go:4854-4971 | decoding its encoding into a zero struct gives the message back |
| RoundTrips.ErrataTxRoundTrip | common/common.pb.go:6330-6443 | decoding its encoding into a zero struct gives the message back |
| RoundTrips.NetworkFeeRoundTrip | common/common.pb.go:5508-5646 | the same, negative heights included |
| RoundTrips.AssetRoundTrip | common/common.pb.go:3563-3768 | the same, with flags |
| RoundTrips.PriceFeedRoundTrip | common/common.pb.go:6686-6822 | the same with a list of rates, empty ones included, and negative times |
| RoundTrips.QuorumPriceFeedRoundTrip | common/common.pb.go:6945-7064 | the same with an optional feed and a list of attestations |
| RoundTrips.BatchRoundTrip | common/common.pb.go:7065-7148 | the same for a batch, three levels deep |
| Merging.FeedOnTop | common/common.pb.go:6686-6822 | a feed decoded on top of another: written scalars replace, rates are appended |
| Merging.QuorumOnTop | common/common.pb.go:6945-7064 | a quorum price feed decoded on top of another: the feeds are merged, attestations are appended |
| Merging.TwoInOneBuffer | common/common.pb.go:6974-7009 | two encoded quorum price feeds in one buffer, each with its feed field, decode to their merge |
| Merging.BatchesInOneBuffer | common/common.pb.go:7065-7148 | two encoded batches in one buffer decode to both lists one after the other |
| Merging.LooseScalars | common/common.pb.go:3688-3747 | a flag is true for any number but zero, and decimals keep the low 32 bits of theirs |
| Unmarshal.DecodeDelimited | common/common.pb.go:6722-6753 | length, sign, wrapped end index and end checks, in that order, then the slice |
| Unmarshal.DecodeUnknown | common/common.pb.go:6801-6815 | the default branch restarts at the tag and checks the skipped length |
| Unmarshal.UnmarshalOraclePrice | common/common.pb.go:7149-7236 | the loop returns what the decoding function gives, message or error |
| Unmarshal.UnmarshalPriceFeed | common/common.pb.go:6686-6822 | the same, appending decoded rates |
| Unmarshal.UnmarshalAttestation | common/common.pb.go:4854-4971 | the same |
| Unmarshal.UnmarshalQuorumPriceFeed | common/common.pb.go:6945-7064 | the same, decoding a repeated feed on top of the earlier one |
| Unmarshal.UnmarshalBatch | common/common.pb.go:7065-7148 | the same |
| Unmarshal.UnmarshalNetworkFee | common/common.pb.go:5508-5646 | the same |
| Unmarshal.UnmarshalErrataTx | common/common.pb.go:6330-6443 | the same |
| Unmarshal.UnmarshalAsset | common/common.pb.go:3563-3768 | the same |
| Buffers.EncodeVarintCommon | common/common.pb.go:2627-2637 | writes the varint in the bytes just below the index it is given and no other, and returns its first index |
| Marshal.SizeOraclePrice | common/common.pb.go:3171-3184 | the size is the length of the encoding |
| Marshal.SizeAttestation | common/common.pb.go:2821-2836 | the size is the length of the encoding |
| Marshal.SizeErrataTx | common/common.pb.go:3045-3060 | the size is the length of the encoding |
| Marshal.SizeNetworkFee | common/common.pb.go:2921-2941 | the size is the length of the encoding |
| Marshal.SizeAsset | common/common.pb.go:2638-2666 | the size is the length of the encoding |
| Marshal.SizePriceFeed | common/common.pb.go:3098-3118 | the loop sums to the length of the encoding |
| Marshal.SizeQuorumPriceFeed | common/common.pb.go:3137-3154 | the loop sums to the length of the encoding |
| Marshal.SizeBatch | common/common.pb.go:3156-3169 | the loop sums to the length of the encoding |
| Marshal.MarshalOraclePriceToSizedBuffer | common/common.pb.go:2516-2532 | fills exactly its own length below the index with the encoding, touching nothing else |
| Marshal.MarshalAttestationToSizedBuffer | common/common.pb.go:1639-1659 | fills exactly its own length below the index with the encoding, touching nothing else |
| Marshal.MarshalErrataTxToSizedBuffer | common/common.pb.go:2201-2221 | fills exactly its own length below the index with the encoding, touching nothing else |
| Marshal.MarshalNetworkFeeToSizedBuffer | common/common.pb.go:1901-1929 | fills exactly its own length below the index with the encoding, touching nothing else |
| Marshal.MarshalAssetToSizedBuffer | common/common.pb.go:1210-1267 | fills exactly its own length below the index with the encoding, touching nothing else |
| Marshal.MarshalPriceFeedToSizedBuffer | common/common.pb.go:2334-2366 | the same, nested rates written last to first |
| Marshal.MarshalQuorumPriceFeedToSizedBuffer | common/common.pb.go:2430-2462 | the same, nested attestations and feed |
| Marshal.MarshalBatchToSizedBuffer | common/common.pb.go:2479-2499 | the same, nested quorum feeds |
| Marshal.MarshalOraclePrice | common/common.pb.go:2501-2509 | a fresh buffer of the computed size that holds the encoding from index 0 to its end |
| Marshal.MarshalAttestation | common/common.pb.go:1624-1632 | a fresh buffer of the computed size that holds the encoding from index 0 to its end |
| Marshal.MarshalErrataTx | common/common.pb.go:2186-2194 | a fresh buffer of the computed size that holds the encoding from index 0 to its end |
| Marshal.MarshalNetworkFee | common/common.pb.go:1886-1894 | a fresh buffer of the computed size that holds the encoding from index 0 to its end |
| Marshal.MarshalAsset | common/common.pb.go:1195-1203 | a fresh buffer of the computed size that holds the encoding from index 0 to its end |
| Marshal.MarshalPriceFeed | common/common.pb.go:2319-2327 | a fresh buffer of the computed size that holds the encoding from index 0 to its end |
| Marshal.MarshalQuorumPriceFeed | common/common.pb.go:2415-2423 | a fresh buffer of the computed size that holds the encoding from index 0 to its end |
| Marshal.MarshalBatch | common/common.pb.go:2464-2472 | a fresh buffer of the computed size that holds the encoding from index 0 to its end |
| MessageEquality.AttestationEqualsIsSameBytes | common/common.go:24-32 | equal exactly when the encodings are the same bytes |
| MessageEquality.NetworkFeeEqualsIsSameBytes | common/common.go:60-74 | equal exactly when the signed bytes are the same |
| MessageEquality.ErrataTxEqualsIsSameBytes | common/common.go:131-139 | equal exactly when the signed bytes are the same |
| MessageEquality.PriceFeedEquals | common/common.go:163-185 | the comparison loop is true exactly when both feeds are present and have the same signed bytes |
| MessageEquality.RemoveAttestationsFrom | common/common.go:288-305 | the nested loops keep exactly the attestations without an equal one in the argument, in order |
| MessageEquality.SurvivingCounts | common/common.go:288-305 | each attestation keeps all of its copies or none |
| MessageEquality.SurvivingTwice | common/common.go:288-305 | removing two batches in turn, in either order, is removing them at once |
| MessageEquality.QuorumNetworkFee.RemoveAttestations | common/common.go:220-224 | updates the field and answers whether every attestation was in the argument |
| AddressCache.AddressBook.GetAddress | common/pubkey.go:102-184 | one call: a hit, or the derivation of the chain by its literal name; a derived address is stored under its key, nothing else changes, and a failure stores nothing |
| AddressCache.UncachedIsDispatched | common/pubkey.go:117-176 | by literal name: GAIA, THOR and NOBLE bech32, BTC bitcoin, ZEC zcash, any spelling of five EVM names the EVM address, any other text none |
| AddressCache.LoneCallIsDispatched | common/pubkey.go:102-184 | in every run with one call that call returns the derivation of its chain |
| AddressCache.RunKeepsInv | common/pubkey.go:102-184 | every interleaving keeps the entries right, the lock exclusive, and every carried or returned address explained |
| AddressCache.NoRace | common/pubkey.go:109-114 | while one caller may write the map no other holds the lock |
| AddressCache.NoDeadlock | common/pubkey.go:109-182 | as long as a call has not returned, some caller can move |
| AddressCache.EveryCallReturns | common/pubkey.go:102-184 | every run can go on, without new calls, until every call that was started has returned |
| AddressCache.RunsAreBounded | common/pubkey.go:102-184 | a run has at most eight actions for each call it starts, so no schedule keeps the callers busy for ever |
| AddressCache.EntriesAreDerivations | common/pubkey.go:180-182 | an entry is the successful uncached derivation for the chain and key its text spells, and never changes |
| AddressCache.CacheVisibleIff | common/pubkey.go:108-118 | some interleaving makes a call differ from its uncached answer exactly when its arguments are shadowed |
| AddressCache.ValidChainNotShadowed | common/pubkey.go:108-118 | with a chain of upper-case letters every call in every interleaving returns its uncached answer |
| AddressCache.SpellingShadowed | common/pubkey.go:108-118 | for every argument: the cache shows exactly for another spelling of one of five names or a text with a dash, once the chain and key that the cache key spells derive |
| AddressCache.LowerBtcShadowed | common/pubkey.go:108-118 | `btc` returns no address without the cache and another answer with it |
| Assets.NewAssetIsCanonical | common/asset.go:67-114 | a parsed asset has a valid chain, an upper-case symbol, the matching ticker and at most one flag |
| Assets.NewAssetIff | common/asset.go:67-114 | in literals: exactly which texts are accepted, and the asset each gives |
| Text.CaseTable | common/chain.go:86 | upper-casing and lower-casing letter by letter, and nothing but letters |
| Text.EqualFoldIsSameLower | common/chain.go:94-96 | equality up to case is equality in lower case, and in upper case character by character |
| Assets.NewAssetImage | common/asset.go:67-114 | those are exactly the assets that some input parses to |
| Assets.ParseAnyCase | common/asset.go:67-114 | the text of an asset parses to it in any mixture of cases |
| Assets.StringParsesBack | common/asset.go:300-312 | printing and parsing give the asset back |
| Assets.StringText | common/asset.go:300-312 | the text is in upper case: chain, the separator of the last flag, symbol |
| Assets.EqualsIsSameText | common/asset.go:173-175 | on parsed assets Equals, equal text and equality are the same |
| Assets.EqualsIsFieldwise | common/asset.go:173-175 | on any assets: every text up to case and every flag |
| Assets.NativeText | common/asset.go:271-292 | the denom has no upper-case letter; eight named assets have their literal texts, all others their own text in lower case |
| Assets.NativeParsesBack | common/asset.go:271-292 | every denom parses back to its asset, except the one of RUJI, which does not parse |
| Assets.NativeInjective | common/asset.go:271-292 | two different assets never share a denom |
| Coins.CoinTextRoundTrip | common/coin.go:33-53 | the text of a coin parses to an equal coin, with no decimals |
| Coins.DecimalCoinTextRoundTrip | common/coin.go:33-53 | with a plain decimal number parser it does for every amount |
| Coins.ParseCoinIff | common/coin.go:33-53 | exactly which texts are accepted: one space with a number before it and an asset behind it |
| Coins.CoinStringParts | common/coin.go:111-113 | the digits of the amount without a leading zero, one space, the text of the asset |
| Coins.CoinEqualsIsFieldwise | common/coin.go:63-66 | coins are equal by amount and by asset up to case, whatever their decimals |
| Coins.Add | common/coin.go:221-241 | the nested loops add each coin to the first entry of its asset or append it |
| Coins.AddConserves | common/coin.go:221-241 | the total of every asset is conserved, whatever duplicates there are |
| Coins.AddKeepsDupFree | common/coin.go:221-241 | a list without duplicates stays without |
| Coins.SafeSub | common/coin.go:243-257 | the nested loops take each coin off the first entry of its asset, down to zero |
| Coins.SafeSubLeaves | common/coin.go:243-257 | on any list the sum of the subtractions comes off the first entry, as far as it goes |
| Coins.SafeSubOfDupFree | common/coin.go:243-257 | on a list without duplicates: the old balance less the subtractions, or zero |
| Coins.SafeSubExact | common/coin.go:243-257 | in general that holds exactly when the first entry bears the subtraction or is the whole balance |
| Coins.AddThenSubRestores | common/coin.go:221-257 | adding and subtracting the same coins restores the list entry by entry, followed by empty entries |
| Coins.AddThenSubBalances | common/coin.go:221-257 | adding and subtracting the same coins restores every balance |
| ListEquality.PubKeysEquals | common/pubkey.go:237-260 | true exactly when the two lists are the same multiset |
| ListEquality.CoinsEqualsEx | common/coin.go:133-157 | true only for the same coins in some order, and true for them when coins with equal text are equal, as with distinct texts |
| ListEquality.AlwaysEqualIff | common/coin.go:133-157 | whatever the sort does with equal keys the answer is true exactly under that condition |
| ListEquality.CanBeEqualIff | common/coin.go:133-157 | for some order of equal keys the answer is true exactly for the same coins in some order |
| ListEquality.TwoAmounts | common/coin.go:133-157 | two amounts of one asset in both orders can compare equal and unequal |
| ListEquality.AlwaysLeftIff | common/gas.go:103-108 | sorting in place certainly leaves a list as it was exactly when it is sorted and coins with one text are identical, and certainly changes it exactly when it is not sorted |
| Sorting.LessIsLexicographic | common/gas.go:103-108 | the order of the sort is decided at the first difference or where one text ends |
| Gas.GasEquals | common/gas.go:97-117 | with equal lengths each argument is left as an arrangement of itself, unchanged when settled, changed when unsorted, and the answer compares the arrangements; with other lengths nothing changes |
| Gas.AddsDeprecated | common/gas.go:78-94 | the receiver is changed in place at every entry of the asset, unmatched coins are appended unmerged; a list added to itself is read as it grows |
| Gas.UnmatchedConcat | common/gas.go:78-94 | coins that find no entry are appended one by one, as they are and in their order |
| Gas.AddsDeprecatedTotal | common/gas.go:78-94 | the balances after it, on any lists |
| Gas.AddsDeprecatedConservesIff | common/gas.go:78-94 | it conserves an asset exactly when the asset has at most one entry or nothing is added |
| Gas.AddedTwice | common/gas.go:78-94 | one coin added to two entries of its asset counts twice |
| Gas.SelfDoublesIff | common/gas.go:78-94 | a list added to itself doubles an asset exactly when the asset has at most one entry or no balance |
| Gas.AddedToItself | common/gas.go:78-94 | two entries of one unit added to themselves come to eight units |
| Txs.Tx.EqualsEx | common/tx.go:162-185 | the answer and both gas lists after it, for every way the sorts can come out: false when any one text differs; untouched when a text, the coins or the lengths differ or the list is settled, sorted when the comparison reaches the gas |
| Txs.GasLeftIff | common/tx.go:160-180 | both gas lists are certain to be left as they were exactly when a text, the coins or the lengths differ or both lists are settled |
| Txs.AnswerIff | common/tx.go:162-185 | the answer can be true exactly for transactions that agree up to the order of their lists, and is certain to be exactly when coins that sort alike are equal besides |
| Txs.SameTextIs | common/tx.go:162-173 | id, chain and both addresses are each compared, up to case |
| Txs.CopyReordersGas | common/tx.go:160-180 | a transaction with unsorted gas compared with its copy: both gas lists are turned round |
| TxIds.NewTxIDFolds | common/tx.go:32-59 | an accepted id equals its input up to case |
| TxIds.NewTxIDIs | common/tx.go:32-59 | exactly which texts are accepted and which id each gives: indexed hashes and 87 or 88 characters as they are, 64 characters and 66 with 0x in upper case |
| TxIds.BlankIs | common/tx.go:26 | the blank id is 64 zeros |
| TxIds.HexTable | common/tx.go:28 | the hex digits, in literals |
| TxIds.EvmIdNotAcceptedAgain | common/tx.go:47-58 | the id made from an EVM hash is rejected when parsed again |
| TxIds.OtherIdsAcceptedAgain | common/tx.go:32-59 | every other id is accepted unchanged |
| TxIds.AcceptanceFolds | common/tx.go:32-59 | two spellings of one id differ in acceptance only by the case of the EVM prefix |
| ObservedTxs.ObservedTx.GetSigners | common/type_observed_tx.go:102-112 | the loop keeps the texts that decode |
| ObservedTxs.ObservedTx.HasSigned | common/type_observed_tx.go:120-127 | true exactly when some stored text decodes to the signer |
| ObservedTxs.ObservedTx.Sign | common/type_observed_tx.go:131-137 | appends and answers true exactly when the signer was not there |
| ObservedTxs.ObservedTx.GetOutHashes | common/type_observed_tx.go:89-99 | the loop gives the ids of the accepted hashes, entry by entry and in their order |
| ObservedTxs.ObservedTx.SetDone | common/type_observed_tx.go:140-155 | appends unless a non-blank hash is recorded already, and sets the status when enough are there |
| ObservedTxs.DoneWhenEnough | common/type_observed_tx.go:140-160 | over any run, done exactly when enough hashes are recorded stays true |
| ObservedTxs.FreshDoneIff | common/type_observed_tx.go:140-160 | from a fresh transaction, for every numOuts: done exactly when there was a call and enough hashes |
| ObservedTxs.RunRecords | common/type_observed_tx.go:140-155 | after a run exactly the accepted hashes passed in are recognised |
| ObservedTxs.RunAppends | common/type_observed_tx.go:140-155 | a run leaves the hashes from before it in front and appends only hashes passed in, as they are |
| ObservedTxs.RunKeepsDifferent | common/type_observed_tx.go:140-155 | with accepted hashes, recorded non-blank ones stay different up to case |
| ObservedTxs.RunCount | common/type_observed_tx.go:140-155 | the final number of hashes as a count that does not mention the order |
| ObservedTxs.OrderMattersIff | common/type_observed_tx.go:140-155 | the final number depends on the call order exactly when an id comes in an accepted and a rejected spelling |
| ObservedTxs.StatusOrderMattersIff | common/type_observed_tx.go:140-160 | the same condition decides whether the final status can depend on the call order |
| ObservedTxs.AcceptedInAnyOrder | common/type_observed_tx.go:140-160 | with accepted hashes the final number and the status are the same in every order |
| ObservedTxs.BothPrefixes | common/type_observed_tx.go:140-155 | an EVM hash passed with both prefixes is an input whose order matters |
| ObservedTxs.OrderFreeWithoutEvm | common/type_observed_tx.go:140-155 | without 0x hashes of 66 characters no order matters |
| ObservedTxs.SignRun | common/type_observed_tx.go:102-137 | over any run: signed exactly when passed in, no duplicates, one entry for each true answer |
| ObservedTxs.SignRunAppends | common/type_observed_tx.go:131-137 | a run leaves the signers from before it in front and appends only texts of signers passed in |
| ObservedTxs.SignTwice | common/type_observed_tx.go:131-137 | a signer is listed twice exactly when its text does not decode back to it |
| Shares.GetUncappedShare | common/type_convert.go:33-62 | the share is the half-up rounding of allocation times part over total, zero for a zero total |
| Shares.GetSafeShare | common/type_convert.go:23-28 | the same up to the total, never more than the allocation, all of it from the total on |
| Shares.HalfUpUnique | common/type_convert.go:33-62 | the rounding condition determines the share |
| Shares.ShareMonotone | common/type_convert.go:23-62 | a larger part never gets a smaller share |
| Shares.SharesSumToAllocation | common/type_convert.go:33-62 | shares of parts that make up the total differ in sum from the allocation by at most half a unit each |
| Shares.ComplementaryShares | common/type_convert.go:33-62 | two complementary parts get the allocation, and one more exactly at a tie |
| Decimals.ThroughFineScale | common/decimals.go:8-28 | for every signed amount a detour over a fine enough scale makes no difference |
| Decimals.DetourIff | common/decimals.go:8-28 | it makes none exactly then or when the digits cut off are zero |
| Decimals.ConvertDecimalsIs | common/decimals.go:8-28 | rejected exactly for a negative scale; exact upwards, rounded towards minus infinity downwards |
| OraclePrices.NewOraclePrice | common/oracle_price.go:15-69 | the method with its loop gives the price of the text |
| OraclePrices.TextWithDot | common/oracle_price.go:20-24 | that is the price of what stands on the two sides of the dot, an error for a second dot |
| OraclePrices.TextWithoutDot | common/oracle_price.go:20-24 | without a dot the whole text is the integer part |
| OraclePrices.CountPlaces | common/oracle_price.go:36-52 | the loop stops four places after the leading zeros, at 18 digits or at the end |
| OraclePrices.PriceIsTruncation | common/oracle_price.go:15-69 | the price is exactly the number truncated there, without a trailing zero, below 10^18 |
| OraclePrices.TextTruncation | common/oracle_price.go:15-69 | the same for the text with its dot, in literals: four places after the leading zeros, eighteen digits |
| OraclePrices.TooLongRejected | common/oracle_price.go:27-30 | among digit texts exactly those with more than 18 integer digits are rejected |
| OraclePrices.SignRejected | common/oracle_price.go:60-63 | a sign makes the parse fail |
| SignificantFigures.RoundSignificantFigures | common/significant_figures.go:5-31 | for one digit or more the multiple of ten to the dropped digits at or below the number, without overflow; for fewer, zero, the number itself or the multiple of the wrapped divisor; the division by zero exactly when the wrapped exponent is 64 or more |
| SignificantFigures.RoundedBounds | common/significant_figures.go:5-31 | at most the input and within one unit of the last kept digit |
| SignificantFigures.RoundedIs | common/significant_figures.go:5-31 | the result is the one multiple of the unit within a unit below the input, or the input when no digit is dropped |
| SignificantFigures.KeepsDigits | common/significant_figures.go:5-31 | the same number of digits |
| SignificantFigures.RoundedIdempotent | common/significant_figures.go:5-31 | rounding twice is rounding once |
| SignificantFigures.RoundedMonotone | common/significant_figures.go:5-31 | monotone, across changes of length too |

## Left out

- The codecs of Coin, Tx, Fee, ProtoUint, ObservedTx, Solvency and the messages that hold them: they encode amounts by a type outside the repository.
- The contents of a message after a failed `Unmarshal`, pointer identity of submessages, nil against empty slices, and nil elements of lists, on which the encoders panic.
- `MarshalTo`: the same call as `Marshal` on a buffer of the caller's.
- Unmarshal.UnmarshalOraclePrice: like the other Unmarshal methods it works on a message value that it returns, not on a receiver that it updates.
- Gas.AddsDeprecated: receiver and argument are one array or two; slices that overlap in part, and the spare capacity that `append` may reuse, are not covered.
- Coins.CoinTextRoundTrip: says nothing of texts that `Coin.String` does not print, because the foreign number parser decides those.
- The address derivations themselves, bech32, base58 and the chain libraries; the priority that a waiting writer has over new readers of the lock, which only removes interleavings.
- Short codes, per-chain tables, `Asset.Valid`, `EqualsExIgnoreGas`, `ObservedTx.Equals` and the other accessors: they would only add easy members.
- Floating point (`OraclePrice.BigFloat`, medians, deviations), hashing, signing and JSON.
- Overflow panics of 256-bit amounts, and upper-casing outside ASCII.
- The api, app, bifrost, cmd, config, constants and x trees.
