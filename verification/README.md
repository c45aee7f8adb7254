# Verified model of firehose-stellar

A Dafny project that models the parts of firehose-stellar where data is encoded, rewritten,
compared or resumed, and proves what those parts are for. `dafny verify dfyconfig.toml` checks
all of it.

The system reads closed Stellar ledgers, from a captive stellar-core or over JSON-RPC, turns each
into a block in protocol buffers, and stores blocks in hundred-block bundles. Around that there
are tools that repair the hashes an earlier fetcher stored wrongly, that compare two stores, and
that normalise and compare decoded payloads as JSON trees.

| modules | what they model |
|---|---|
| `Base`, `Varints`, `Bits`, `Wire`, `Messages` | Go's integer widths; the Protocol Buffers encoding ("Base 128 Varints", "Message Structure", "Last One Wins") as a forward specification, and the six messages as values |
| `RoundTrip`, `Canonical`, `Merging` | what encoding and decoding do to each other; the one form the encoder writes, stated from `block.proto` without it; what decoding into a message that already holds something does |
| `WireIO`, `LeafObjects`, `EventsObject`, `TransactionObject`, `BlockObject` | the generated code in its own form: classes with fields, a buffer filled from the back, a tag-driven decoding loop, each proved against the specification |
| `TextCodecs`, `Bstream` | hex and base64 (RFC 4648), decimal numbers; bstream blocks, packed payloads, bundles |
| `FixHashes`, `Sanitize` | the hash recovery, the rewrite of a store, and the comparison tool's two in-place rewrites |
| `CompareBlocks`, `CompareStores`, `CompareOneblock` | the transaction matcher, the two walks over bundles, the flat path over one-block files, all against one set-level specification |
| `ComparePrepared` | what that comparison decides, said on the blocks as they are stored |
| `JsonTree`, `JsonNormal`, `JsonTwice`, `JsonNoise` | the three JSON rewrites as pure functions, what they achieve, when one run is enough, and exactly which differences each of them hides |
| `JsonHeap`, `JsonWalks` | the same rewrites in place over maps and arrays, keys visited in any order |
| `Snapshot` | templating and structural difference |
| `Resume` | the captive-core fetcher and its cursor as a state machine, and the process itself |
| `Ledger`, `LedgerMessage` | both ledger conversions and the direct construction they equal; what the resulting block says, on the ledger itself |
| `Pagination` | the paging loop |

Specification functions are not the last word: what each computes is stated a second time on the
inputs, by position, by membership or by an independent definition, up to "there is only one such
result" (`Canonical.BlockForm`, `LedgerMessage.SaidOnce`, `Snapshot.TemplatedOnce`,
`Sanitize.StripIsTheCleanOne`, `FixHashes.FixedSelection`).

Two properties do not hold everywhere; each comes with the exact condition under which it holds,
on what goes in, and with an input on which it fails:

- The three JSON passes are each idempotent but their sequence is not (`JsonTwice.NormalizeTwice`).
- Emission is in order only when the cursor is in use (`Resume.OrderedExactlyWhenResuming`).

Two more remarks belong beside the results:

- `cursor/cursor.go:86` does not write the cursor atomically. Order is safe all the same, but a
  crash in the middle of that write leaves a file that does not decode, and a fetcher that uses the
  cursor then never emits again (`Resume.EmitsAgainExactlyWhen`, `Resume.CrashWhileSavingIsFinal`).
- The two fetchers look at metadata versions 1 and 2 in opposite order. `Ledger.BackendsAgreeExactly`
  says exactly when that matters. Close metadata is a union with one arm set when it is decoded from
  XDR, so only metadata put together by hand can violate the condition (`Ledger.TwoArmsDisagree`).

One comment in the repository does not describe the code: `test/lib/snapshot/snapshot.go:157-159`
says that sorting replacements by length settles which of two names for one value is used. Names
for one value have values of equal length, so it does not (`Snapshot.EqualValuesLeaveItOpen`).

How the model stands to the code:

- `protohelpers.EncodeVarint`, `SizeOfVarint` and `Skip` and the generated code of
  `google.protobuf.Timestamp` are not part of the repository. They are written out in `WireIO`,
  `Varints` and `LeafObjects.Timestamp` and proved like the rest.
- Go's `|=` of shifted seven-bit groups is a bitwise or (`Bits.Or`) of groups cut to the
  accumulator's width; that it adds them is proved.
- A class has the fields of the Go struct. `Value()` is the message it stands for; a nil element of
  a repeated field stands for an empty message, nil bytes for empty bytes, while a nil sub-message
  differs from an empty one. A method's contract ties the new value to the old one.
- Where a Go map is ranged over, the model picks keys in an arbitrary order, so a contract holds for
  every order.
- What is only parameters here: which diagnostic events are non-deterministic, the strkey encoding
  of 32 bytes, which calls of the fetcher process fail, how the RPC server cuts its pages.

## Model

| member | source | states |
|---|---|---|
| `Varints.VarintRoundTrip` | pb/sf/stellar/type/v1/block_vtproto.pb.go:1182-1197 | A 64-bit value written as base-128 groups is read back by the shift loop, whatever bytes follow it |
| `Varints.SizeOfVarintIsExact` | pb/sf/stellar/type/v1/block_vtproto.pb.go:1042-1055 | The closed form the size pass uses counts exactly the bytes the encoder writes |
| `Varints.ReadVarintLocal` | pb/sf/stellar/type/v1/block_vtproto.pb.go:1182-1197 | What a varint reads depends only on the bytes it takes |
| `Varints.ReadVarintExactly` | pb/sf/stellar/type/v1/block_vtproto.pb.go:1182-1197 | A varint is read exactly when one of the first ten bytes ends it; its value is the number its seven-bit groups spell, cut to 64 bits |
| `Wire.ReadFieldLocal` | pb/sf/stellar/type/v1/block_vtproto.pb.go:1176-1404 | A field is read the same from any input that starts with its bytes, also when it is an unknown group skipped whole |
| `Wire.ReadsWhatSkipSkips` | pb/sf/stellar/type/v1/block_vtproto.pb.go:1199-1223 | A field, known or not, takes the bytes skipping it would take; it is refused exactly when it cannot be skipped, its number is not positive, or it is known under another wire type |
| `Wire.DecodeConcat` | pb/sf/stellar/type/v1/block_vtproto.pb.go:1176-1404 | If `a` decodes into a message, then `a + b` decodes, with the same success or failure and the same result, as `a` and then `b` |
| `Wire.KeptFieldIsUnknown` | pb/sf/stellar/type/v1/block_vtproto.pb.go:1383-1397 | What the default branch keeps of one unknown field is again a whole unknown field |
| `Wire.OnlyUnknownConcat` | pb/sf/stellar/type/v1/block_vtproto.pb.go:1383-1397 | Runs of whole unknown fields are closed under appending |
| `Wire.DecodeOnlyUnknown` | pb/sf/stellar/type/v1/block_vtproto.pb.go:1383-1397 | Decoding a run of whole unknown fields appends it, unchanged, to the message and touches nothing else |
| `Wire.DecodePreserves` | pb/sf/stellar/type/v1/block_vtproto.pb.go:1176-1404 | What every field merge and every kept field preserves, decoding preserves |
| `Wire.DecodeVarintRecord` | pb/sf/stellar/type/v1/block_vtproto.pb.go:1205-1223 | Decoding goes on after one encoded scalar as if its value had been merged |
| `Wire.DecodeBytesRecord` | pb/sf/stellar/type/v1/block_vtproto.pb.go:1224-1256 | Decoding goes on after one encoded byte string or sub-message as if its payload had been merged |
| `RoundTrip.TimestampRoundTrip` | pb/sf/stellar/type/v1/block_vtproto.pb.go:404-412 | A timestamp whose unknown bytes are whole unknown fields survives encoding and decoding |
| `RoundTrip.HeaderRoundTrip` | pb/sf/stellar/type/v1/block_vtproto.pb.go:474-514 | The same for a header, with its 32-bit truncations |
| `RoundTrip.ContractEventRoundTrip` | pb/sf/stellar/type/v1/block_vtproto.pb.go:681-703 | The same for a group of contract events |
| `RoundTrip.EventsRoundTrip` | pb/sf/stellar/type/v1/block_vtproto.pb.go:618-661 | The same for events, nested groups included |
| `RoundTrip.TransactionRoundTrip` | pb/sf/stellar/type/v1/block_vtproto.pb.go:534-598 | The same for a transaction; the enum sign-extends on encode and truncates on decode |
| `RoundTrip.BlockRoundTrip` | pb/sf/stellar/type/v1/block_vtproto.pb.go:392-454 | Marshal then unmarshal restores every block whose unknown bytes are, at every level, whole unknown fields |
| `RoundTrip.DecodedBlockIsOk` | pb/sf/stellar/type/v1/block_vtproto.pb.go:1176-1404 | Every block that comes out of the decoder has only whole unknown fields as unknown bytes, at every level |
| `RoundTrip.DecodeEncodeDecode` | pb/sf/stellar/type/v1/block_vtproto.pb.go:374-454 | For every byte string that decodes, the resulting block encodes to bytes that decode to it again |
| `RoundTrip.RoundTripsExactlyWhenOk` | pb/sf/stellar/type/v1/block_vtproto.pb.go:374-454 | A block round-trips if and only if its unknown bytes are whole unknown fields at every level |
| `RoundTrip.DecodableExactlyWhenOk` | pb/sf/stellar/type/v1/block_vtproto.pb.go:1176-1404 | A block can come out of the decoder if and only if its unknown bytes are whole unknown fields at every level |
| `RoundTrip.UnknownBytesCanBeReadAsFields` | pb/sf/stellar/type/v1/block_vtproto.pb.go:400-403 | A concrete block with arbitrary unknown bytes that does not round-trip: the bytes read back as the block number |
| `RoundTrip.EncodingIsInjective` | pb/sf/stellar/type/v1/block_vtproto.pb.go:182-222 | Two blocks whose unknown bytes are whole unknown fields, so any that come out of the decoder, have the same encoding exactly when they are equal |
| `RoundTrip.PlainEncodingIsInjective` | pb/sf/stellar/type/v1/block_vtproto.pb.go:182-222 | In particular two blocks without unknown bytes |
| `RoundTrip.ConcatenationMerges` | pb/sf/stellar/type/v1/block_vtproto.pb.go:1176-1404 | The merge law for blocks: decoding a concatenation is decoding its parts one after the other |
| `Merging.LastOneWinsInTimestamp` | pb/sf/stellar/type/v1/block_vtproto.pb.go:1347-1382 | Whatever was decoded before, the last seconds and nanos on the wire win, also when they are zero, and touch nothing else |
| `Merging.LastOneWinsInHeader` | pb/sf/stellar/type/v1/block_vtproto.pb.go:1434-1543 | The same for every field of a header, an empty hash included |
| `Merging.LastOneWinsInTransaction` | pb/sf/stellar/type/v1/block_vtproto.pb.go:1595-1806 | The same for the scalars and byte strings of a transaction |
| `Merging.LastOneWinsInBlock` | pb/sf/stellar/type/v1/block_vtproto.pb.go:1205-1312 | The same for the scalars and the hash of a block |
| `Merging.SplitHeader` | pb/sf/stellar/type/v1/block_vtproto.pb.go:1258-1293 | A header that comes in two records is merged as if it had come in one |
| `Merging.SplitBlockTime` | pb/sf/stellar/type/v1/block_vtproto.pb.go:1347-1382 | So is the timestamp of a block |
| `Merging.SplitTransactionTime` | pb/sf/stellar/type/v1/block_vtproto.pb.go:1648-1683 | So is the timestamp of a transaction |
| `Merging.SplitEvents` | pb/sf/stellar/type/v1/block_vtproto.pb.go:1771-1806 | So are the events of a transaction |
| `Merging.TransactionsAreAppended` | pb/sf/stellar/type/v1/block_vtproto.pb.go:1313-1346 | A transaction is appended as it decodes on its own, whatever the block holds already |
| `Canonical.TimestampForm` | pb/sf/stellar/type/v1/block_vtproto.pb.go:404-412 | Of all byte strings that decode to a timestamp, its encoding is the one in canonical form |
| `Canonical.HeaderForm` | pb/sf/stellar/type/v1/block_vtproto.pb.go:474-514 | The same for a header: fields as proto/sf/stellar/type/v1/block.proto declares them, in ascending order, zero scalars and empty byte strings left out, every varint as short as can be, unknown bytes last |
| `Canonical.ContractEventForm` | pb/sf/stellar/type/v1/block_vtproto.pb.go:681-703 | The same for a group of contract events |
| `Canonical.EventsForm` | pb/sf/stellar/type/v1/block_vtproto.pb.go:618-661 | The same for events; repeated fields together, nested groups canonical |
| `Canonical.TransactionForm` | pb/sf/stellar/type/v1/block_vtproto.pb.go:534-598 | The same for a transaction; the enum sign-extended |
| `Canonical.BlockForm` | pb/sf/stellar/type/v1/block_vtproto.pb.go:392-454 | A byte string is what the encoder writes for a block exactly when it decodes to that block and is canonical at every level |
| `WireIO.EncodeVarint` | pb/sf/stellar/type/v1/block_vtproto.pb.go:448-453 | The backward varint writer puts exactly the varint just before the given offset and leaves all other bytes |
| `WireIO.WriteBytesField` | pb/sf/stellar/type/v1/block_vtproto.pb.go:441-447 | Copying, length and tag written backward give the forward record, and every earlier byte is kept |
| `WireIO.WriteMessageHead` | pb/sf/stellar/type/v1/block_vtproto.pb.go:431-440 | A sub-message already in place gets its length and tag in front |
| `WireIO.WriteRepeatedBytes` | pb/sf/stellar/type/v1/block_vtproto.pb.go:642-659 | The backward loop over a repeated field writes the elements in forward order |
| `WireIO.ReadUvarint` | pb/sf/stellar/type/v1/block_vtproto.pb.go:1182-1197 | The shift loop returns the number the specification reads, cut to the accumulator width, or the overflow or end-of-input error, in exactly those cases; every access is in bounds |
| `Bits.OrAbove` | pb/sf/stellar/type/v1/block_vtproto.pb.go:1182-1197 | Or-ing bits that lie above those already there adds them |
| `Bits.ShiftInLow` | pb/sf/stellar/type/v1/block_vtproto.pb.go:1205-1223 | Or-ing a seven-bit group, shifted and cut to 32 or 64 bits, into what the accumulator kept of the groups before it gives what it keeps of their sum |
| `WireIO.ReadBounds` | pb/sf/stellar/type/v1/block_vtproto.pb.go:1228-1252 | Under wrap-around length arithmetic the checks accept a length exactly when the payload lies within the input |
| `WireIO.ReadTag` | pb/sf/stellar/type/v1/block_vtproto.pb.go:1182-1204 | A tag is accepted exactly when its number is positive after truncation to 32 bits and it does not close a group |
| `WireIO.SkipField` | pb/sf/stellar/type/v1/block_vtproto.pb.go:1383-1393 | Skipping returns the size of the field, open groups included, or fails, as specified; it consumes at least one byte |
| `WireIO.SkipUnknown` | pb/sf/stellar/type/v1/block_vtproto.pb.go:1383-1397 | The default branch takes an unknown field whole, tag included, within the input |
| `LeafObjects.Header.SizeVT` | pb/sf/stellar/type/v1/block_vtproto.pb.go:1070-1094 | The size of a header is the length of the forward encoding |
| `LeafObjects.Header.MarshalToSizedBufferVT` | pb/sf/stellar/type/v1/block_vtproto.pb.go:474-514 | On any buffer with room, the backward writer puts exactly the forward encoding of a header at the end, keeps every other byte and never leaves the buffer |
| `LeafObjects.Header.MarshalVT` | pb/sf/stellar/type/v1/block_vtproto.pb.go:456-467 | Returns exactly the forward encoding |
| `LeafObjects.Header.UnmarshalVT` | pb/sf/stellar/type/v1/block_vtproto.pb.go:1405-1565 | Ends on every input; it succeeds exactly when the specification decodes it into the current value, and then holds that result |
| `LeafObjects.Header.EqualVT` | pb/sf/stellar/type/v1/block_vtproto.pb.go:230-252 | True exactly when both are nil or both have equal values, a nil element counting as an empty message; so it is an equivalence |
| `LeafObjects.Header.CloneVT` | pb/sf/stellar/type/v1/block_vtproto.pb.go:56-75 | A fresh copy of a header, sharing nothing, with the same value; nil stays nil |
| `LeafObjects.ContractEvent.SizeVT` | pb/sf/stellar/type/v1/block_vtproto.pb.go:1160-1174 | The size of a group of contract events is the length of the forward encoding |
| `LeafObjects.ContractEvent.MarshalToSizedBufferVT` | pb/sf/stellar/type/v1/block_vtproto.pb.go:681-703 | On any buffer with room, the backward writer puts exactly the forward encoding of a group of contract events at the end, keeps every other byte and never leaves the buffer |
| `LeafObjects.ContractEvent.MarshalVT` | pb/sf/stellar/type/v1/block_vtproto.pb.go:663-674 | Returns exactly the forward encoding |
| `LeafObjects.ContractEvent.UnmarshalVT` | pb/sf/stellar/type/v1/block_vtproto.pb.go:1978-2060 | Ends on every input; it succeeds exactly when the specification decodes it into the current value, and then holds that result |
| `LeafObjects.ContractEvent.EqualVT` | pb/sf/stellar/type/v1/block_vtproto.pb.go:349-365 | True exactly when both are nil or both have equal values, a nil element counting as an empty message; so it is an equivalence |
| `LeafObjects.ContractEvent.CloneVT` | pb/sf/stellar/type/v1/block_vtproto.pb.go:157-176 | A fresh copy of a group of contract events, sharing nothing, with the same value; nil stays nil |
| `EventsObject.Events.SizeVT` | pb/sf/stellar/type/v1/block_vtproto.pb.go:1132-1158 | The size of a transaction's events is the length of the forward encoding |
| `EventsObject.Events.MarshalToSizedBufferVT` | pb/sf/stellar/type/v1/block_vtproto.pb.go:618-661 | On any buffer with room, the backward writer puts exactly the forward encoding of a transaction's events at the end, keeps every other byte and never leaves the buffer |
| `EventsObject.Events.MarshalVT` | pb/sf/stellar/type/v1/block_vtproto.pb.go:600-611 | Returns exactly the forward encoding |
| `EventsObject.Events.UnmarshalVT` | pb/sf/stellar/type/v1/block_vtproto.pb.go:1829-1977 | Ends on every input; it succeeds exactly when the specification decodes it into the current value, and then holds that result |
| `EventsObject.Events.EqualVT` | pb/sf/stellar/type/v1/block_vtproto.pb.go:298-340 | True exactly when both are nil or both have equal values, a nil element counting as an empty message; so it is an equivalence |
| `EventsObject.Events.CloneVT` | pb/sf/stellar/type/v1/block_vtproto.pb.go:116-151 | A fresh copy of a transaction's events, sharing nothing, with the same value; nil stays nil |
| `TransactionObject.Transaction.SizeVT` | pb/sf/stellar/type/v1/block_vtproto.pb.go:1096-1130 | The size of a transaction is the length of the forward encoding |
| `TransactionObject.Transaction.MarshalToSizedBufferVT` | pb/sf/stellar/type/v1/block_vtproto.pb.go:534-598 | On any buffer with room, the backward writer puts exactly the forward encoding of a transaction at the end, keeps every other byte and never leaves the buffer |
| `TransactionObject.Transaction.MarshalVT` | pb/sf/stellar/type/v1/block_vtproto.pb.go:516-527 | Returns exactly the forward encoding |
| `TransactionObject.Transaction.UnmarshalVT` | pb/sf/stellar/type/v1/block_vtproto.pb.go:1566-1828 | Ends on every input; it succeeds exactly when the specification decodes it into the current value, and then holds that result |
| `TransactionObject.Transaction.EqualVT` | pb/sf/stellar/type/v1/block_vtproto.pb.go:261-289 | True exactly when both are nil or both have equal values, a nil element counting as an empty message; so it is an equivalence |
| `TransactionObject.Transaction.CloneVT` | pb/sf/stellar/type/v1/block_vtproto.pb.go:81-110 | A fresh copy of a transaction, sharing nothing, with the same value; nil stays nil |
| `BlockObject.Block.SizeVT` | pb/sf/stellar/type/v1/block_vtproto.pb.go:1036-1068 | The size of a block is the length of the forward encoding |
| `BlockObject.Block.MarshalToSizedBufferVT` | pb/sf/stellar/type/v1/block_vtproto.pb.go:392-454 | On any buffer with room, the backward writer puts exactly the forward encoding of a block at the end, keeps every other byte and never leaves the buffer |
| `BlockObject.Block.MarshalVT` | pb/sf/stellar/type/v1/block_vtproto.pb.go:374-385 | Returns exactly the forward encoding |
| `BlockObject.Block.UnmarshalVT` | pb/sf/stellar/type/v1/block_vtproto.pb.go:1176-1404 | Ends on every input; it succeeds exactly when the specification decodes it into the current value, and then holds that result |
| `BlockObject.Block.EqualVT` | pb/sf/stellar/type/v1/block_vtproto.pb.go:182-221 | True exactly when both are nil or both have equal values, a nil element counting as an empty message; so it is an equivalence |
| `BlockObject.Block.CloneVT` | pb/sf/stellar/type/v1/block_vtproto.pb.go:24-50 | A fresh copy of a block, sharing nothing, with the same value; nil stays nil |
| `LeafObjects.Timestamp.UnmarshalVT` | pb/sf/stellar/type/v1/block_vtproto.pb.go:1347-1382 | The two-field timestamp message decodes as specified |
| `LeafObjects.Timestamp.MarshalToSizedBufferVT` | pb/sf/stellar/type/v1/block_vtproto.pb.go:404-412 | The two-field timestamp message is written exactly |
| `EventsObject.Events.MarshalContractEvents` | pb/sf/stellar/type/v1/block_vtproto.pb.go:630-641 | The nested backward loop: each group in front of what follows it |
| `BlockObject.Block.MergeField` | pb/sf/stellar/type/v1/block_vtproto.pb.go:1179-1398 | One turn of the decoding loop consumes at least one byte and merges one field, or fails as specified |
| `BlockObject.SharedTimestampIsWrittenThrough` | pb/sf/stellar/type/v1/block_vtproto.pb.go:1376-1382 | Where a transaction points to the block's own timestamp object, a merge into that object changes nothing but the block's timestamp exactly when it leaves the timestamp's value |
| `BlockObject.EqualTransactions` | pb/sf/stellar/type/v1/block_vtproto.pb.go:198-216 | The element loop: equal lengths and equal elements, nil compared as empty |
| `TextCodecs.HexRoundTrip` | cmd/tools/fix/tools_fix_block_hashes.go:198-204 | Hex text, section 8 of RFC 4648 in lower case, decodes to the bytes it was made from |
| `TextCodecs.DecodeHexExactly` | cmd/tools/fix/tools_fix_block_hashes.go:229-239 | Hex decoding succeeds exactly on even-length hex of either case and loses only the case |
| `TextCodecs.HexSpellsTheBytes` | cmd/tools/fix/tools_fix_block_hashes.go:198-204 | Read as a number in base 16, hex text is the number its bytes spell in base 256: high digit first, first byte first |
| `TextCodecs.B64RoundTrip` | captivecore/captivecore.go:402-413 | Base64 text, section 4 of RFC 4648 with padding, decodes to the bytes it was made from |
| `TextCodecs.QuadSpellsTheTriple` | cmd/tools/fix/tools_fix_block_hashes.go:229-234 | Four base64 characters spell, in base 64, the number their three bytes spell in base 256 |
| `TextCodecs.B64TextRoundTrip` | cmd/tools/fix/tools_fix_block_hashes.go:229-234 | Unpadded base64 text of whole quads survives being decoded and encoded again |
| `TextCodecs.UnpaddedLength` | cmd/tools/fix/tools_fix_block_hashes.go:229-234 | Base64 text without padding comes from whole triples |
| `FixHashes.RecoveryInvertsTheMistake` | cmd/tools/fix/tools_fix_block_hashes.go:224-239 | For every 32-byte hash, recovering the base64-decoded hex of it gives the hash back |
| `FixHashes.RecoveryExactly` | cmd/tools/fix/tools_fix_block_hashes.go:229-239 | Recovery succeeds exactly on 48-byte inputs whose base64 text is hex, and that text is, ignoring case, the hex of the result |
| `FixHashes.RecoveryUpToCase` | cmd/tools/fix/tools_fix_block_hashes.go:229-239 | Two accepted inputs recover the same hash exactly when their texts differ at most in case |
| `FixHashes.RecoveryIsInjectiveOnLowerCase` | cmd/tools/fix/tools_fix_block_hashes.go:229-239 | On inputs whose base64 text is lower-case hex recovery is injective |
| `FixHashes.FixBlock` | cmd/tools/fix/tools_fix_block_hashes.go:177-222 | The step-by-step rewrite with its six error returns computes the fixed block or fails, as specified |
| `FixHashes.FixedBlock` | cmd/tools/fix/tools_fix_block_hashes.go:177-222 | A block is accepted exactly when both hashes are recoverable and its ids are the base64 text of the stored bytes, case aside (and the new payload fits); then only the payload changes, and in it only the two hashes, field by field, to those the ids spell |
| `FixHashes.RecoveredExactly` | cmd/tools/fix/tools_fix_block_hashes.go:177-196 | Recovery succeeds exactly on a readable payload with a header and two recoverable hashes; each hash becomes the one its own bytes spell, and every other field of block and header is kept |
| `FixHashes.SanitizedBlock` | cmd/firestellar/tool_compare_merged_blocks.go:326-360 | Sanitizing accepts every recoverable block and rewrites ids and payload only: ids to the base64 text of the stored bytes in lower case, hashes to what those ids spell |
| `FixHashes.SanitizingAgrees` | cmd/firestellar/tool_compare_merged_blocks.go:326-360 | On every block FixBlock accepts, the comparison tool's sanitizer gives the same block |
| `FixHashes.SanitizingAgreesExactly` | cmd/firestellar/tool_compare_merged_blocks.go:326-360 | Where sanitizing succeeds, the two agree exactly when the block's ids are the hex of the hashes recovered from its payload |
| `FixHashes.FixingTwiceFails` | cmd/tools/fix/tools_fix_block_hashes.go:177-222 | A fixed block is never accepted again |
| `FixHashes.FirstFetcherBlocksAreFixed` | cmd/tools/fix/tools_fix_block_hashes.go:177-222 | Every block of the shape the first fetcher wrote is accepted, gets its true hashes back, and keeps everything else |
| `FixHashes.FixedChainLinks` | cmd/tools/fix/tools_fix_block_hashes.go:177-222 | Across a parent link, the fixed previous hash is the parent's fixed hash |
| `FixHashes.FixBundle` | cmd/tools/fix/tools_fix_block_hashes.go:135-163 | The inner loop appends the fixed blocks of the range, in order, and fails exactly when one of them cannot be fixed |
| `FixHashes.FixStore` | cmd/tools/fix/tools_fix_block_hashes.go:98-170 | On sorted bundles without storage errors the loop passes on exactly the blocks of [start, stop), in order, each fixed; it refuses an unaligned start unless that is the first streamable block |
| `FixHashes.FixedSelection` | cmd/tools/fix/tools_fix_block_hashes.go:98-170 | On sorted bundles the blocks handed to the writer are strictly ascending and are exactly the fixed blocks of the range; there are none exactly when one of the range cannot be fixed |
| `Bstream.PackRoundTrip` | cmd/tools/fix/tools_fix_block_hashes.go:208-211 | A block packed as a payload unpacks to itself |
| `Sanitize.SanitizeBlockInPlace` | cmd/firestellar/tool_compare_merged_blocks.go:329-360 | The in-place rewrite leaves the sanitized block, or the block untouched on an error |
| `Sanitize.FilterInPlace` | cmd/firestellar/tool_compare_merged_blocks.go:375-387 | Over one shared array the write index stays at or below the read index, the kept prefix is exactly the events that are not dropped, in order, and nothing is written when nothing is dropped |
| `Sanitize.KeepIsTheOnlyReduction` | cmd/firestellar/tool_compare_merged_blocks.go:375-387 | The filter is the one list without droppable events from which the input arises by inserting droppable ones |
| `Sanitize.StripNonDeterministicInPlace` | cmd/firestellar/tool_compare_merged_blocks.go:368-400 | The strip leaves the filtered block; with nothing to drop the block keeps its payload bytes |
| `Sanitize.StrippedReadsBack` | cmd/firestellar/tool_compare_merged_blocks.go:368-400 | The payload of a stripped block reads back as the filtered message |
| `Sanitize.StrippingIsIdempotent` | cmd/firestellar/tool_compare_merged_blocks.go:368-400 | Stripping twice is stripping once, down to the payload bytes |
| `Sanitize.StrippedMessagesAgreeExactly` | cmd/firestellar/tool_compare_merged_blocks.go:362-400 | Two messages are equal after stripping exactly when they differ only in droppable diagnostic events |
| `Sanitize.StripIsTheCleanOne` | cmd/firestellar/tool_compare_merged_blocks.go:368-400 | The strip gives the one message without droppable events that differs from the input by such events only |
| `Sanitize.StrippedPayloadsAgree` | cmd/firestellar/tool_compare_merged_blocks.go:362-400 | Blocks whose payloads differ only in such events have equal payloads afterwards, equal byte for byte when both were rewritten |
| `CompareBlocks.CompareTransactionSlices` | cmd/firestellar/tool_compare_merged_blocks.go:472-560 | The matcher reports a difference exactly when the tables keyed by hash have it, whatever the order its maps are walked in |
| `CompareBlocks.MatchingIsExact` | cmd/firestellar/tool_compare_merged_blocks.go:468-560 | With distinct hashes on each side it reports nothing exactly when the hash sets coincide and same-hash transactions agree on status, order, envelope, result and events |
| `CompareBlocks.TableHasTheLast` | cmd/firestellar/tool_compare_merged_blocks.go:470-484 | Also where hashes repeat, the table has, for each hash, the last transaction with it |
| `CompareBlocks.SilenceMeansSamePositions` | cmd/firestellar/tool_compare_merged_blocks.go:468-560 | If both sides are also numbered 1 to n, silence means agreement position by position |
| `CompareBlocks.CompareSingleBlock` | cmd/firestellar/tool_compare_merged_blocks.go:407-466 | Which differences are reported, the catch-all included; nothing is reported exactly when ids, numbers and readable payloads are equal |
| `CompareStores.ReadMergedBundle` | cmd/firestellar/tool_compare_merged_blocks.go:287-324 | A bundle reads exactly when each of its blocks of the range can be prepared, and gives the map of those, a later block replacing an earlier one |
| `CompareStores.StoreWithinBundle` | cmd/firestellar/tool_compare_merged_blocks.go:144-184 | Within a bundle's hundred a well-formed store holds exactly what the bundle holds |
| `CompareStores.SameStartSameName` | cmd/firestellar/tool_compare_merged_blocks.go:129-144 | Ten-digit names of one number are one name, so the visited set of names is a set of bundles |
| `CompareStores.CompareNumber` | cmd/firestellar/tool_compare_merged_blocks.go:181-212 | One number adds to exactly the counter of its case |
| `CompareStores.CompareBundle` | cmd/firestellar/tool_compare_merged_blocks.go:180-217 | The block loop counts each number of the bundle once and stops at the first differing block only when asked to |
| `CompareStores.CountCurrentOnly` | cmd/firestellar/tool_compare_merged_blocks.go:243-257 | The second loop counts the blocks only the current store has and stops at the first when asked to |
| `CompareStores.CompareFile` | cmd/firestellar/tool_compare_merged_blocks.go:144-217 | A reference bundle: counts as the set-level specification does on its hundred; fails only when a bundle cannot be read |
| `CompareStores.WalkReference` | cmd/firestellar/tool_compare_merged_blocks.go:129-221 | After the first walk, every number of the range that a reference bundle covers is counted once and every such bundle is marked as visited |
| `CompareStores.WalkCurrentOnly` | cmd/firestellar/tool_compare_merged_blocks.go:223-262 | After the second walk, the numbers covered by the other current bundles are counted as well, none twice |
| `CompareStores.MatchMeansIdentical` | cmd/firestellar/tool_compare_merged_blocks.go:264-269 | The set-level counts say "match" exactly when both stores hold the same blocks of the range |
| `CompareStores.PartialVerdict` | cmd/firestellar/tool_compare_merged_blocks.go:210-226 | Counting a difference among part of the numbers already shows that the stores differ |
| `CompareStores.CompareMerged` | cmd/firestellar/tool_compare_merged_blocks.go:123-271 | Unless stopped it succeeds exactly when every bundle reads and then equals the set-level summary: compared, different, missing in current, missing in reference; stopped or not, "match" is printed exactly when the stores agree on the range; asked to stop, it counts at most one differing block |
| `CompareOneblock.LoadOneblockRange` | cmd/firestellar/tool_compare_merged_blocks.go:647-690 | The flat load succeeds exactly when every one-block file of the range has a block that can be prepared, and maps the number in the name to it |
| `CompareOneblock.RunOneblockCompare` | cmd/firestellar/tool_compare_merged_blocks.go:584-645 | The flat comparison meets the same set-level specification; asked to stop, it stops at the first difference of any kind |
| `CompareOneblock.StoreIsItsBlocks` | cmd/firestellar/tool_compare_merged_blocks.go:287-324 | A store of bundles holds what its bundles' blocks, one after the other, hold |
| `CompareOneblock.BothPathsAgree` | cmd/firestellar/tool_compare_merged_blocks.go:584-690 | On stores that hold the same blocks the bundled and the flat comparison read without error in the same cases and must reach the same counts |
| `ComparePrepared.PreparedReading` | cmd/firestellar/tool_compare_merged_blocks.go:311-321 | Which stored blocks can be prepared, and what a prepared one carries: its number, its ids and message, recovered if the side is sanitized, and stripped if that was asked for, also when both are |
| `ComparePrepared.EqualExactlyWhen` | cmd/firestellar/tool_compare_merged_blocks.go:311-321 | For every combination of the sanitize flags, two stored blocks count as equal exactly when numbers and (recovered) ids agree and the (recovered) messages are equal, up to droppable events if stripping is on |
| `ComparePrepared.SummaryCounts` | cmd/firestellar/tool_compare_merged_blocks.go:264-269 | The four counts and the verdict, said on the stored blocks: numbers both stores have, those among them not counting as equal, and numbers only one has; of repeated numbers the last block counts |
| `ComparePrepared.ReadsExactlyWhen` | cmd/firestellar/tool_compare_merged_blocks.go:287-324 | Every bundle reads exactly when every stored block of the range can be prepared |
| `ComparePrepared.NoiseChangesNothing` | cmd/firestellar/tool_compare_merged_blocks.go:362-400 | With stripping on, droppable events inserted into or removed from blocks of either store change neither the counts nor the verdict |
| `ComparePrepared.OneblockExactly` | cmd/firestellar/tool_compare_merged_blocks.go:647-690 | The flat load has, under the number a file is named with, the first block of the last such file |
| `JsonNormal.AccountShapeUnchanged` | test/lib/xdr/decode.go:410-431 | Rewriting below an object neither creates nor destroys an account shape at it |
| `JsonNormal.AccountsAreComplete` | test/lib/xdr/decode.go:410-431 | After the account pass no account-shaped object remains below the root |
| `JsonNormal.AccountsFixed` | test/lib/xdr/decode.go:410-431 | The account pass changes a tree exactly when an account-shaped object lies below its root |
| `JsonNormal.AccountsIdempotent` | test/lib/xdr/decode.go:410-431 | The account pass is idempotent |
| `JsonNormal.DynamicFieldsAreComplete` | test/lib/xdr/decode.go:252-272 | After the dynamic-field pass no signature and no well-shaped dynamic field remains at any depth |
| `JsonNormal.DynamicFieldsFixed` | test/lib/xdr/decode.go:252-272 | That pass changes a tree exactly when it holds such a shape |
| `JsonNormal.DynamicFieldsIdempotent` | test/lib/xdr/decode.go:252-272 | That pass is idempotent |
| `JsonNormal.StripIsComplete` | test/lib/xdr/decode.go:212-227 | After stripping, no map at any depth has a null entry; null array elements stay |
| `JsonNormal.StripFixed` | test/lib/xdr/decode.go:212-227 | Stripping changes a tree exactly when some map has a null entry |
| `JsonNormal.StripIdempotent` | test/lib/xdr/decode.go:212-227 | Stripping is idempotent |
| `JsonNormal.DynamicKeepsAccountsAway` | test/lib/xdr/decode.go:202-204 | The second pass does not bring back what the first removed |
| `JsonNormal.AccountsThroughStrip` | test/lib/xdr/decode.go:448-488 | Stripping nulls creates an account shape exactly where a null discriminator hid one |
| `JsonNormal.SignatureThroughStrip` | test/lib/xdr/decode.go:384-397 | Stripping nulls creates a signature shape exactly where null entries hid one |
| `JsonNormal.NormalizeFixed` | test/lib/xdr/decode.go:202-204 | The three passes together change exactly the trees that one of them would change |
| `JsonTwice.SignatureThroughAccounts` | test/lib/xdr/decode.go:384-397 | The account pass makes a signature exactly of an object that spells one: a hint of four and, as signature, a text or an account with a non-empty encoding |
| `JsonTwice.AccountUnderNullsThrough` | test/lib/xdr/decode.go:448-488 | The first two passes neither hide nor expose an account behind a null discriminator |
| `JsonTwice.NormalizeTwice` | test/lib/xdr/decode.go:202-204 | Running the pipeline twice equals running it once exactly when, in the tree that goes in, no object that the first two passes leave in place spells a signature without its null entries, or is an account without its null discriminator |
| `JsonTwice.NormalizeTwiceCanDiffer` | test/lib/xdr/decode.go:202-204 | A concrete object, a signature beside one unset field, on which the second run differs |
| `JsonNoise.OnlyNoiseIsHidden` | test/lib/xdr/decode.go:252-355 | Two trees become equal exactly when they differ only in signatures, in well-shaped run-local fields at the same key (or their placeholders), and in how a contract id is shown; a difference anywhere else survives |
| `JsonNoise.ContractsStayApart` | test/lib/xdr/decode.go:326-339 | With an encoding that tells keys apart, contract ids pass for the same exactly with the same bytes modulo 256 |
| `JsonNoise.ContractsAreEncoded` | test/lib/xdr/decode.go:326-339 | A contract id is shown as the encoding of its own 32 bytes, in order |
| `JsonNoise.Placeholders` | test/lib/xdr/decode.go:306-341 | Which text a run-local value is shown as, per key; a value of another shape under the same key is walked like any other |
| `JsonNoise.SignatureText` | test/lib/xdr/decode.go:384-397 | An object of exactly a hint of four and a non-empty signature becomes the two placeholders |
| `JsonNoise.OnlyAccountsAreHidden` | test/lib/xdr/decode.go:410-431 | The account pass makes two trees equal exactly when they differ only in how accounts below the root are shown |
| `JsonNoise.AccountsAreEncoded` | test/lib/xdr/decode.go:475-487 | An account is shown as the encoding of its own 32 numbers, each cut to a byte, in order |
| `JsonNoise.AccountsStayApart` | test/lib/xdr/decode.go:475-487 | With an encoding that tells keys apart, two accounts pass for the same exactly when their 32 numbers agree modulo 256 |
| `JsonNoise.AccountPatterns` | test/lib/xdr/decode.go:433-470 | The documented patterns are accounts for all keys; a non-zero discriminator, a sibling that is set or a longer key is none |
| `JsonNoise.OnlyNullsAreHidden` | test/lib/xdr/decode.go:212-227 | The null pass makes two trees equal exactly when they differ in null entries of objects only |
| `JsonHeap.TryEncodeAccount` | test/lib/xdr/decode.go:448-488 | The check on maps and arrays in memory, its keys visited in any order, answers as the check on trees |
| `JsonHeap.IsDecoratedSignature` | test/lib/xdr/decode.go:384-397 | The signature check in memory answers as the check on trees |
| `JsonWalks.NormalizeAccountIDs` | test/lib/xdr/decode.go:410-431 | The in-place walk leaves the tree the pure rewrite computes, for every order of map keys, writing only to the tree's own maps and arrays |
| `JsonWalks.DynamicPlaceholder` | test/lib/xdr/decode.go:306-341 | The switch on the key answers as on trees |
| `JsonWalks.NormalizeDynamicFields` | test/lib/xdr/decode.go:252-272 | The same for the dynamic-field walk |
| `JsonWalks.StripNullEntries` | test/lib/xdr/decode.go:212-227 | The same for the walk that deletes null entries while it visits them |
| `JsonWalks.NormalizeInPlace` | test/lib/xdr/decode.go:188-205 | The three walks in sequence leave the normalised tree |
| `Snapshot.Diff` | test/lib/snapshot/snapshot.go:186-225 | The recursive diff reports a mismatch at a path exactly when the path leads to it, for every order of map keys |
| `Snapshot.NothingReportedExactlyWhenMatching` | test/lib/snapshot/snapshot.go:186-225 | Nothing is reported exactly under the relation "equal, except that entries expected to be null may be absent" |
| `Snapshot.MatchingIsEquality` | test/lib/snapshot/snapshot.go:186-225 | Where no map of the expected tree has a null entry, that relation is equality |
| `Snapshot.MatchingIsEqualityAfterStripping` | test/lib/snapshot/snapshot.go:186-225 | Against an actual tree without null entries it is equality with the expected tree stripped of them |
| `Snapshot.OrderDoesNotMatter` | test/lib/snapshot/snapshot.go:131-184 | With pairwise distinct bound values, templating is independent of the order of the replacements |
| `Snapshot.EqualValuesLeaveItOpen` | test/lib/snapshot/snapshot.go:160-170 | With two names for one value, every listing sorted by length has another sorted listing that templates differently |
| `Snapshot.TemplatingHidesNothing` | test/lib/snapshot/snapshot.go:131-184 | On trees in which no text is a bound placeholder name, templating is injective |
| `Snapshot.WalkTemplates` | test/lib/snapshot/snapshot.go:131-184 | At every depth, a text becomes a placeholder bound to it if there is one, and nothing else changes |
| `Snapshot.TemplatedOnce` | test/lib/snapshot/snapshot.go:131-184 | With distinct values only one tree is so, which fixes the walk |
| `Snapshot.NoBoundValueRemains` | test/lib/snapshot/snapshot.go:131-184 | Unless a placeholder's name is itself a bound value, no bound value remains at any depth |
| `Snapshot.PlaceholderNamePasses` | test/lib/snapshot/snapshot.go:131-184 | A placeholder name that is no bound value templates like the value it is bound to, so that hypothesis is needed |
| `Snapshot.Template` | test/lib/snapshot/snapshot.go:131-152 | The walk builds the templated copy |
| `Snapshot.Snapshot.Bind` | test/lib/snapshot/snapshot.go:57-68 | Binding sets the placeholder; an empty value is ignored, so no bound value is ever empty |
| `Snapshot.Snapshot.SortedReplacements` | test/lib/snapshot/snapshot.go:160-170 | Every binding is listed exactly once, longest value first |
| `Snapshot.Snapshot.Compare` | test/lib/snapshot/snapshot.go:75-97 | A comparison passes exactly when a snapshot exists and the templated tree matches it, and otherwise reports exactly the mismatches |
| `Snapshot.VerdictIsOrderIndependent` | test/lib/snapshot/snapshot.go:75-97 | With distinct values the verdict does not depend on the order of the bindings |
| `Resume.NumbersNeverWrap` | captivecore/captivecore.go:208-228 | In every run of every configuration, handled numbers fit 32 bits and are at least 1, and the next one never wraps |
| `Resume.RunsAreSafe` | cmd/firestellar/fetcher_captive_core.go:93-142 | The invariant of all runs that use a cursor, from any initial cursor file: first number, order, what a restart would choose, and how the cursor relates to what was emitted |
| `Resume.NeverBelowStart` | cmd/firestellar/fetcher_captive_core.go:87-112 | In every run of every configuration, from any cursor file, nothing below the start block is emitted |
| `Resume.ResumesAboveTheCursor` | cmd/firestellar/fetcher_captive_core.go:90-112 | A run that resumes emits nothing at or below a cursor it can read, unless that is the last 64-bit number; it begins right after the cursor or at the start block, whichever is higher, and not at all from a cursor that does not decode |
| `Resume.EmissionIsCrashSafe` | cmd/firestellar/fetcher_captive_core.go:93-142 | With a cursor in use and none on disk, in every run with failures and crashes at any step, numbers start at the start block, each next is the previous or its successor, and a readable cursor is the highest emitted number or one below it |
| `Resume.RepeatsOnlyAcrossAnUnsavedStop` | cmd/firestellar/fetcher_captive_core.go:126-142 | A number is emitted twice in a row only if in between the process stopped after handling it and before its cursor was written |
| `Resume.OrderedExactlyWhenResuming` | cmd/firestellar/fetcher_captive_core.go:87-110 | Emission is in order in every run exactly when the cursor is in use, or the start block leaves no second block to emit |
| `Resume.WithoutCursorGoesBack` | cmd/firestellar/fetcher_captive_core.go:87-110 | Without a state directory, or ignoring the cursor, a run that emits start, start + 1, start |
| `Resume.LastLedgerIsNotPassed` | captivecore/captivecore.go:208-228 | From the last ledger number, or an invalid one, a process never gets to another number |
| `Resume.EmitsAgainExactlyWhen` | cmd/firestellar/fetcher_captive_core.go:93-117 | A stopped process can ever emit again exactly when its cursor, if one is in use, decodes, and the number to start with is a ledger number |
| `Resume.CrashWhileSavingIsFinal` | cursor/cursor.go:86-89 | Writing the cursor truncates the file first: a run that crashes in between, after one block, and no continuation of which emits anything |
| `Resume.Fetcher.Load` | cursor/cursor.go:47-63 | No directory and no file mean no cursor; a file that cannot be read or does not decode is an error |
| `Resume.Fetcher.Save` | cursor/cursor.go:67-90 | Saving records the number; a failure leaves the old file or one that does not read |
| `Resume.Fetcher.StartLedger` | cmd/firestellar/fetcher_captive_core.go:90-112 | The block to start with, as the state machine chooses it, or an error exactly when a cursor in use cannot be read |
| `Resume.Fetcher.Run` | cmd/firestellar/fetcher_captive_core.go:90-142 | One process, from boot to its end: it hands on consecutive ledgers until the first failing call, which decides the cursor it leaves; it takes only steps of the state machine, so every statement about runs holds of it; it always ends |
| `Ledger.ExtractTransactions` | captivecore/captivecore.go:374-400 | The reader loop converts every transaction to text, or fails if one cannot be marshalled or read |
| `Ledger.ConvertEvents` | captivecore/captivecore.go:439-486 | Events that do not marshal are skipped, nil operation groups dropped, empty ones kept; failing to read any leaves the transaction without events |
| `Ledger.TransactionRoundTrip` | captivecore/captivecore.go:293-356 | The detour through hex and base64 leaves a transaction as the ledger has it |
| `Ledger.ConvertLedgerCloseMetaToBstreamBlock` | captivecore/captivecore.go:259-372 | The captive-core conversion, one loop that decodes what was turned into text, yields exactly the block constructed directly from the entry it takes, or fails exactly where that fails |
| `Ledger.ConvertFetchedLedger` | rpc/fetcher.go:120-258 | The JSON-RPC conversion, a decoding loop and then a numbering loop, yields the directly constructed block when the server describes the entry it takes; otherwise the block of the described hash, sequence and time, or an error, as specified |
| `Ledger.DecodeThenNumber` | rpc/fetcher.go:150-222 | Its two loops give what one loop gives: order kept, numbered 1 to n |
| `Ledger.CaptiveIsDirect` | captivecore/captivecore.go:259-372 | The captive-core block equals the direct construction without any text |
| `Ledger.RpcIsDirect` | rpc/fetcher.go:120-258 | So does the JSON-RPC block when hash, sequence and close time describe the metadata's ledger |
| `Ledger.BackendsAgree` | rpc/fetcher.go:132-142 | With at most one version set, or version 0 set, and a consistent description, both fetchers yield the same block or both fail |
| `Ledger.BackendsAgreeExactly` | rpc/fetcher.go:132-142 | Where captive core yields a block and the server describes the entry it takes, the JSON-RPC fetcher yields the same block exactly when the entry that one takes agrees in version, previous hash, total coins, base fee and base reserve |
| `Ledger.TwoArmsDisagree` | rpc/fetcher.go:132-142 | Metadata put together by hand with versions 1 and 2 both set, on which both fetchers succeed and disagree |
| `Ledger.ConvertedBlockReadsBack` | captivecore/captivecore.go:488-508 | The payload of a converted block reads back as the direct message, and its ids are the hex of that message's hashes |
| `LedgerMessage.LedgerBlock` | captivecore/captivecore.go:259-372 | The block of a ledger, field by field: header, close time, transactions in ledger order and numbered from 1, and of each the events at exactly the positions that marshal, in order, groups at exactly those that are not nil; it is missing only if reading fails, a transaction does not marshal, or it is too large |
| `LedgerMessage.FetchersSayTheLedger` | rpc/fetcher.go:120-258 | Both fetchers yield such a block; number, hash and close time of the JSON-RPC one are those the server gives |
| `LedgerMessage.SaidOnce` | captivecore/captivecore.go:259-372 | Only one message says what a ledger holds, so this fixes the result |
| `LedgerMessage.ConsecutiveLedgersLink` | captivecore/captivecore.go:488-508 | The blocks of two ledgers are linked by parent number, last final number and parent id exactly when the ledgers are by sequence and hash |
| `Pagination.NewParams` | types/params.go:8-17 | A request carries limit and cursor, and the start ledger exactly when the cursor is empty |
| `Pagination.TakePage` | rpc/client.go:139-145 | A page is taken up to the first transaction of another ledger |
| `Pagination.OfLedgerIsTheRun` | rpc/client.go:128-154 | In a listing in ledger order the transactions of a ledger are one unbroken run |
| `Pagination.FromTheFirstPosition` | rpc/client.go:128-154 | That run starts where a request without cursor begins |
| `Pagination.GetTransactions` | rpc/client.go:128-154 | Against an honest server, whatever its page sizes of 1 to the limit, the loop ends and, unless a request fails, returns exactly the ledger's transactions, each once and in order; started from a cursor, the run from there |

## Left out

- BlockObject.Block.UnmarshalVT: asks that the block's timestamp object is not also one of its transactions' timestamp objects; with one object in both places the merge writes through the alias, and `BlockObject.SharedTimestampIsWrittenThrough` says exactly when that spoils the result. Fresh messages and anything decoded or cloned satisfy it.
- BlockObject.Block.MergeField: asks the same, as one turn of that loop.
- WireIO.SkipField: says nothing about how far past the end of the input a fixed-size payload may be announced; its caller checks that, and `WireIO.SkipUnknown` states the combined result.
- The contents of a message after `UnmarshalVT` has returned an error, and which error it is.
- Sharing between byte slices: decoding reuses the capacity of `m.Hash` and similar fields, which values do not show.
- The `Strict` and `Unsafe` variants of the codec repeat the same control flow; `block.pb.go` is reflection glue.
- Messages whose total size does not fit a signed 64-bit length.
- `anypb.UnmarshalTo`, `anypb.New` and `proto.Equal` work by reflection in another library. Payloads are unpacked, packed and compared here with the repository's own codec and with equality of values. The two libraries treat wrong wire types and the order of unknown fields differently.
- A packed payload is identified by its message name; the prefix of the type URL is not modelled.
- CompareStores.CompareMerged: the prefix by which the directory walks are narrowed is not modelled; names are listed in ascending order and all of them are offered to the walk. Stores are well formed: bundles have ten-digit names, start at a multiple of a hundred and hold blocks of their own hundred.
- CompareStores.CompareFile: the two bundles are read one after the other, not in two goroutines that are waited for.
- Storage errors other than a block that cannot be prepared, and the parsing of the block range.
- FixHashes.FixStore: the writer that merges fixed blocks into bundles is another library's; the blocks handed to it are stated. Every file name in the source store is a bundle start, since the loop panics on any other.
- CompareBlocks.CompareTransactionSlices: which transactions and fields are reported is stated; the text of the messages and the detail lines about event counts and positions (`cmd/firestellar/tool_compare_merged_blocks.go:507-550`) are not. The matcher never surfaces a difference in `CreatedAt`, and the model keeps that.
- `cmd/firestellar/tool_compare_fetcher_blocks.go`: it filters empty event groups on one side only, so the relation it is meant to decide is not clear.
- JSON numbers as `float64`: decoded trees hold number literals, floats occur only in values built by hand.
- Decoding XDR into JSON, and `strkey.Encode`.
- Snapshot.Snapshot.SortedReplacements: the library sort is written as an insertion; no order among equal lengths is promised.
- Snapshot.Snapshot.Compare: neither the mode that rewrites the snapshot file nor the JSON round trip of the actual value is modelled; it starts from the tree that round trip gives.
- Reading a snapshot file.
- Resume.Fetcher.Run: stellar-core is taken to return the ledger that was asked for, and handing a block on counts as one step.
- Resume.Fetcher.Save: of what is written only the number is kept; the block ids next to it, and creating the directory, are not modelled, since resuming reads the number alone.
- Resume.Fetcher.Load: returns that number alone.
- Ledger.ConvertFetchedLedger: starts where exactly one ledger has been fetched and its metadata decoded; the wait for the latest ledger, which need not end, and the fetch statistics are not modelled.
- The functions that turn a ledger's transactions into text are the same in `captivecore/captivecore.go:374-486` and `rpc/fetcher.go:317-445`; they are modelled once and used by both conversions.
- Pagination.GetTransactions: the server is honest: listed in ledger order, honours its cursors, pages are not empty while transactions remain, and the empty cursor comes only when none do.
- HTTP, JSON encoding of requests, subprocess control, flags, logging, configuration, Horizon and development helpers.
- `utils/cursor.go`: short bit slicing whose 32/16/16 split has no specification to be compared with.
