# Surch: a Dafny model of its codec, query and service cores

Surch is a search engine written in Rust that follows the behaviour of Lucene and OpenSearch.
This project models the parts of it that compute something hard to see by reading, and proves
what they promise:

- **Postings codec.** Varints, bit packing, the blocked format with its 3 doc-id and 4 frequency
  modes, the cost planner, the one-pass directory, the fail-closed decoder, the older
  length-prefixed format with its streaming cursor and inspector, and the two-level skip list
  (`BitOps`, `Bytes`, `Sequences`, `Leb128`, `BitPacking`, `BlockFormat`, `BlockGrammar`, `BlockBytes`,
  `BlockRoundTrip`, `BlockPlanning`, `BlockMinimality`, `PayloadSize`, `BlockEncoder`, `BlockDecoder`,
  `BlockedPostings`, `BlockedCodec`, `DeltaPostings`, `DeltaGrammar`, `BlockInspection`, `SkipList`).
- **Queries.** Candidate sets from postings against per-document matching (`CandidateSets`,
  `MatchLaws`), the wildcard matcher (`Wildcard`, `WildcardFields`), calendar arithmetic (`Calendar`,
  `CalendarText`), the top-K shortcut against sort and paginate (`TopN`, `TopKWindow`, `TopKRanks`),
  composite aggregation paging (`Composite`, `CompositeKeys`), highlighting (`Highlight`,
  `HighlightWindows`), and the chunked set intersection (`Roaring`).
- **Service state.** The CRC-32 footer (`CodecFooter`, `CrcPolynomial`), scroll contexts over a clock
  (`Scroll`), and the bulk parser with its application to the documents (`Bulk`, `BulkLines`,
  `BulkApply`, `BulkStore`).

Each declarative definition (a format, a meaning, a sorted list, a run) stands beside the loop or
class that computes it: methods are proved equal to the definition, and lemmas prove the promises
about the definition. The definitions in turn are pinned from outside: by grammars the decoders accept
exactly, by laws and rankings that determine their values, by GF(2) polynomials, and by examples
written out byte by byte. Verify the whole with `dafny verify dfyconfig.toml`.

Some promises turned out to be conditional; each is proved as an if-and-only-if with a witness:

- A query counted exact may still return wrong documents: a nested `bool` with only an optional
  `should` has no candidates, and an all-required outer `should` around it is dropped whole. The
  filter may be skipped exactly when every required clause contains one that is kept
  (`CandidateSets.SearchIsRight`, `CandidateSets.DroppedShould`, `CandidateSets.HarmlessDrop`).
- The length-prefixed format writes its count on 32 bits, so it round-trips exactly below 2^32
  ids (`DeltaPostings.DocIdsRoundTrip`, `DeltaPostings.AllIds`).
- Block offsets are cut to 32 bits, so they increase exactly while the last block starts below
  2^32 (`BlockedPostings.DirectoryIncreases`, `PayloadSize.OffsetsCanWrap`).
- The blocked decoder does not check order across blocks of foreign bytes: the ids increase exactly
  when each block's first id exceeds the last one before it (`BlockedPostings.OrderByFirstIds`,
  `BlockedPostings.UnorderedPayloadDecodes`).
- The wildcard loop is right for every pattern exactly on texts without `*`, which tokens are
  (`Wildcard.RightTexts`, `Wildcard.StarredTextFails`, `Wildcard.TokensHaveNoStar`).
- The `YYYYMMDD` day count agrees with the closed form exactly from year 1 on
  (`Calendar.ParseYyyymmddToDays`, `Calendar.YearZero`).

Blocks restart from an absolute id, so a payload can exceed the list's delta-varint stream by more
than its header bytes; by how much is stated exactly and met (`PayloadSize.PayloadWithinStream`,
`PayloadSize.RestartsCount`).

The encoder is canonical, one byte sequence for each input, but the decoder also accepts overlong
varints and dearer modes (`BlockMinimality.OverlongAccepted`); nothing it accepts is shorter than
what the encoder writes (`BlockMinimality.ShortestPayload`).

Where the code and a comment disagree the model follows the code. A composite cursor that lacks a
source name reads as null, which the derived key order places last, not first as the comment at
`crates/surch-api/src/search.rs:1843-1846` has it (`CompositeKeys.IncompleteCursor`). A bulk item
refused for a bad `_index` or `_id` is answered under `index`, whatever its action, though the comment at
`crates/surch-api/src/bulk.rs:418-423` says the action is kept (`BulkApply.BadMetadataShownAsIndex`,
`BulkApply.CreateShownAsIndex`).

## Model

| member | source | states |
|---|---|---|
| `Leb128.VarintRoundTrip` | crates/surch-codec/src/postings_block.rs:152-193 | reading a written varint returns the value and leaves whatever bytes follow, for every 32-bit value |
| `Leb128.ReadVarintAppend` | crates/surch-codec/src/postings_block.rs:164-193 | bytes appended to the input never change a value or an overflow error already determined; only running out of input can be cured by them |
| `Leb128.VarintLength` | crates/surch-codec/src/postings_block.rs:305-315 | the size computed from the bit width is the number of bytes the varint has |
| `Leb128.WriteVarint` | crates/surch-codec/src/postings_block.rs:152-162 | the loop appends the LEB128 form of the value and nothing else |
| `Leb128.ReadVarintAt` | crates/surch-codec/src/postings_block.rs:164-193 | on any bytes the loop returns the value, the end position or the error of the declarative reader, including the 32-bit overflow test on the fifth group |
| `Leb128.VarintMeans` | crates/surch-codec/src/postings_block.rs:152-162 | a written varint is its value in groups of seven bits, lowest first, every byte but the last with its top bit set, and no spare group |
| `Leb128.ReadVarintMeans` | crates/surch-codec/src/postings_block.rs:164-193 | on every byte string: which value is read and what is left, and exactly when the input ends too soon or the value overflows |
| `BitPacking.PackRoundTrip` | crates/surch-codec/src/postings_block.rs:328-385 | unpacking packed values returns them, for every width up to 32 and values of that width, whatever follows |
| `BitPacking.UnpackAppend` | crates/surch-codec/src/postings_block.rs:354-385 | unpacking depends only on the bytes it consumes |
| `BitPacking.PutBits` | crates/surch-codec/src/postings_block.rs:335-347 | one value entered at a bit cursor adds exactly its low bits, shifted to the cursor, to the little-endian number of the buffer |
| `BitPacking.Pack` | crates/surch-codec/src/postings_block.rs:328-349 | the bit-cursor loop appends the base-2^width digits of the values |
| `BitPacking.GetBits` | crates/surch-codec/src/postings_block.rs:370-380 | one value taken at a bit cursor is that digit of the little-endian number |
| `BitPacking.UnpackAt` | crates/surch-codec/src/postings_block.rs:354-385 | the loop agrees with digit extraction, or reports the end of input |
| `BitPacking.PackedLayout` | crates/surch-codec/src/postings_block.rs:325-349 | bit `p` of the packed bytes, from the lowest bit of the first byte, is bit `p mod width` of value `p div width`, and 0 past the last value |
| `BlockFormat.DecodeBlock` | crates/surch-codec/src/postings_block.rs:724-857 | on any bytes, a successful block decode returns exactly `count` strictly increasing ids and `count` frequencies and never reads past the input |
| `BlockFormat.Accumulate` | crates/surch-codec/src/postings_block.rs:797-809 | ids rebuilt from deltas strictly increase; a zero delta or an id past 32 bits is `NotMonotonic` and nothing else |
| `BlockRoundTrip.BlockWithRoundTrip` | crates/surch-codec/src/postings_block.rs:495-609 | a block written with any valid doc-id mode and width and any valid frequency mode decodes to its postings and stops at its end, whatever follows |
| `BlockRoundTrip.DecodeBlockAppend` | crates/surch-codec/src/postings_block.rs:724-857 | appended bytes change neither a decoded block nor a malformed one |
| `BlockRoundTrip.DecodeIsLocal` | crates/surch-codec/src/postings_block.rs:724-857 | a decoded block depends only on the bytes consumed: any continuation decodes the same and is left untouched |
| `BlockRoundTrip.DecodeTruncated` | crates/surch-codec/src/postings_block.rs:724-857 | every proper prefix of the bytes a decode consumed fails with `UnexpectedEof` |
| `BlockGrammar.DecodesIff` | crates/surch-codec/src/postings_block.rs:724-857 | a block decodes to given postings and a given rest if and only if the bytes before the rest are a sentence of the block grammar for those postings: header by mode numbers, first id, gap channel, frequency channel, with spare varint groups and padding bits as the only freedom |
| `BlockGrammar.PayloadDecodesIff` | crates/surch-codec/src/postings_block.rs:884-900 | the same for whole payloads, in blocks of 128 |
| `BlockGrammar.MalformedHeads` | crates/surch-codec/src/postings_block.rs:724-857 | first bytes with a reserved bit, the fourth doc-id mode and impossible widths are `MalformedBlock`, whatever follows |
| `BlockGrammar.MalformedExceptions` | crates/surch-codec/src/postings_block.rs:764-789 | no or too many exceptions, a position out of order or out of range, a value that fits and a place already taken are `MalformedBlock` |
| `BlockGrammar.MalformedConstant` | crates/surch-codec/src/postings_block.rs:813-819 | a constant frequency of 1 is `MalformedBlock` |
| `BlockGrammar.RefusedGaps` | crates/surch-codec/src/postings_block.rs:797-809 | gaps are refused if and only if one of them is 0 or they lead past 32 bits |
| `BlockBytes.FreqModeSays` | crates/surch-codec/src/postings_block.rs:516-543 | for every block: the first byte divided by 4 is 0 if and only if every frequency is 1, 1 if and only if they are one other value, 3 if and only if their varints are shorter than packing them, and 2 otherwise |
| `BlockBytes.DocModeSays` | crates/surch-codec/src/postings_block.rs:444-543 | for every block: the first byte modulo 4 is 0, 1 or 2 exactly where varints, packing or patching of the gaps wins, by their sizes in numbers |
| `BlockBytes.SinglePosting` | crates/surch-codec/src/postings_block.rs:495-609 | id 300 with frequency 1 is written `00 ac 02`, and those bytes decode to it |
| `BlockBytes.TwoPostings` | crates/surch-codec/src/postings_block.rs:495-609 | ids 1, 301 with frequencies 7, 7 are written `04 01 ac 02 07`, and those bytes decode to them |
| `BlockBytes.FourPostings` | crates/surch-codec/src/postings_block.rs:495-609 | ids 0 to 3 with frequencies 2, 3, 2, 3 are written `09 00 01 07 02 ee`, and those bytes decode to them |
| `BlockBytes.NinePostings` | crates/surch-codec/src/postings_block.rs:495-609 | nine ids with one long jump and one high frequency are written with a patched gap and varint frequencies, byte by byte, and those bytes decode to them |
| `BlockPlanning.BestPlanValid` | crates/surch-codec/src/postings_block.rs:444-489 | the planned doc-id mode can represent the deltas: packed widths cover them, patched widths have at least one exception |
| `BlockPlanning.DocChannelLength` | crates/surch-codec/src/postings_block.rs:444-489 | the cost compared by the planner is the number of bytes the mode writes |
| `BlockPlanning.BestPlanOptimal` | crates/surch-codec/src/postings_block.rs:444-489 | no varint, packed or patched width is cheaper than the plan, and ties go to the mode tried first |
| `BlockPlanning.FreqChannelLength` | crates/surch-codec/src/postings_block.rs:588-601 | the frequency cost is the number of bytes the frequency mode writes |
| `BlockPlanning.BestFreqPlanOptimal` | crates/surch-codec/src/postings_block.rs:516-536 | the frequency mode chosen is never dearer than another that can represent the frequencies |
| `BlockPlanning.BlockIsShortest` | crates/surch-codec/src/postings_block.rs:495-609 | no valid pair of channel modes writes the block in fewer bytes |
| `BlockPlanning.BlockWithinPlain` | crates/surch-codec/src/postings_block.rs:495-609 | a block is at most one byte longer than its plain varints |
| `BlockMinimality.ShortestAccepted` | crates/surch-codec/src/postings_block.rs:724-857 | every byte string the decoder accepts for some postings is at least as long as the block the encoder writes for them |
| `BlockMinimality.ShortestPayload` | crates/surch-codec/src/postings_block.rs:884-900 | the same for whole payloads whose ids increase |
| `BlockMinimality.OverlongAccepted` | crates/surch-codec/src/postings_block.rs:164-193 | decoding then encoding is not the identity on accepted bytes: an overlong varint decodes, and comes back shorter |
| `BlockEncoder.Survey` | crates/surch-codec/src/postings_block.rs:504-513 | one pass over a chunk yields the deltas, their exact bit-width histogram and their varint cost |
| `BlockEncoder.WidestDelta` | crates/surch-codec/src/postings_block.rs:448-456 | the highest non-empty histogram slot is the width of the widest delta |
| `BlockEncoder.ExceptionsAbove` | crates/surch-codec/src/postings_block.rs:463-474 | summing histogram slots gives the number and the exact bytes of the exceptions above a width |
| `BlockEncoder.PlanDocChannel` | crates/surch-codec/src/postings_block.rs:444-489 | the histogram scan computes the optimal plan of the deltas it never sees |
| `BlockEncoder.SplitExceptions` | crates/surch-codec/src/postings_block.rs:562-569 | exceptions are zeroed in the packed base and listed with their positions |
| `BlockEncoder.WriteDocChannel` | crates/surch-codec/src/postings_block.rs:549-585 | the doc-id channel appended is the one the plan describes |
| `BlockEncoder.WriteFreqChannel` | crates/surch-codec/src/postings_block.rs:588-601 | the frequency channel appended is the one the plan describes |
| `BlockEncoder.EncodeBlockInto` | crates/surch-codec/src/postings_block.rs:495-609 | appends the optimal block; id bytes plus frequency bytes are its length, and a block counts as omitted exactly when every frequency is 1 |
| `BlockEncoder.OmittedExactly` | crates/surch-codec/src/postings_block.rs:516-536 | the frequency channel is empty-coded if and only if every frequency is 1 |
| `BlockDecoder.HeaderFields` | crates/surch-codec/src/postings_block.rs:732-740 | the header masks and shifts extract the two modes and refuse reserved bits |
| `BlockDecoder.Rebuild` | crates/surch-codec/src/postings_block.rs:797-809 | the running sum over deltas returns the first id followed by the accumulated ones, or `NotMonotonic` |
| `BlockDecoder.DecodeBlockAt` | crates/surch-codec/src/postings_block.rs:724-857 | the positional decoder returns the value, end position or error of the declarative one, on any bytes from any position |
| `BlockedPostings.EncodedBlockDecodes` | crates/surch-codec/src/postings_block.rs:495-609 | the block the encoder writes decodes to its postings |
| `BlockedPostings.PayloadRoundTrip` | crates/surch-codec/src/postings_block.rs:669-713 | for every strictly increasing id list and equally long frequency list, zeros included, decoding the payload returns both and consumes all of it |
| `BlockedPostings.PayloadTruncated` | crates/surch-codec/src/postings_block.rs:884-900 | every proper prefix of a payload decodes to `UnexpectedEof` |
| `BlockedPostings.PayloadPrefixFree` | crates/surch-codec/src/postings_block.rs:669-713 | payloads of equally long lists are prefix-free, hence the encoding is injective |
| `BlockedPostings.PayloadWithinPlain` | crates/surch-codec/src/postings_block.rs:669-713 | a payload is at most its blocks written as plain varints, each from its own absolute first id, plus one header byte per block |
| `PayloadSize.PayloadWithinStream` | crates/surch-codec/src/postings_block.rs:669-713 | against the delta-varint stream of the whole list, a payload is longer by at most one byte per block plus, for each later block, what its absolute first id costs over the delta it replaces: five bytes per block at most, one for the first |
| `PayloadSize.RestartsCount` | crates/surch-codec/src/postings_block.rs:544-547 | a list of 129 postings on which that bound is met, four bytes above the stream with its headers |
| `BlockedPostings.DirectoryRecovered` | crates/surch-codec/src/postings_block.rs:941-963 | walking the payload recovers exactly the directory the encoder emitted in its single pass |
| `BlockedPostings.BlockDecodesAlone` | crates/surch-codec/src/postings_block.rs:871-877 | each directory entry locates a block that decodes alone, whatever follows, to exactly its 128-chunk, whose last id is the recorded maximum (block starts below 2^32) |
| `BlockedPostings.DirectoryIncreases` | crates/surch-codec/src/postings_block.rs:669-713 | maximum ids strictly increase always; offsets strictly increase if and only if the last block starts below 2^32, since offsets are kept on 32 bits |
| `PayloadSize.OffsetsCanWrap` | crates/surch-codec/src/postings_block.rs:955-959 | postings of every id whose last block starts past 2^32 and whose offsets therefore do not increase |
| `BlockedPostings.OrderAtBoundaries` | crates/surch-codec/src/postings_block.rs:884-900 | on arbitrary bytes the decoded ids increase if and only if they increase from each block to the next: the decoder checks order inside blocks only |
| `BlockedPostings.OrderByFirstIds` | crates/surch-codec/src/postings_block.rs:884-900 | over the bytes themselves: they increase if and only if the first varint of each later block exceeds the last id of the block before, the guard the decoding loop lacks |
| `BlockedPostings.UnorderedPayloadDecodes` | crates/surch-codec/src/postings_block.rs:884-900 | a payload of two blocks whose decoded ids do not increase |
| `BlockedCodec.ValidateStrictlyIncreasing` | crates/surch-codec/src/postings_block.rs:142-149 | the pairwise scan accepts exactly the strictly increasing lists |
| `BlockedCodec.EncodePostingsBlockedWithDirectory` | crates/surch-codec/src/postings_block.rs:669-713 | refuses exactly unordered or unequal lists; otherwise payload, directory and statistics are those of the list, id bytes plus frequency bytes being the payload length |
| `BlockedCodec.DecodeBlockBytes` | crates/surch-codec/src/postings_block.rs:871-877 | decodes one block on its own, ignoring what follows |
| `BlockedCodec.DecodePostingsBlocked` | crates/surch-codec/src/postings_block.rs:884-900 | the loop over blocks returns what the declarative decoder returns, or its first error |
| `BlockedCodec.BlockDirectory` | crates/surch-codec/src/postings_block.rs:941-963 | the loop over blocks returns the recovered directory, or the first error |
| `DeltaPostings.DocIdsRoundTrip` | crates/surch-codec/src/postings_block.rs:94-131 | the length-prefixed id list round-trips if and only if it has fewer than 2^32 ids |
| `DeltaPostings.PostingsRoundTrip` | crates/surch-codec/src/postings_block.rs:214-269 | the same for ids with frequencies |
| `DeltaPostings.AllIds` | crates/surch-codec/src/postings_block.rs:96-110 | the one list that fails exists: all 2^32 ids |
| `DeltaPostings.WrappedCount` | crates/surch-codec/src/postings_block.rs:96-110 | and its count wraps to zero, so it decodes to the empty list |
| `DeltaPostings.IdsIncrease` | crates/surch-codec/src/postings_block.rs:113-131 | ids decoded from any bytes strictly increase |
| `DeltaPostings.EncodeDocIdsDeltaVarint` | crates/surch-codec/src/postings_block.rs:96-110 | refuses exactly unordered lists; otherwise writes the count and the deltas |
| `DeltaPostings.EncodePostingsDocIdFreq` | crates/surch-codec/src/postings_block.rs:214-240 | refuses exactly unordered or unequal lists; otherwise writes ids then frequencies |
| `DeltaPostings.DecodeDocIdsDeltaVarint` | crates/surch-codec/src/postings_block.rs:113-131 | the eager decoder agrees with the declarative reader on every byte string |
| `DeltaPostings.DecodePostingsDocIdFreq` | crates/surch-codec/src/postings_block.rs:243-269 | the same for ids with frequencies |
| `DeltaPostings.OpenCursor` | crates/surch-codec/src/postings_block.rs:1055-1066 | opening a cursor fails exactly as reading the count does; otherwise everything the eager decoder would return is pending |
| `DeltaPostings.DocIdDeltaCursor.Next` | crates/surch-codec/src/postings_block.rs:1075-1092 | each call yields the head of what is pending, or ends exactly when nothing is left, or fails with the error the eager decoder meets |
| `DeltaPostings.Drain` | crates/surch-codec/src/postings_block.rs:1042-1092 | draining the cursor yields the same ids or the same first error as the eager decoder, on every byte string |
| `DeltaGrammar.ListDecodesIff` | crates/surch-codec/src/postings_block.rs:243-269 | a byte string decodes to given postings and a given rest if and only if the bytes before the rest are their count, gaps and frequencies as varints |
| `DeltaGrammar.TwoListed` | crates/surch-codec/src/postings_block.rs:214-240 | ids 3, 303 with frequencies 1, 2 are written `02 03 ac 02 01 02` |
| `BlockInspection.InspectPostingsBlocks` | crates/surch-codec/src/postings_block.rs:967-1033 | succeeds exactly when decoding does, with the same error otherwise; its metas are the 128-chunks: ranges, counts, maximum frequencies, and byte ranges that start at the end of the count, follow one another, and decode to the chunks |
| `BlockInspection.MaxOfIsMaximum` | crates/surch-codec/src/postings_block.rs:1018-1025 | the greatest frequency of a block meta is the maximum of its frequencies |
| `BlockInspection.MetasMakeRanges` | crates/surch-codec/src/postings_block.rs:1168-1174 | inspected metas always form valid ascending ranges |
| `BlockInspection.BuildSkipList` | crates/surch-codec/src/postings_block.rs:1168-1174 | building a skip list from an inspected payload never fails and has one entry per block |
| `BlockInspection.RangesAreTight` | crates/surch-codec/src/postings_block.rs:976-1010 | the range of block `k` runs from id `128 k` to id `128 k + 127`, or the last, and bounds the ids between |
| `BlockInspection.SeekFindsTheBlock` | crates/surch-codec/src/postings_block.rs:1257-1317 | in the skip list of a payload, the first block reaching a target is block `p div 128` for the position `p` of the first id that reaches it, and none if no id does |
| `SkipList.FromBlockRanges` | crates/surch-codec/src/postings_block.rs:1139-1165 | accepts exactly the ranges that are well formed, ascending and disjoint |
| `SkipList.RangesAre` | crates/surch-codec/src/postings_block.rs:1141-1163 | ranges are valid if and only if none is empty and, of any two, the earlier has the lower block index and ends below the later |
| `SkipList.BlockSkipCursor.Jump` | crates/surch-codec/src/postings_block.rs:1269-1283 | the top layer skips only entries below the target and lands within one interval of the answer |
| `SkipList.BlockSkipCursor.AdvanceTo` | crates/surch-codec/src/postings_block.rs:1257-1317 | moves to the first entry at or after the cursor whose maximum reaches the target, and touches at most `SKIP_INTERVAL + 1` entries, so the fallback scan has nothing to do |
| `SkipList.RunIsPrefixMaximum` | crates/surch-codec/src/postings_block.rs:1257-1317 | after any run of targets, in any order, the cursor stands at the first entry reaching the greatest target so far |
| `SkipList.RunIsLinearScan` | crates/surch-codec/src/postings_block.rs:1257-1317 | over a nondecreasing run every answer is that of a linear scan from block 0 |
| `SkipList.AdvanceThrough` | crates/surch-codec/src/postings_block.rs:1257-1317 | the cursor driven through such a run returns the linear-scan entries |
| `CandidateSets.CandidatesAreSound` | crates/surch-api/src/search.rs:635-845 | for every query tree and index, a returned candidate set contains every matching document |
| `CandidateSets.ExactMatches` | crates/surch-api/src/search.rs:6360-6393 | a query counted exact matches a document if and only if each of its required clauses has a token the document holds |
| `CandidateSets.ExactCandidates` | crates/surch-api/src/search.rs:635-845 | its candidates exist exactly when some clause can be resolved, and are the documents that hold a token of each kept clause |
| `CandidateSets.CoveredIsExact` | crates/surch-api/src/search.rs:2871-2909 | when every required clause contains a kept one, the candidate set equals the match set |
| `CandidateSets.UncoveredIsWrong` | crates/surch-api/src/search.rs:785-816 | every required clause that contains no kept one yields an index, its postings as they should be, on which a non-matching document is a candidate |
| `CandidateSets.SearchIsRight` | crates/surch-api/src/search.rs:2928-2965 | for any analysis of texts into tokens, skipping the per-document filter is right on every index if and only if each required clause contains a kept one: a condition on the query and its tokens alone |
| `CandidateSets.FieldClausesHold` | crates/surch-api/src/search.rs:6476-6485 | a `match` is a conjunction of clauses over tokens: all of its tokens, or any of them, and nothing for text without tokens |
| `CandidateSets.HarmlessDrop` | crates/surch-api/src/search.rs:785-816 | dropping is harmless where the dropped follows from the kept: a match on any token beside one on all tokens of the same text |
| `CandidateSets.GroundedIsCovered` | crates/surch-api/src/search.rs:2871-2909 | it holds when every nested `bool` has a must or filter clause, or a non-empty should of which at least one is required |
| `CandidateSets.DroppedShould` | crates/surch-api/src/search.rs:785-816 | the witness: an all-required outer should around a `bool` with only an optional should is dropped whole, and a wrong document is returned |
| `CandidateSets.FastPathIsIntersection` | crates/surch-api/src/search.rs:706-760 | the direct conjunctions, when taken, return the documents matching every clause |
| `CandidateSets.IntersectAscending` | crates/surch-api/src/search.rs:818-833 | intersecting smallest first with early exit is the intersection of all the sets |
| `CandidateSets.PostingCandidateIds` | crates/surch-api/src/search.rs:635-845 | the recursive resolution computes the specified candidate set, or none |
| `MatchLaws.TermLaw` | crates/surch-api/src/search.rs:6357-6359 | a `term` matches the documents holding its token |
| `MatchLaws.MatchLaw` | crates/surch-api/src/search.rs:6438-6485 | a `match` on any token is a union over the tokens, on all tokens an intersection, and empty for text without tokens |
| `MatchLaws.MultiMatchLaw` | crates/surch-api/src/search.rs:6406-6410 | a `multi_match` is the union of a `match` on each field |
| `MatchLaws.LeafLaws` | crates/surch-api/src/search.rs:6404-6411 | the other leaves match their own documents, and a function score what its inner query matches |
| `MatchLaws.EmptyLaw` | crates/surch-api/src/search.rs:6360-6393 | a `bool` without clauses matches every document |
| `MatchLaws.MustLaw` | crates/surch-api/src/search.rs:6368-6374 | one more `must` or `filter` clause intersects with what it matches |
| `MatchLaws.MustNotLaw` | crates/surch-api/src/search.rs:6375-6377 | one more `must_not` clause removes what it matches |
| `MatchLaws.ShouldLaw` | crates/surch-api/src/search.rs:6378-6393 | a non-empty `should` keeps a document if and only if its clauses match at some set of `minimum_should_match` distinct positions |
| `MatchLaws.SearchExcludes` | crates/surch-api/src/search.rs:2928-2965 | a search on a query with `must_not` returns what the query without the last one matches, less what that one matches |
| `MatchLaws.NothingExcluded` | crates/surch-api/src/search.rs:2928-2965 | no document matching a `must_not` clause is returned, on any index |
| `MatchLaws.BoolCandidatesMean` | crates/surch-api/src/search.rs:762-833 | without a direct intersection, which documents are candidates of a `bool` and when it has any, clause by clause |
| `MatchLaws.ExactShape` | crates/surch-api/src/search.rs:2871-2909 | filtering is skipped if and only if no restricting part is a prefix or another leaf without postings, excludes anything, or asks for some but not all of its `should` |
| `Wildcard.WildcardPatternMatches` | crates/surch-api/src/search.rs:6587-6615 | the backtracking loop terminates and, on texts without `*`, agrees with the declarative meaning of `*` and `?` for every pattern |
| `Wildcard.RightTexts` | crates/surch-api/src/search.rs:6587-6615 | it agrees for every pattern if and only if the text contains no `*` |
| `Wildcard.StarredTextFails` | crates/surch-api/src/search.rs:6587-6615 | for every text with a `*`, a pattern on which the loop is wrong |
| `Wildcard.TokensHaveNoStar` | crates/surch-api/src/search.rs:7551-7579 | no token of the search tokeniser contains a `*` |
| `Wildcard.WildcardFieldMatches` | crates/surch-api/src/search.rs:6561-6585 | a field matches if and only if some token of its text matches the normalised pattern declaratively |
| `WildcardFields.NormalisationKeeps` | crates/surch-api/src/search.rs:6576-6585 | a text is lower-cased and folded character by character; a pattern likewise but for its `*` and `?`, which stay |
| `WildcardFields.FoldTable` | crates/surch-api/src/search.rs:7566-7579 | accented Latin letters fold by code point, other letters and digits stay, everything else is a blank |
| `WildcardFields.TokenLaws` | crates/surch-api/src/search.rs:7551-7565 | text splits into tokens at characters that fold to a blank, and is one token without them |
| `WildcardFields.PlainWord` | crates/surch-api/src/search.rs:6561-6585 | a field that is one plain word is matched on that word by the pattern as written |
| `WildcardFields.WildMeans` | crates/surch-api/src/search.rs:6587-6615 | a pattern matches a text if and only if the text can be cut into one piece for each character of the pattern: any for `*`, one character for `?`, itself for anything else |
| `Calendar.DateRoundTrip` | crates/surch-api/src/search.rs:1671-1693 | every Gregorian date survives the conversion to days and back |
| `Calendar.DayRoundTrip` | crates/surch-api/src/search.rs:1671-1693 | every integer is the day number of a valid date, and survives the conversion back |
| `Calendar.DaysCount` | crates/surch-api/src/search.rs:1671-1679 | day numbers count calendar days from 1970-01-01: the next date has the next number |
| `Calendar.AnchorIsTheMonday` | crates/surch-api/src/search.rs:1668-1699 | the week anchor is the only Monday among the seven days ending at the date, or at the day a date past the end of its month counts on to |
| `Calendar.LateDaysCountOn` | crates/surch-api/src/search.rs:1638-1662 | a day past the end of its month, which histogram buckets pass on, is counted on from the first of that month |
| `Calendar.CountDays` | crates/surch-api/src/search.rs:5595-5604 | the year and month loops count `days_from_civil + 719162` days from year 1 on, and 366 more in year 0 |
| `Calendar.ParseYyyymmddToDays` | crates/surch-api/src/search.rs:5580-5625 | accepts exactly eight digits that form a date, and agrees with the closed form if and only if the year is at least 1 |
| `Calendar.YearZero` | crates/surch-api/src/search.rs:5595-5604 | the text `00000101`, which is 1 January of year 0, on which the two disagree |
| `CalendarText.WrittenParses` | crates/surch-api/src/search.rs:5580-5587 | the eight digits of every date of years 0 to 9999 parse back to it |
| `CalendarText.ParsedWrites` | crates/surch-api/src/search.rs:5580-5587 | and eight digits are the written form of what they parse to |
| `CalendarText.DaysOfWritten` | crates/surch-api/src/search.rs:5580-5605 | the written form of every valid date parses to its day count |
| `CalendarText.WeekdaysCycle` | crates/surch-api/src/search.rs:1694-1698 | 1 January 2024 is a Monday, and weekdays follow each other |
| `CalendarText.KeysTruncate` | crates/surch-api/src/search.rs:1638-1653 | a day bucket is the date itself, a month and a year bucket its first day |
| `CalendarText.WeekBuckets` | crates/surch-api/src/search.rs:1638-1663 | two texts fall into one week bucket if and only if as many Mondays have passed by the one as by the other, also for late days and where the Monday lies before year 0 |
| `CodecFooter.Crc32Zlib` | crates/surch-codec/src/codec_util.rs:131-141 | the nested loops compute the declarative CRC-32 |
| `CrcPolynomial.CrcIsRemainder` | crates/surch-codec/src/codec_util.rs:131-141 | the checksum is the remainder over GF(2): the reflected message times x^32, its first 32 coefficients complemented, modulo the CRC-32 polynomial given by its exponents, complemented |
| `CrcPolynomial.OctetIs` | crates/surch-codec/src/codec_util.rs:134-138 | a byte of the message as a polynomial, mask by mask: its lowest bit has the highest exponent |
| `CrcPolynomial.RemainderUnique` | crates/surch-codec/src/codec_util.rs:131-141 | there is one such remainder |
| `CrcPolynomial.CheckValue` | crates/surch-codec/src/codec_util.rs:131-141 | the digits 1 to 9 have the checksum 0xcbf43926 |
| `CodecFooter.Crc8Injective` | crates/surch-codec/src/codec_util.rs:135-138 | eight steps of the register lose nothing |
| `CodecFooter.FourBytesInjective` | crates/surch-codec/src/codec_util.rs:131-141 | from any register state, four bytes determine and are determined by the state after them |
| `CodecFooter.CrcStateInjective` | crates/surch-codec/src/codec_util.rs:131-141 | different register states stay different under any common input |
| `CodecFooter.BurstChangesCrc` | crates/surch-codec/src/codec_util.rs:131-141 | any change confined to four consecutive bytes changes the checksum |
| `CodecFooter.WriteFooter` | crates/surch-codec/src/codec_util.rs:106-111 | appends magic, algorithm and the checksum of everything before it |
| `CodecFooter.CheckFooterBytes` | crates/surch-codec/src/codec_util.rs:113-179 | the reader returns the first failing check in order, or the checksum |
| `CodecFooter.AcceptedIsWritten` | crates/surch-codec/src/codec_util.rs:118-125 | the footer check accepts an input if and only if it is the output of the footer writer on its body |
| `CodecFooter.WrittenIsAccepted` | crates/surch-codec/src/codec_util.rs:106-125 | checking a written file returns the stored checksum |
| `CrcPolynomial.SmallFile` | crates/surch-codec/src/codec_util.rs:106-125 | a file of four bytes with its footer, byte by byte, and the checksum it is accepted with |
| `CodecFooter.RefusedBecause` | crates/surch-codec/src/codec_util.rs:118-179 | for any four words at the end of a file, which of the five errors it gets, with its value, or that it is accepted |
| `CodecFooter.FourWords` | crates/surch-codec/src/codec_util.rs:152-179 | any file of at least sixteen bytes ends in four such words |
| `CodecFooter.BurstRejected` | crates/surch-codec/src/codec_util.rs:118-179 | a written file altered within four consecutive bytes, one byte in particular, anywhere including the footer, is rejected |
| `Roaring.Contains` | crates/surch-index/src/roaring.rs:41-50 | membership in either container form is membership in the set it stands for |
| `Roaring.ClearLowest` | crates/surch-index/src/roaring.rs:154 | `x & (x - 1)` clears the lowest set bit and nothing else |
| `Roaring.EmitWord` | crates/surch-index/src/roaring.rs:149-155 | the bit loop emits the set bits of a 64-bit word once each, ascending |
| `Roaring.IntersectBitmaps` | crates/surch-index/src/roaring.rs:147-157 | the word-parallel conjunction emits exactly the common values, ascending |
| `Roaring.Probe` | crates/surch-index/src/roaring.rs:159-172 | driving the array and probing the other container does so too |
| `Roaring.Merge` | crates/surch-index/src/roaring.rs:174-187 | the two-pointer merge does so too |
| `Roaring.IntersectContainers` | crates/surch-index/src/roaring.rs:144-189 | for all four pairings the result is the ascending intersection |
| `Roaring.IntersectForEach` | crates/surch-index/src/roaring.rs:122-139 | two sets intersect to exactly the ids held by both, strictly ascending |
| `Roaring.BitmapOf` | crates/surch-index/src/roaring.rs:79-85 | setting bit by bit yields the bitmap of the run |
| `Roaring.FromSorted` | crates/surch-index/src/roaring.rs:64-95 | the set built holds exactly the given ids, and a chunk is a bitmap exactly when more than 4096 ids fall into it |
| `Roaring.Conjunction` | crates/surch-index/src/roaring.rs:64-189 | building two sets and intersecting them equals the naive intersection of the lists |
| `TopN.TopN.constructor` | crates/surch-api/src/topn.rs:39-45 | an empty collector keeps the best of nothing |
| `TopN.TopN.Push` | crates/surch-api/src/topn.rs:50-78 | after every push the kept items are the best `capacity` of everything offered so far |
| `TopN.TopN.WorstWhenFull` | crates/surch-api/src/topn.rs:88-93 | some item exactly when `capacity` items were offered, and then the `capacity`-th best of all of them |
| `TopN.TopN.IntoSortedVec` | crates/surch-api/src/topn.rs:97-99 | the kept items, best first |
| `TopN.SortSorts` | crates/surch-api/src/topn.rs:1-18 | the specification order is a sorted rearrangement of what was offered |
| `TopN.ArrivalOrderIrrelevant` | crates/surch-search/src/topk.rs:12-20 | under a total order the kept items do not depend on the order of arrival |
| `TopKWindow.PairOrderTotal` | crates/surch-search/src/topk.rs:21-25 | score descending then id ascending is a total order |
| `TopKWindow.FinalizeTopK` | crates/surch-api/src/search.rs:2301-2367 | the collecting loop returns the window, the count after `min_score` and the maximum score of the documents offered |
| `TopKWindow.StableSortIsTotalSort` | crates/surch-api/src/search.rs:6854-6871 | on documents in id order, any stable sort by score is the sort by score and id |
| `TopKWindow.TotalSortIsStable` | crates/surch-api/src/search.rs:6854-6871 | and that sort is a stable sort by score, so the two agree exactly |
| `TopKWindow.MaxScoreIsMaximum` | crates/surch-api/src/search.rs:2851-2863 | the score fold is the maximum, and absent exactly when there is no document |
| `TopKWindow.TopKIsFullPath` | crates/surch-api/src/search.rs:2133-2190 | the shortcut returns the same window, total and maximum score as retain, stable sort and paginate, for every arrival order, `min_score`, `from` and `size`, saturation included |
| `TopKRanks.HitsByRank` | crates/surch-api/src/search.rs:2301-2367 | the answer by comparison of scores and ids alone: how many documents are not below the minimum, how many of them are shown, and at place `i` the one with `from + i` ahead of it |
| `TopKRanks.MaximumOfKept` | crates/surch-api/src/search.rs:2301-2367 | its maximum score is attained by a document that reached the minimum, exceeded by none, and absent exactly without any |
| `TopKWindow.ThresholdIsExact` | crates/surch-search/src/topk.rs:27-62 | once full, with ids arriving in order, a document enters the best `k` if and only if its score is strictly above the `k`-th |
| `TopKWindow.PruningIsSafe` | crates/surch-search/src/topk.rs:72-99 | skipping every document whose upper bound does not beat the live threshold leaves the best `k` unchanged over a whole run |
| `Composite.KeyOrderTotal` | crates/surch-api/src/search.rs:1904-1910 | the derived order of composite keys is total: distinct buckets never compare equal |
| `Composite.ProjectSources` | crates/surch-api/src/search.rs:1775-1828 | a document yields one value per source, or none if any source gives none |
| `Composite.CountBuckets` | crates/surch-api/src/search.rs:1774-1833 | the counting loop computes the buckets of the documents |
| `Composite.BucketsAscend` | crates/surch-api/src/search.rs:1835-1841 | buckets come in strictly ascending key order |
| `Composite.BucketsCount` | crates/surch-api/src/search.rs:1774-1833 | a key has a bucket if and only if a document has it; the bucket counts those documents and shows the values of the first |
| `CompositeKeys.ProjectMeans` | crates/surch-api/src/search.rs:1775-1823 | what a source gives a document: the field's value or the first element of an array that is not null, kept or truncated |
| `CompositeKeys.SameKeyIff` | crates/surch-api/src/search.rs:1912-1921 | two values have one key if and only if they are equal, or both neither boolean, number nor string and rendered alike |
| `CompositeKeys.SameBucketIff` | crates/surch-api/src/search.rs:1774-1833 | two documents share a bucket if and only if every source gives both a value, and the same key |
| `CompositeKeys.TermsOrderMeans` | crates/surch-api/src/search.rs:1904-1910 | false, true, numbers by their text, strings, everything else by its rendering |
| `CompositeKeys.KeyOrderMeans` | crates/surch-api/src/search.rs:1835-1841 | keys are ordered by the first source on which they differ |
| `CompositeKeys.TenBeforeNine` | crates/surch-api/src/search.rs:1904-1910 | so the number 10 comes before the number 9 |
| `Composite.ComputeComposite` | crates/surch-api/src/search.rs:1763-1897 | one request returns the page the cursor and size select |
| `Composite.CursorRoundTrip` | crates/surch-api/src/search.rs:1847-1857 | with distinct source names, the cursor read back from an `after_key` is the key it was made from |
| `CompositeKeys.IncompleteCursor` | crates/surch-api/src/search.rs:1843-1865 | a cursor that lacks the first source selects no bucket whose first key is a boolean, number or string |
| `Composite.Resume` | crates/surch-api/src/search.rs:1859-1896 | an `after_key` is present exactly when buckets remain, and following it resumes exactly after the page |
| `Composite.PagesAreTheBuckets` | crates/surch-api/src/search.rs:1763-1897 | for size at least 1, following `after_key` to its end yields every bucket once, in order, in ceil(n/size) requests (one if empty), and the counts sum to the documents that have every source |
| `Scroll.ScrollTable.InsertContext` | crates/surch-api/src/scroll.rs:64-70 | evicts what has expired, then adds the context |
| `Scroll.ScrollTable.TakeContext` | crates/surch-api/src/scroll.rs:74-78 | hands out and removes an unexpired context, or nothing |
| `Scroll.ScrollTable.GcLocked` | crates/surch-api/src/scroll.rs:86-89 | keeps exactly the unexpired contexts |
| `Scroll.TableHolds` | crates/surch-api/src/scroll.rs:58-90 | after any run the table holds exactly the contexts inserted, untouched since, and unexpired at every event since |
| `Scroll.TakeYieldsWhatIsDue` | crates/surch-api/src/scroll.rs:74-78 | with a nondecreasing clock and fresh ids, a take yields a context if and only if it was inserted under that id, not taken since, and has not expired |
| `Scroll.AtMostOnce` | crates/surch-api/src/scroll.rs:47-53 | over any such run an id yields its context at most once |
| `Scroll.OpenScroll` | crates/surch-api/src/search.rs:924-944 | serves the first page and leaves a context whose cursor stands after it |
| `Scroll.ServeScroll` | crates/surch-api/src/search.rs:996-1040 | serves the next page and reinstalls the advanced context under a new id exactly when the page was not empty |
| `Scroll.WalkIsTheRest` | crates/surch-api/src/search.rs:1006-1040 | successive scroll pages are the rest of the list, each hit once and in order; only the last is empty |
| `Scroll.ScrollIsComplete` | crates/surch-api/src/search.rs:924-1040 | for size at least 1, the first page and the scrolled pages together are the list from `from` on |
| `Scroll.ScanAll` | crates/surch-api/src/search.rs:924-1040 | a client whose every call comes before the keepalive it last gave runs out, with any gaps, keepalives and handling times, receives that list through the table itself, whatever other contexts it holds, and leaves nothing behind |
| `Bulk.LinesConcat` | crates/surch-api/src/bulk.rs:555 | the lines of two bodies put together are the lines of each, when the first ends a line |
| `Bulk.ParseBulkLines` | crates/surch-api/src/bulk.rs:554-632 | the loop over the line iterator yields the items of the body |
| `Bulk.ItemsShift` | crates/surch-api/src/bulk.rs:554-632 | the same lines further down a body yield the same items with later line numbers |
| `Bulk.CompositionalIff` | crates/surch-api/src/bulk.rs:547-632 | parsing is compositional, whatever follows, if and only if the first part does not end awaiting a source line |
| `Bulk.BodiesConcat` | crates/surch-api/src/bulk.rs:547-632 | for request bodies as text: concatenation concatenates the items, whatever the second body, if and only if the first ends a line and does not await a source |
| `Bulk.SpansCover` | crates/surch-api/src/bulk.rs:558-632 | items consume one or two lines each and together every line once |
| `Bulk.ItemOwnsItsLines` | crates/surch-api/src/bulk.rs:558-632 | each item is parsed from its own lines only |
| `Bulk.FailureNamesItsLines` | crates/surch-api/src/bulk.rs:720-745 | a failure names a line of its own item |
| `Bulk.WrittenOperationsParse` | crates/surch-api/src/bulk.rs:554-718 | the lines written for any list of acceptable operations parse back to exactly those operations, when the reader reads back the values written |
| `Bulk.WrittenBodyParses` | crates/surch-api/src/bulk.rs:554-718 | the same for the request body as text: those lines, each a single line of text, ended by newlines |
| `BulkLines.ParsedMeans` | crates/surch-api/src/bulk.rs:558-600 | an item is an operation if and only if the operation is acceptable, its action line is an object with the single field of its name whose `_index` and `_id` are its own, and for a write the next line is its source |
| `BulkLines.LostLines` | crates/surch-api/src/bulk.rs:641-664 | a line that is not JSON, not an object, or not of one field fails alone with that error, without names |
| `BulkLines.MetadataFailures` | crates/surch-api/src/bulk.rs:673-718 | metadata fails with a given reason if and only if it is no object or its `_index`, then its `_id`, has that fault, whatever the action |
| `BulkLines.ActionFailures` | crates/surch-api/src/bulk.rs:562-600 | with good metadata, which error a name outside the four, a missing source, a source that is not JSON and one that is no object get, and on which line |
| `BulkLines.SpanMeans` | crates/surch-api/src/bulk.rs:602-617 | an item takes the next line too if and only if its action line names a write, whatever its metadata, and there is a next line |
| `BulkLines.LineLaws` | crates/surch-api/src/bulk.rs:555 | where lines end: at a newline, which takes one carriage return along; a last line without one keeps it |
| `BulkApply.OwnWrite` | crates/surch-api/src/bulk.rs:216-233 | the write queued for an item is the one at its rank in the batch |
| `BulkApply.Queue` | crates/surch-api/src/bulk.rs:213-226 | the first pass answers every item that needs no write and queues the others with their slots |
| `BulkApply.Fill` | crates/surch-api/src/bulk.rs:235-237 | the second pass puts each result into the slot of its own write, leaving no slot empty |
| `BulkApply.ApplyBulkOperations` | crates/surch-api/src/bulk.rs:209-246 | every slot is filled, slot by slot with the response due to the item there; `errors` is set exactly when some response has one |
| `BulkStore.DocumentTable.ApplyDocumentWrites` | crates/surch-api/src/state.rs:4886-4978 | the loop leaves the documents and returns the results of the writes one after the other |
| `BulkStore.BulkIsSequential` | crates/surch-api/src/bulk.rs:206-245 | the documents after a bulk body, and the response to each item, are those of performing the items one after the other: index and update store and answer 201 and 200, create stores and answers 201 or conflicts with 409, delete removes and answers 200, and a refused or failed item changes nothing and answers 400 |
| `BulkStore.OthersUntouched` | crates/surch-api/src/bulk.rs:254-318 | an item touches no document but its own |
| `BulkStore.CreatesKeepDocuments` | crates/surch-api/src/bulk.rs:280-299 | creates never change a document that was there before them |
| `BulkStore.DocPartMeans` | crates/surch-api/src/bulk.rs:268-269 | an update stores the `doc` field of its source, or the source if it has none |
| `BulkApply.ResponseAnswersItsItem` | crates/surch-api/src/bulk.rs:255-443 | the response at a position has the verb and id of the operation there, with the resolved index for a write made and the requested one otherwise; a failed item gets status 400 under the action, index and id recognised of it |
| `BulkApply.BadMetadataShownAsIndex` | crates/surch-api/src/bulk.rs:424-443 | an item with a recognised action and bad metadata is answered under `index`: among the four actions, the one asked for is kept if and only if it was `index` |
| `BulkApply.CreateShownAsIndex` | crates/surch-api/src/bulk.rs:424-443 | a `create` line with an empty id, answered under `index` |
| `Highlight.PreviousCharBoundary` | crates/surch-api/src/search.rs:7249-7255 | the greatest character boundary at or before the offset |
| `Highlight.NextCharBoundary` | crates/surch-api/src/search.rs:7257-7263 | the least character boundary at or after the offset |
| `Highlight.TextTokenSpans` | crates/surch-api/src/search.rs:7370-7403 | token spans are separated, lie on character boundaries, and cover exactly the characters that do not fold to nothing |
| `Highlight.PickedTokensSeparated` | crates/surch-api/src/search.rs:7299-7368 | whatever tokens the clauses of a query pick, sorted and deduplicated, are separated spans |
| `Highlight.WindowCovers` | crates/surch-api/src/search.rs:7217-7226 | a cluster no longer than the fragment size lies inside its window |
| `HighlightWindows.WindowPlaced` | crates/surch-api/src/search.rs:7217-7226 | before widening the window has the requested size, or that of the text, and starts half of it before the cluster's middle, or at 0, or ends with the text; it is widened to the nearest characters outward |
| `HighlightWindows.WindowSize` | crates/surch-api/src/search.rs:7217-7226 | where no character has more than four bytes it is at least that size and at most six bytes more |
| `Highlight.RenderRegion` | crates/surch-api/src/search.rs:7265-7290 | the cursor loop renders the pieces of the region; every slice lies on character boundaries |
| `Highlight.RenderClusterFragment` | crates/surch-api/src/search.rs:7208-7247 | renders the window around a cluster with its spans clipped to it |
| `Highlight.BuildHighlightFragments` | crates/surch-api/src/search.rs:7128-7206 | one fragment for each of the first `max_fragments` clusters, in order |
| `Highlight.FragmentAt` | crates/surch-api/src/search.rs:7128-7206 | fragment `k` is the one of cluster `k` |
| `Highlight.FragmentIsSlice` | crates/surch-api/src/search.rs:7208-7290 | a fragment without its tags is a contiguous slice of the text, for any spans |
| `HighlightWindows.FragmentPlaced` | crates/surch-api/src/search.rs:7128-7247 | fragment `k`, stripped of its tags, is exactly the text in the window around cluster `k`, so placed and so long |
| `HighlightWindows.FragmentLength` | crates/surch-api/src/search.rs:7128-7247 | in any UTF-8 text, fragment `k` without tags is as long as requested, or as the text, and at most six bytes longer |
| `HighlightWindows.BoundariesBetweenCharacters` | crates/surch-api/src/search.rs:7249-7263 | in UTF-8 text the boundaries are exactly the offsets between characters |
| `HighlightWindows.RenderedConcat` | crates/surch-api/src/search.rs:7265-7290 | pieces are rendered one after the other |
| `HighlightWindows.RenderedOne` | crates/surch-api/src/search.rs:7265-7290 | a tagged piece stands between the opening and the closing tag, a plain one alone |
| `HighlightWindows.TagsExactly` | crates/surch-api/src/search.rs:7228-7238 | a fragment tags of each matched span of its cluster what lies in the window, and nothing else; an empty tag at the start where nothing does |
| `HighlightWindows.SomethingTagged` | crates/surch-api/src/search.rs:7208-7247 | with a fragment size of at least 1 every fragment tags some of what was matched |
| `HighlightWindows.SmallFragment` | crates/surch-api/src/search.rs:7128-7247 | three bytes around `b` in `a b c`, byte by byte with their tags |
| `Highlight.ClustersPartition` | crates/surch-api/src/search.rs:7169-7196 | the clusters are the spans cut into consecutive groups |
| `HighlightWindows.ClustersGreedy` | crates/surch-api/src/search.rs:7169-7196 | a cluster fits the fragment size unless it is one longer span, and with the first span of the next cluster it would not |
| `Highlight.MatchedTokenTaggedOnce` | crates/surch-api/src/search.rs:7128-7290 | a matched token no longer than the fragment size is tagged whole, once, in the fragment of its cluster, and no other fragment tags any byte of it |
| `Highlight.WholeTextTagged` | crates/surch-api/src/search.rs:7498-7519 | without fragment settings the whole text is kept and every matched token is tagged once |

## Left out

- Buffers appended to in place (`&mut Vec<u8>`) are sequences passed in and returned, and so is the
  read position; capacity hints, scratch-buffer reuse and the position left behind by a failed read
  are not modelled.
- Machine words are bounded naturals with the bit operators defined on them, and bit vectors in the
  CRC; the host's address width only matters where `usize` saturates, in `TopKWindow` and `Scroll`.
- Calendar.CountDays: covers years from 0 on, all an eight-digit string can hold; the `i32`/`i64`
  casts of the calendar functions are mathematical integers here.
- CandidateSets.PostingCandidateIds: the leaf lookups, the leapfrog and the match conjunction enter by
  contract; boosts and scores of query nodes do not affect matching and are omitted.
- CandidateSets.SearchIsRight: the contract has leaf postings equal to what leaves match. The source
  can part from it on a field with its own search analyser, where a `term` is looked up by the
  field's index analyser (crates/surch-api/src/state.rs:4347) and matched by the search analyser
  (crates/surch-api/src/search.rs:6512-6515). Tokens are independent of one another: fields derived
  from one value, or analysers whose tokens imply others, are not told apart.
- TopKWindow.FinalizeTopK: scores are reals, so NaN and infinities do not arise; in the generic path
  each candidate is scored just before it is offered, which changes nothing here. Hydration of the
  winning documents is not modelled.
- TopKWindow.TopKIsFullPath: takes the library's stable sort by its contract, and the documents in
  internal id order, as the candidate sets deliver them; multi-index searches and explicit sort
  clauses take other paths.
- TopN.SearchPosition: stands for the library's binary search; any insertion point it may return is
  covered.
- Composite.ComputeComposite: field lookup is a map from names to values and the truncation of dates
  to calendar intervals is a parameter; JSON numbers and compound values are represented by their
  rendering.
- Scroll.ServeScroll: the result list of a request is frozen; the clock and the generated ids are
  parameters, and instants are natural numbers, so an overflowing expiry is not modelled. Parsing of
  keepalive strings is left out.
- Bulk.ParseBulkLines: the JSON reader and the index-name rule are parameters; error texts of the
  JSON library are not carried.
- BulkApply.ApplyBulkOperations: the document store answers a batch by contract, one result per
  write, in order and naming its document; response texts are reduced to the error type.
- BulkStore.DocumentTable.ApplyDocumentWrites: keeps the documents by index and id; implicit index
  creation, the postings rebuilt after the batch and cache invalidation are not modelled.
- Highlight.TextTokenSpans: which characters fold to nothing is a parameter; the normalised token
  text, which only selects tokens, is not built. Fragment sizes are bounded by the request parser, so
  offset additions do not overflow.
- Roaring.IntersectForEach: the callback is the list of ids it is called with.
- Codec headers (`write_header`, `check_header`): their fields round-trip one by one, which would
  only add easy members.
- HTTP handlers, JSON request parsing, response caching, metrics and memory accounting: plumbing
  without a deep property.
- BM25 and function scores, decay functions, geographic filters, fuzzy distance: floating point and
  transcendental functions.
- The comparison of sort values of mixed JSON types: not a total order, so no sorting law holds of it.
- Segment files, manifests, snapshots, live-document masks, analysers: outside this model.
