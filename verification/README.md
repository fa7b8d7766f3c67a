# Two codecs and an algebra of address maps

A Dafny model of the delta and compression code of the repository, with proofs of what it promises.

- **LZMS** (`crates/lzms`): an adaptive range coder that runs forward from the front of the buffer and ripples carries
  into words already cached; a bit stream that runs backward from the end; five adaptive Huffman codes that encoder and
  decoder rebuild in step; matches through queues of recent offsets; an x86 filter around everything; and the WIM
  framings of the result.
- **PseudoLzx** (`src/lzx`, `src/huffman.rs`, `src/bitstream`): a bit stream with an over-reading accumulator,
  left-leaning canonical codes decoded by counting trailing zeros, a length limiter that repairs the Kraft sum, code
  lengths coded as differences and runs, four classes of offsets with three recent distances, and copies that are taken
  up anew at every breakpoint of an address map.
- **Rift maps** (`src/lzx/rift.rs`): piecewise offsets on 64-bit positions, their composition, sum, normal form, inverse
  and serialized form.
- **Block patches** (`src/bsdiff`): suffix sorting by prefix doubling, the match search, making and applying patches.
- **x64 displacements** (`src/pe/transform.rs`): the length disassembler and the pass that rewrites displacements.

Code that changes state is modelled by classes and methods over fields, arrays and loops; each method is proved equal
to a function, and the theorems are about those functions. Round trips leave open what the bytes in between mean, so
the formats also have laws in independent terms: numbers, bytes, positions, and what no other code could do better.
Integers are unbounded, and every wrap-around or cut of the source is written out: rift arithmetic wraps at 64 bits as
release builds do. A search by key reads "the rightmost entry at or below the position", which the library leaves open
for equal keys. Error values are collapsed to one or a few. Arguments that only the compiler sees (`ghost`) name the
parse or the target that a contract speaks about and never influence a result.

## Findings

- The range encoder loses a first word of 0xFFFF: it is counted before anything is cached and never written.
  `RangeCoderExact.RangeCoderExactly` says for which bit sequences this happens; a stream that begins with a 0 bit, as
  the compressor's does, is safe.
- A solid resource keeps only 32 bits of the chunk size. `WimWriting.SolidReadableExactly` says for which sizes it can
  still be read.
- Reading a range of a solid resource agrees with the full decode exactly when no chunk is empty
  (`WimFraming.RangeAgreesExactly`).
- The inverse of a rift table leaves out the part of its start segment before position 0.
  `RiftInverseExact.InverseExactly` says for which positions that matters; a one-entry table keeps its offset instead of
  negating it (`RiftInverse.SingleEntryInverse`).
- A retry of the adaptive code can give the more frequent of two symbols the longer word
  (`CodeLengthRetry.MoreFrequentLonger`): halving makes their counts equal, and then the symbol number decides.
  `CodeLengthLaws.CodeLensOrdered` is the exact order, `MoreFrequentNotLonger` the case without retries.
- The lowest 64-bit number cannot be stored in a block patch (`BsPatch.SignedReadBack`).
- The loop of `bscreate` may move its scan position back; `BsCreate.Bscreate` ends nevertheless, for any match search.

## Model

| member | source | states |
|---|---|---|
| LzmsCodec.RoundTrip | crates/lzms/src/lib.rs:64-570 | for every input of 1 byte to 64 MiB and every valid parse of the filtered input, decompressing the encoded stream gives the input |
| LzmsCodec.StreamRoundTrip | crates/lzms/src/lib.rs:64-203 | the same for the stream alone, for any contiguous offset table, with stream length at least 4 and even |
| LzmsItems.ItemSynced | crates/lzms/src/lib.rs:105-199 | after every item the decoder has recovered it, and probabilities, adaptive codes, queues, previous type and both streams agree with the encoder's |
| LzmsCompress.CompressData | crates/lzms/src/lib.rs:212-570 | for any choice between literal and match, what the compressor returns is the stream of a valid parse, and decompressing it gives the input |
| LzmsCompress.ChooseItem | crates/lzms/src/lib.rs:264-418 | the item chosen reproduces the input from what lies before it and can be coded with the current queues |
| LzmsFinder.Finder.BestChained | crates/lzms/src/lib.rs:283-305 | a match from the hash chains equals the bytes at its offset over its whole length and is no shorter than the start |
| LzmsFinder.Finder.BestDelta | crates/lzms/src/lib.rs:307-358 | a match from the signature table is explained byte by byte by the difference relation |
| LzmsProgram.DecompressData | crates/lzms/src/lib.rs:64-203 | the decompression loop on an array computes the specified decompression, errors included |
| LzmsDecoder.Decoder.TakeItem | crates/lzms/src/lib.rs:105-177 | one turn of the decoder object is one item of the specification, with the whole new state |
| LzmsEncoder.Encoder.PutItem | crates/lzms/src/lib.rs:420-558 | one item written by the encoder object is one item of the specification, with the whole new state |
| LzmsReplay.CopyMatch | crates/lzms/src/lib.rs:134-155 | the copy that doubles its run equals the byte-by-byte overlapping copy, for every offset of at least 1 |
| LzmsReplay.CopyDelta | crates/lzms/src/lib.rs:179-195 | the difference copy in place equals its byte-by-byte meaning |
| LzmsReplay.ReplayInPlace | crates/lzms/src/lib.rs:108-198 | carrying out an item in place gives the specified bytes or the specified error |
| LzmsModel.RecentOffsets.Record | crates/lzms/src/lib.rs:599-645 | the four-entry queues and the previous type change as specified for every kind of item |
| LzmsLaws.ReplayedBytes | crates/lzms/src/lib.rs:125-197 | what an item appends: a literal; bytes equal to those `offset` before; or bytes b with b[i] - b[i - span] - b[i - offset] + b[i - offset - span] divisible by 256; it fails exactly if that reaches before the start |
| LzmsLaws.LzRemembered | crates/lzms/src/lib.rs:117-130 | an LZ match puts its offset in front of the queue: a new one pushes out the oldest, repeat code r takes entry r, or r + 1 right after an LZ match; the delta queue stays |
| LzmsLaws.DeltaRemembered | crates/lzms/src/lib.rs:158-174 | the same for delta matches, with pairs of offset and power |
| LzmsLaws.ItemByBits | crates/lzms/src/lib.rs:105-176 | a first decision 0 is a literal, 1 and 0 an LZ match, 1 and 1 a delta match, and then 0 announces an explicit offset |
| LzmsLaws.RepByBits | crates/lzms/src/lib.rs:599-614 | the repeat code is the number of 1 bits before the first 0, at most two |
| LzmsLaws.FreshModel | crates/lzms/src/lib.rs:83-103 | at the start the five codes have 256, 54, 8 and as many symbols as there are offset slots, each counted once, and are rebuilt after 1024 or 512 symbols |
| RangeCoding.RangeCoderRoundTrip | crates/lzms/src/range_coder.rs:46-176 | for every sequence of context and bit pairs that begins with 0, the decoder recovers all bits, whatever follows in the data |
| RangeCoderExact.RangeCoderExactly | crates/lzms/src/range_coder.rs:64-176 | for every sequence: the decoder recovers all bits if and only if the first shift happens with the low end below 0xFFFF0000 |
| RangeCoderExact.LostWordSmall | crates/lzms/src/range_coder.rs:64-83 | when the first word is lost, the words that are written start below 0xFFFF0000 |
| RangeCoding.LeadingOnesLoseAWord | crates/lzms/src/range_coder.rs:64-79 | ten 1 bits in a fresh context lose a word, and the first decoded bit is wrong |
| RangeCoding.DecodeBitInStep | crates/lzms/src/range_coder.rs:141-176 | one bit: if the words lie in the encoder's next interval, the decoder finds the bit and stays in step, with equal range |
| RangeCoding.CarryRipples | crates/lzms/src/range_coder.rs:64-83 | a carry into the cached word and the pending 0xFFFF words adds exactly 1 to the number they spell |
| RangeCoding.FinishContains | crates/lzms/src/range_coder.rs:111-122 | after the four final shifts the words name the lower end of the interval, with no word missing |
| RangeCoding.Update | crates/lzms/src/range_coder.rs:186-223 | the zero count stays the number of zero bits among the last 64 |
| LzmsLaws.ProbabilityIsShare | crates/lzms/src/range_coder.rs:186-223 | after 64 bits in a context the probability of a 0 is the share of zeros among the last 64 bits, at least 1 and at most 63 of 64 |
| LzmsLaws.StateIsRecent | crates/lzms/src/range_coder.rs:86-106 | the context of a decision is the number formed by the last decisions of its kind: 4, 5 or 6 of them |
| LzmsLaws.DecisionProbability | crates/lzms/src/range_coder.rs:86-106 | a decision is coded with the estimate of its own state, and only that estimate learns from it |
| LzmsLaws.IntervalCut | crates/lzms/src/range_coder.rs:86-106 | the interval is cut into a lower part for 0, between the nearest below prob/64 of it and that, and an adjoining upper part for 1 |
| RangeCodec.RangeEncoder.EncodeBit | crates/lzms/src/range_coder.rs:85-109 | the encoder object follows the specification for any bit; its normalizing loop turns at most once |
| RangeCodec.RangeDecoder.DecodeBit | crates/lzms/src/range_coder.rs:141-176 | the decoder object follows the specification |
| AdaptiveCodes.DecodeEncoded | crates/lzms/src/adaptive.rs:251-320 | decoding an encoded symbol gives the symbol, the rest of the bits and the encoder's own next code, before and after any rebuild |
| AdaptiveCodes.AdaptiveCode.DecodeSymbol | crates/lzms/src/adaptive.rs:281-320 | lookup in the 10-bit table and the overflow tree is the specified prefix decoding, with the counts and rebuilds |
| AdaptiveCodes.AdaptiveCode.EncodeSymbol | crates/lzms/src/adaptive.rs:251-279 | the code of the symbol is appended and the model observes the symbol |
| AdaptiveCodes.AdaptiveCode.RebuildAndDilute | crates/lzms/src/adaptive.rs:273-279 | the new code comes from the full counts, the tables fit it, and only then the counts are halved |
| DecodeTables.LookupIsPrefixDecoding | crates/lzms/src/adaptive.rs:178-242 | for every window of 15 bits the tables give the unique symbol whose code starts it, or nothing if there is none |
| CodeLengths.CodeLensPrefixCode | crates/lzms/src/adaptive.rs:366-457 | for any valid counts the lengths are at most 15 and do not overfill the code; with two or more symbols the code is complete; every active symbol has a code |
| CodeLengthLaws.CodeLensShortest | crates/lzms/src/adaptive.rs:372-457 | no prefix code of at most 15 bits for the same symbols has a smaller weighted length; the weights are the counts, or after retries the counts halved as often, rounding up |
| CodeLengthTies.CodeLensTies | crates/lzms/src/adaptive.rs:331-346 | among the cheapest prefix codes the lengths have the least sum, because equal weights go to the leaf |
| CodeLengthLaws.CodeLensOrdered | crates/lzms/src/adaptive.rs:394-457 | of two symbols with counts, the one with the larger deciding count, or the larger number if these are equal, never has the longer word |
| CodeLengthLaws.MoreFrequentNotLonger | crates/lzms/src/adaptive.rs:394-457 | as long as the counts add up to less than 2584, a more frequent symbol never has the longer word |
| CodeLengthLaws.DecidingAreScaled | crates/lzms/src/adaptive.rs:452-455 | the deciding counts are the counts divided by one power of two, rounded up; by 1 whenever they add up to less than 2584 |
| CodeLengthRetry.MoreFrequentLonger | crates/lzms/src/adaptive.rs:394-457 | seventeen counts for which a retry gives a symbol counted twice 9 bits and one counted once 8 |
| CodeLengthOrder.SortOrdered | crates/lzms/src/adaptive.rs:394-396 | the leaves are strictly ordered by weight and then by symbol number |
| CodeLengthCost.MergeIsBest | crates/lzms/src/adaptive.rs:406-427 | however lengths of a prefix code are given to the trees in the queues, merging them costs no more |
| AdaptiveLaws.CountsGrow | crates/lzms/src/adaptive.rs:251-261 | until the countdown ends each count is the old one plus the occurrences of its symbol, and the code stays |
| AdaptiveLaws.RebuiltFromCounts | crates/lzms/src/adaptive.rs:251-279 | the symbol that ends the countdown brings the lengths for all counts so far, and only then the counts are halved, plus 1 |
| AdaptiveLaws.RebuiltShortest | crates/lzms/src/adaptive.rs:273-279 | after a rebuild no prefix code is shorter on what was counted |
| CodeLengths.RetryProgress | crates/lzms/src/adaptive.rs:372-457 | if the tree is too deep, halving the counts makes their sum smaller, so the retries end |
| CodeLengths.UnitTreeShallow | crates/lzms/src/adaptive.rs:331-457 | with all counts 1 the tree of up to 799 symbols is at most 15 deep |
| CodeLenCompute.ComputeLens | crates/lzms/src/adaptive.rs:366-457 | the two-queue merge over arrays, the depth pass and the retries compute the specified lengths |
| CanonicalCode.PrefixFree | crates/lzms/src/adaptive.rs:153-176 | no code of a symbol starts the code of another |
| CanonicalCode.CodesInOrder | crates/lzms/src/adaptive.rs:153-176 | each code starts where the codes before it end: shorter ones first, equal lengths by symbol number |
| CanonicalCode.EveryWindowDecodes | crates/lzms/src/adaptive.rs:178-242 | a complete code has a symbol for every window of 15 bits |
| BackBits.BackBytesReadBack | crates/lzms/src/adaptive.rs:72-105 | the bits written backward are the first bits read backward, whatever stands in front of them |
| BackBits.BackStreamBit | crates/lzms/src/adaptive.rs:28-37 | bit k of word j is the k-th highest bit of the little-endian word that ends 2j bytes before the end of the buffer |
| SlotTables.OffsetTableContiguous | crates/lzms/src/tables.rs:100-129 | the generated offset slots are contiguous, and each is a power of two wide |
| SlotTables.OffsetSlotCovers | crates/lzms/src/tables.rs:131-189 | the slot found for an offset exists for the output size, and its extra bits hold the rest of the offset |
| SlotTables.LengthSlotCovers | crates/lzms/src/tables.rs:153-206 | the slot found for a length and its extra bits hold the length |
| SlotTables.Generate | crates/lzms/src/tables.rs:100-116 | the generating loops produce the specified table |
| X86Filter.X86RoundTrip | crates/lzms/src/x86_filter.rs:8-69 | for every buffer and both directions, each pass undoes the other |
| X86Sites.ForwardIsAbsolute | crates/lzms/src/x86_filter.rs:8-69 | the forward filter adds the position, modulo 2^32, to exactly those operands whose instruction lies at most 511 or 1023 bytes behind an operand with a repeated 16-bit target, and changes no other byte |
| X86Sites.UndoIsRelative | crates/lzms/src/x86_filter.rs:51-56 | the undoing filter takes the position off exactly those operands that its result makes translated |
| X86Sites.SameAddressSameBytes | crates/lzms/src/x86_filter.rs:57-62 | two translated operands that stand for one address become the same four bytes |
| X86Sites.SameOperands | crates/lzms/src/x86_filter.rs:21-49 | neither direction changes which operands there are |
| X86Sites.SiteBytes | crates/lzms/src/x86_filter.rs:22-49 | the instructions with an operand, and the jump whose operand is skipped, byte by byte |
| X86Filter.FilterInPlace | crates/lzms/src/x86_filter.rs:8-69 | the pass over the array is the specified one |
| WimWriting.SolidRoundTrip | crates/lzms/src/wim.rs:199-282 | a solid resource with any 32-bit chunk size, however its chunks are stored, decodes to the data |
| WimWriting.SolidReadableExactly | crates/lzms/src/wim.rs:199-282 | it reads back if and only if there is no data, the chunk size has 32 bits, or the data fits what is left of the chunk size modulo 2^32 |
| WimProgram.CompressSolid | crates/lzms/src/wim.rs:256-282 | an error exactly for chunk size 0; otherwise header, table and the shorter form of every chunk, and the resource reads back exactly under that condition |
| WimWriting.SolidContents | crates/lzms/src/wim.rs:256-282 | little-endian: the length in 8 bytes, the chunk size cut to 32 bits, 3, and the size of each payload; then the payloads one after the other |
| WimProgram.CompressChunk | crates/lzms/src/wim.rs:68-75 | what is stored is the stream of a valid parse if that is shorter, and the chunk itself otherwise |
| WimWriting.ResourceRoundTrip | crates/lzms/src/wim.rs:85-183 | a resource with a table of offsets decodes to the data for every chunk size; the reader finds the width of the table entries from the length alone |
| WimProgram.CompressResource | crates/lzms/src/wim.rs:148-183 | an error exactly for chunk size 0; otherwise offset table and the shorter form of every chunk, and what is written decodes to the data |
| WimWriting.ResourceContents | crates/lzms/src/wim.rs:163-183 | little-endian: where each chunk but the first starts, in 4 bytes as long as table and data stay below 4 GiB and otherwise in 8; then the payloads |
| WimFraming.RangeAgrees | crates/lzms/src/wim.rs:407-462 | for a resource that decodes and has no empty chunk, every non-empty range inside it reads as that slice of the full output |
| WimFraming.RangeAgreesExactly | crates/lzms/src/wim.rs:407-462 | all ranges of a resource that decodes agree with the full output if and only if no chunk is empty |
| WimProgram.DecompressSolidRange | crates/lzms/src/wim.rs:436-462 | the loop over the covering chunks computes the specified range |
| Rift.Multiply | src/lzx/rift.rs:328-410 | for all sorted tables the product is sorted and sends every 64-bit position where the second map sends the image under the first |
| Rift.ImageFromEntry | src/lzx/rift.rs:296-318 | from the source of an entry to the next one positions keep their distance to its target |
| Rift.ImageBelow | src/lzx/rift.rs:302-305 | below the first entry the offset of the last one holds, and an empty table moves nothing |
| RiftReduce.Sum | src/lzx/rift.rs:724-752 | for all sorted tables the offsets of the sum are the sums of the offsets at every 64-bit position |
| RiftReduce.ReducedSameMap | src/lzx/rift.rs:66-128 | for sorted tables with distinct sources the reduction is in normal form and denotes the same map |
| RiftReduce.ReducedWithoutUnset | src/lzx/rift.rs:66-128 | with unset entries dropped the reduction is the normal form of the map of the others |
| RiftReduce.ReducedDecidesEquality | src/lzx/rift.rs:66-128 | two such tables denote the same map if and only if their reductions are equal |
| RiftNormal.NormalFormUnique | src/lzx/rift.rs:66-128 | two tables in normal form with the same map are equal |
| RiftReduce.StrictMajorityWins | src/lzx/rift.rs:70-98 | among entries with one source a target with a strict majority is elected |
| RiftReduce.InternalReduce | src/lzx/rift.rs:66-128 | the loops compute the specified reduction, with or without unset entries |
| RiftInverseExact.InverseExactly | src/lzx/rift.rs:429-642 | for every moderate table and every position: the inverse leads back to a position with the same image if and only if the walk claims the image, or the nearest claim below it has the offset of the start segment |
| RiftInverseExact.RunIsInverted | src/lzx/rift.rs:429-642 | any strictly increasing table of two or more entries, of any size: a claimed position is inverted if its run of claimed positions reaches neither the lowest position nor the one that its offset leads there from |
| RiftInverseExact.LowestSourceDropped | src/lzx/rift.rs:624-642 | the condition of `RunIsInverted` is needed: a two-entry table with a source at the lowest position, whose image is not inverted |
| RiftInverseExact.ClaimedIsInverted | src/lzx/rift.rs:429-642 | every image that the walk claims is inverted, whether or not a segment starts at 0 |
| RiftInverse.InverseSendsBack | src/lzx/rift.rs:429-642 | for every walked position of a moderate table, the inverse leads from its image to the position that the first segment in wrap order sends there |
| RiftInverse.SingleEntryInverse | src/lzx/rift.rs:442-453 | the inverse of a one-entry table is one exactly when its offset is 0 or half a turn |
| RiftInverse.PartBelowZeroMissed | src/lzx/rift.rs:462-488 | a table without a source at 0 and a position below 0 that is not led back |
| RiftCover.PieceClaimed | src/lzx/rift.rs:505-636 | one claim keeps the buffer sorted, disjoint and covering exactly the claimed positions, each served by the entry of its first claim |
| RiftReverseRun.Reverse | src/lzx/rift.rs:429-716 | the walk over the two working arrays computes the specified inverse |
| RiftReverseRun.BufferSuffices | src/lzx/rift.rs:455-460 | at every moment of the walk the buffer holds at most two intervals for each entry |
| BitReading.BitReader.Refill | src/bitstream/mod.rs:66-88 | loading whole words over what is already there leaves the remaining bits as they were |
| BitReading.BitReader.ReadBits | src/bitstream/mod.rs:133-153 | a field is the next bits of the stream, or nothing if they are not there |
| BitWriting.I64ReadBack | src/bitstream/mod.rs:155-203 | every 64-bit number is read back from its variable-length form |
| LzxWire.GroupedNumber | src/bitstream/mod.rs:335-358 | a 64-bit number is written as zeros for the four-bit groups above the lowest one, a 1, and the groups, lowest bit first |
| BitWriting.U32ReadBack | src/bitstream/mod.rs:205-230 | every 32-bit number from 256 on is read back |
| BitWriting.BitWriter.WriteBits | src/bitstream/mod.rs:306-333 | exactly the low bits of the value are appended, also across the 64-bit accumulator |
| BitRoundTrip.WriteItems | src/bitstream/mod.rs:292-420 | any sequence of fields, numbers and aligned buffers is written as its bits, sealed with the padding count |
| BitRoundTrip.ReadItems | src/bitstream/mod.rs:23-286 | reading the same kinds gives every item back, in order |
| LeftCode.LeftUnique | src/huffman.rs:59-90 | with a full Kraft sum no window starts with the codes of two symbols |
| LeftCode.LeftExists | src/huffman.rs:59-90 | with a full Kraft sum every window of 16 bits starts with a code |
| LeftCode.LeftCodesInOrder | src/huffman.rs:55-100 | each code starts where the codes before it end: longer ones first, equal lengths by symbol number |
| CtzTable.CellIsDecoding | src/huffman.rs:92-171 | in a finished table the cell for any window holds the symbol whose code starts it, and its length |
| HuffmanBuild.FromLengths | src/huffman.rs:40-171 | refuses exactly lengths above 16; for a complete code the loops build a finished table |
| HuffmanBuild.ReadSymbol | src/huffman.rs:318-351 | for a complete code the lookup gives the symbol and consumes its length, whatever bits follow; never a symbol out of range |
| HuffmanBuild.WriteSymbol | src/huffman.rs:353-358 | exactly the code of the symbol is appended |
| KraftRepair.RepairLengths | src/huffman.rs:249-294 | both repair loops keep the number of leaves and end with Kraft sum exactly 2^max; every move is the one the rules pick, and a full distribution stays as it is |
| LengthLimit.LengthCounts | src/huffman.rs:206-294 | heap merge, depth cap and repair give as many leaves as weights and Kraft sum exactly 2^max; before cap and repair the lengths are those of a cheapest prefix code |
| FrequencyCodes.LengthsFor | src/huffman.rs:183-311 | no length is above the limit, every used symbol has one, the code is complete whenever any symbol is used and there are two, a more frequent symbol never has the longer code, and if the merged tree keeps to the limit no prefix code is shorter in all |
| LengthOrder.AscendingCheapest | src/huffman.rs:296-308 | handing out lengths in ascending order to descending weights is the cheapest arrangement of them |
| HeapCost.MergeDominates | src/huffman.rs:216-222 | merging the two least trees keeps this: any code for the weights gives one for the trees, cheaper by what the merges cost |
| FrequencyCodes.FlatComplete | src/lzx/format.rs:19-36 | the flat code of any number of symbols from 2 to 65536 is complete |
| FrequencyCodes.FlatOrder | src/lzx/format.rs:19-36 | the lengths of a flat code do not decrease and differ by at most 1 |
| FrequencyCodes.FlatUnique | src/lzx/format.rs:19-36 | there is no other complete code with lengths of that kind |
| MatchCoding.CopyReadBack | src/lzx/encode.rs:763-928 | for complete codes, every length from 2 on and every usable offset, reading gives back what was written, whatever follows |
| MatchCoding.FitsExactly | src/lzx/encode.rs:735-761 | the table has a place for an offset exactly if it is below the base of plain distances plus 2^18 |
| LzxWire.OffsetSlots | src/lzx/encode.rs:763-850 | three sizes of signed differences, the mapped place and three recent distances, each with its range of offsets and field width |
| LzxWire.DistanceSlots | src/lzx/encode.rs:763-850 | two slots for every power of two: the slot tells the two highest bits, the rest follows, the lowest four as a symbol from 2^5 on |
| LzxWire.CopySymbol | src/lzx/encode.rs:763-800 | the main symbol is 256 plus eight times the offset slot plus the length less 1, or 0 for lengths above 8 |
| MatchCoding.AdjIs | src/lzx/encode.rs:670-755 | the slot found by search is the one computed from the highest bits, as the bands do not overlap |
| MatchCodec.FindBand | src/lzx/encode.rs:784-840 | the search finds the band of every 32-bit distance from 4 on |
| MatchCodec.ComputeSymbolInfo | src/lzx/encode.rs:662-716 | slot and aligned flag are those of the code that is written |
| MatchCodec.EncodeCopy | src/lzx/encode.rs:763-928 | the copy is written exactly if its offset has a place, and otherwise nothing is |
| MatchCodec.ReadCopy | src/lzx/decode.rs:374-496 | the reader agrees with the bit-list meaning of the next symbol; a length of 1 is always a byte |
| LengthCoding.ChooseSyms | src/lzx/encode.rs:506-602 | replaying the chosen symbols against the old lengths gives the new lengths |
| LengthCoding.NextSym | src/lzx/encode.rs:506-602 | each symbol extends the lengths correctly, and no run reaches the last one |
| LzxWire.SymbolsMean | src/lzx/decode.rs:74-126 | what each symbol of a length list stands for: a length, a change by 1 to 3, a repetition of the last length, or old lengths again |
| LzxWire.RunLengths | src/lzx/decode.rs:92-101 | runs of 1, 2 or 3, or of a number between a power of two and the next, up to 127 |
| LengthCoding.ReadLengths | src/lzx/decode.rs:66-131 | written lengths are read back; any other stream gives 872 lengths of at most 16 or an error |
| CompositeFraming.WriteComposite | src/lzx/encode.rs:465-655 | for any list of up to 1024 complete tables and any boundaries below 2^63, a pre-tree and symbols are found and the header made of them is appended |
| CompositeFraming.ReadComposite | src/lzx/decode.rs:12-57 | a written header is read back as the same codes and boundaries; anything else gives usable tables or an error |
| CompositeFraming.DeltaOfBounds | src/lzx/decode.rs:18-29 | a boundary is the sum of the previous one and its 64-bit difference |
| LzxFrequencies.CountSteps | src/lzx/encode.rs:290-316 | every frequency is the number of times that symbol is written |
| LzxFrequencies.TablesForSteps | src/lzx/encode.rs:290-331 | the tables are complete and have a code for every symbol of every step |
| LzxEncoder.SameSegment | src/lzx/encode.rs:333-416 | counting steps, the encoder changes segment at the same step as the decoder, which compares positions |
| LzxFinder.Finder.BestMatch | src/lzx/encode.rs:53-141 | a match equals the bytes at its distance, its offset resolves to that distance, it fits the table, and a mapped copy stays inside one rift segment |
| LzxParsing.FindParse | src/lzx/encode.rs:153-293 | the parse with lookahead consists of writable steps that play to the target |
| LzxEncoder.Compress | src/lzx/encode.rs:153-463 | for every reference, target and map, in the simple, single-segment or multi-segment form, the result is a patch that stands for the target |
| LzxEncoder.BuildComposite | src/lzx/encode.rs:398-445 | for any steps that play to the target and any cut into segments, the composite form stands for the target |
| LzxDecoder.Decompress | src/lzx/decode.rs:216-368 | a patch that stands for the target yields it; on every run each output byte with an origin equals the reference byte there, and the output is what some steps play to |
| LzxDecoding.DecodeSteps | src/lzx/decode.rs:265-361 | the loop fills the window with what the steps taken so far play to, recent distances and segments included |
| LzxEncoder.RoundTrip | src/lzx/mod.rs:28-46 | compressing and decompressing with the same reference and map gives the target |
| CopyWindow.Window.CopyOne | src/lzx/decode.rs:153-214 | a copy succeeds exactly if it starts inside the window, and is then the byte-by-byte copy of bytes and origins alike, in the reference, in the output or across |
| CopyWindow.CopyFaithful | src/lzx/decode.rs:153-214 | copying keeps every origin right |
| OffsetTable.MappedAt | src/lzx/decode.rs:320-347 | every position of a mapped copy holds what is at its own mapped position, segment by segment |
| OffsetTable.OffsetsAgree | src/lzx/rift.rs:817-850 | without negative sources the offset lookup agrees with the rift lookup on all positions from 0 on |
| LzxParse.TouchMovesToFront | src/lzx/decode.rs:310-318 | the update moves a used distance to the front and keeps the order of the others |
| LzxLaws.StepCells | src/lzx/decode.rs:153-214 | a literal appends its byte; a copy succeeds exactly if its distance is from 1 to the length of the window, and every new cell equals the one that far before it |
| LzxLaws.DistanceInNumbers | src/lzx/decode.rs:298-308 | how far back a copy goes, from its offset, the recent distances and the shift of the table |
| LzxLaws.MappedCells | src/lzx/decode.rs:320-361 | every new cell of a copy along the map equals the one at its own mapped position |
| LzxLaws.NoMapShift | src/lzx/rift.rs:817-866 | without a map such a copy takes the reference byte with the place that the new byte has in the output |
| LzxLaws.SegmentAt | src/lzx/decode.rs:276-284 | with ascending bounds the segment is the last one that starts at or before the position |
| IntCoding.NumberReadBack | src/lzx/rift.rs:980-1029 | every 64-bit number is read back under a complete code |
| LzxWire.NumberSymbols | src/lzx/rift.rs:1005-1029 | symbols 0 to 125 for numbers from 0 up, 126 to 251 for those from -1 down, mirrored |
| RiftCoding.WriteRift | src/lzx/rift.rs:215-247 | flag, both number codes, count and all differences are written |
| RiftCoding.ReadRift | src/lzx/rift.rs:134-177 | a written table comes back sorted by source |
| SuffixSorting.SuffixArray | src/bsdiff/mod.rs:256-306 | a permutation of all positions in strictly increasing order of their suffixes |
| SuffixSorting.KeysCompare | src/bsdiff/mod.rs:269-290 | comparing a pair of ranks compares twice as many bytes |
| SuffixSorting.FindMatch | src/bsdiff/mod.rs:308-346 | the match equals the source, and no suffix of the source shares more with the target |
| BsPatch.SignedReadBack | src/bsdiff/mod.rs:87-119 | a control value is read back if and only if it is not the lowest 64-bit number |
| BsPatch.ApplyBlocks | src/bsdiff/mod.rs:19-82 | applying the bytes of any fitting blocks gives what the blocks play to |
| BsPatch.PlayedByte | src/bsdiff/mod.rs:52-78 | the byte of any block at k is the difference at k plus the source byte at k from where the jumps and differences before lead, modulo 256, or the difference alone outside the source; literal bytes follow |
| BsPatch.FirstBlock | src/bsdiff/mod.rs:30-76 | the same for the bytes of the patch itself: output k is patch[24 + k] plus source[from + k] |
| BsPatch.ZerosCopy | src/bsdiff/mod.rs:52-61 | zero differences copy the source |
| BsPatch.SignedMeaning | src/bsdiff/mod.rs:84-102 | control values are 63 bits of magnitude, lowest byte first, and a sign |
| BsPatch.Bspatch | src/bsdiff/mod.rs:19-82 | the loop over the target array computes the specified application, or nothing above 64 MiB |
| BsCreate.Bscreate | src/bsdiff/mod.rs:124-254 | for every source and target with control values in range and whatever the match search answers: the loop ends, the patch is a list of fitting blocks that plays to the target, and applying it gives the target |
| BsCreate.ForwardExtent | src/bsdiff/mod.rs:167-184 | of all extents that the old offset explains in more than half of their bytes, the shortest of those with most matches |
| BsCreate.BackwardExtent | src/bsdiff/mod.rs:186-204 | the same backwards for the new match |
| BsCreate.RoundTrip | src/bsdiff/mod.rs:19-254 | a target of up to 64 MiB comes back |
| X64Disasm.FieldBlind | src/pe/transform.rs:1204-1437 | whatever is written into the displacement of an instruction or behind it, the instruction keeps its length and its displacement field |
| X64Disasm.DisasmInside | src/pe/transform.rs:1204-1437 | every step takes 1 to 15 bytes, and its displacement lies inside |
| X64Disasm.DisasmAmd64 | src/pe/transform.rs:1204-1437 | the prefix loop and the tables compute the specified instruction |
| X64Known.RelativeOperands | src/pe/transform.rs:1204-1437 | load, store, address and indirect call or jump relative to the instruction pointer: length and place of the displacement, with and without a byte 40 to 4F |
| X64Known.Branches | src/pe/transform.rs:1204-1437 | calls, jumps and all sixteen conditional jumps with a 32-bit displacement; short ones have none |
| X64Known.ConstantsBehind | src/pe/transform.rs:1204-1437 | a constant behind the displacement counts towards the length |
| X64Known.PrefixedOperands | src/pe/transform.rs:1227-1241 | each of the eleven prefixes moves the displacement on by one; 66 halves a constant |
| X64Rewrite.SweepKept | src/pe/transform.rs:1448-1511 | disassembling a rewritten function gives the same instructions in the same places |
| X64Rewrite.RewriteMaps | src/pe/transform.rs:1448-1511 | every displacement satisfies map(next) + new = map(next + old) modulo 2^32, and no other byte changes |
| X64Rewrite.MapRvaShifts | src/pe/addr.rs:31-33 | an address moves by target less source of the entry at or before it, and stays below the first entry |
| X64Rewrite.MapRvaAtEntry | src/lzx/rift.rs:785-799 | the source of an entry is sent to its target |
| X64Pass.PassKeepsMeaning | src/pe/transform.rs:1448-1511 | for functions that overlap neither each other nor their table, both hold for every function after the whole pass |
| X64Pass.PassShifts | src/pe/transform.rs:1481-1504 | in numbers: each displacement grows by the shift of the table at its old target and shrinks by the shift at the end of its instruction, modulo 2^32 |
| X64Pass.FunctionInNumbers | src/pe/transform.rs:1462-1476 | a function is listed by begin and end; one without begin, length or place in the file is left out |
| X64Pass.TransformDisasmX64 | src/pe/transform.rs:1448-1511 | the pass over the array is the specified one; a count of 0 means that nothing changed |

## Left out

- CompressData: the price comparison (`BIT_COST` and the costs of literals and matches) is an arbitrary function of the
  position; inputs above 0x465BE4A5 bytes, where the offset table ends, are not modelled, because the table has no slot
  for their offsets.
- RangeCoderRoundTrip: states the sufficient condition that the compressor meets; the exact one is `RangeCoderExactly`.
- RangeEncoder: counts of pending words and positions are not cut to 32 bits.
- SolidReadableExactly: for chunk sizes above 32 bits the data is below 2^32 bytes; `CompressSolid` has chunks of at
  most 64 MiB, the limit of a stream.
- InverseExactly: sources and targets are within a bound `m` with the extent of the sources, 0 included, plus `3 * m`
  below 2^63, and the sources are distinct. Larger values have the sufficient condition `RunIsInverted`, because entries
  at the ends of the range are dropped (`LowestSourceDropped`).
- ReducedDecidesEquality: sources are distinct; which target equal sources elect is `StrictMajorityWins`.
- BitReader: `remaining` is not cut to 32 bits, so patches of 512 MiB and more are outside.
- Compress: `LzxEncoder.Compress` takes reference and target of together below 2^32 less the offset base, as the source
  keeps positions and plain offsets in 32 bits.
- Decompress: the origins are always recorded; the mode without them only leaves them out. A table with negative sources
  is searched like a sorted one, although the source searches it unsorted there.
- LengthsFor: limits above 15 bits are not modelled; the source only uses 15. Codes that had to be repaired are not
  claimed to be the shortest under the limit.
- CodeLensShortest: the deciding counts add up to less than 2^32, as those of an adaptive code always do; beyond that
  the source lets sums saturate.
- Bscreate: the scan loops count with unbounded integers; control values are bounded by 2^31.
- PassKeepsMeaning: finding an address in the file is a function parameter; the parsed PE headers are not part of this
  model.
- The other PE transforms, CLI metadata and resource walks: long walks over fields without a law of their own.
- PA19, PA30 and PA31 headers and hashes: thin sequences over the bit stream that is modelled.
- XPRESS: there is no encoder to pair its decoder with.
- Vector maps (`reset_vector`, `set_vector_entry`), the shared-format rift form and the default number code: sequences
  of operations that are modelled.
- The Compression API container and its CRC, WinSxS lookup, command line, environment variables and allocation caps.
- Quality of the matches: any valid parse decodes.
