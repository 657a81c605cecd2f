# LZFSE and LZVN: a verified model of the codec

The library compresses byte strings to the LZFSE stream format and back. A stream is a list of blocks: raw bytes, an
LZVN block (a byte-oriented LZ77 code), or an entropy-coded block whose L/M/D records (literal run, match length,
distance) and literals are FSE (tANS) streams read backwards. This project models both directions of every layer
and proves that they invert each other, or exactly when they do.

| file | models |
|---|---|
| `Bits.dfy` | bytes, powers of two, Go's 64-bit shifts and masks, bit sequences, little-endian fields |
| `FseTables.dfy` | fse.go: decoder, value-decoder and encoder tables, and why one inverts the other |
| `FseStream.dfy` | fse.go: the bit stack, `fseInStream` and `fseOutStream` |
| `FseCoder.dfy` | fse.go: encode and decode steps, and the reversal of whole runs |
| `FseNormalize.dfy` | fse.go: `fseNormalizeFreq` |
| `Lz.dfy` | what a match copy means, and the bulk copies of both codecs |
| `Lmd.dfy`, `Records.dfy` | lzfse.go: the L/M/D symbol tables; records, their replay, and the encoder's rewriting |
| `BlockSpec.dfy`, `BlockDecode.dfy` | lzfse.go: what a block decodes to, and the decoder that computes it |
| `BlockReversal.dfy`, `BlockRoundTrip.dfy`, `BlockEncode.dfy` | lzfse.go: `encodeBlock` and the block round trip |
| `BitOrder.dfy` | the order of a block's symbols in its bits, without the accumulators |
| `FreqCode.dfy`, `V1Header.dfy`, `V2Header.dfy` | lzfse.go: the frequency-table bit stream, the V1 header and the packed V2 header |
| `FindMatches.dfy`, `Splitter.dfy` | lzfse.go: the match finder and the block splitter |
| `LazyParsing.dfy` | which matches the finder emits, as a property of the list it returns |
| `RecordLimit.dfy` | a source whose block has more records than the decoder accepts |
| `LzvnDecode.dfy`, `LzvnEmit.dfy` | lzvn.go: the opcode interpreter and the emitter |
| `LzvnOpcodes.dfy` | every LZVN opcode from its bit fields, whoever wrote it |
| `LzvnSearch.dfy`, `LzvnEncode.dfy` | lzvn.go: the encoder's search as a function, and the encoder that computes it |
| `LzvnParsing.dfy` | which operations that search issues, and the size of their code |
| `LzvnLimits.dfy`, `LzvnLongRuns.dfy` | how long literal runs get, and what becomes of a run that is too long |
| `Decompress.dfy`, `Compress.dfy` | lzfse.go: `DecompressLimit`, `Compress`, and the stream round trip |
| `StreamFormat.dfy` | the stream format on bytes: which streams decode, and which check refuses the others |
| `RoundTrips.dfy` | which sources `Compress` and `DecompressLimit` give back, and inputs they do not |

Code that changes state step by step is a class or a method with loops, proved against a function of its inputs;
the theorems are lemmas about those functions. So that a function and its loop cannot be wrong together, the format and
the choices are also stated without them: the constants, fields, tags, opcodes, orders and rules are laws of their own. Facts about a long computation are passed between lemmas as
predicates of the form "for every x equal to this argument, ...", which keeps the definitions behind them folded.

## What the code does not do

Two comments in the repository promise more than the code keeps. The model follows the code.

* lzvn.go:374-378 and lzvn.go:403-405 say that a literal run never exceeds 271 bytes. The exact bounds are 272 literals
  before a match and 280 elsewhere: `LzvnSearch.EncodeOpsReplay` proves them for every input, and
  `LzvnLimits.MatchRunAttained` and `LzvnLimits.TrailingRunAttained` give an input that attains each. From 272 on the
  length byte wraps: `LzvnEmit.LiteralHeaderExact` shows the header is right if and only if the run is at most 271.
  `LzvnEncode.CompressThenDecompress` proves the identity whenever every run is at most 271 bytes, and
  `LzvnLongRuns.UnmatchedSourceComesBack` that fewer than 280 bytes in which no three repeat come back if and only if
  they are at most 271. `LzvnLongRuns.RoundTripFailure` gives 279 bytes that `DecompressLZVN(CompressLZVN(src), n)` does
  not return for any n, and `RoundTrips.LongRunRefused` 479 bytes that `Compress` turns into a stream `DecompressLimit`
  refuses.
* lzfse.go:1521-1523 says that every block has at most 10000 records. Only two records are kept free for the literals
  after a block's last match, and those can be 39992 bytes. `Splitter.RecordBound` and `Splitter.RecordsPerByte` give
  the bounds the splitter does keep. `RoundTrips.LzfseOutcome` is the exact condition on the source: its LZFSE stream
  decodes to it if and only if each of its blocks that has a match has at most 10000 records, where the blocks are the
  splitter's on the matches found (`Compress.SourceSpans`). `RoundTrips.RecordLimitExceeded` takes a source of 220596
  bytes in which the match finder finds 9998 matches: `Compress` sends it as one block of 10001 records, and
  `DecompressLimit` refuses the stream.

What does hold for every input and every ceiling: `Compress.RoundTrip` says what each form of stream decodes to, as a
function of the source, and `RoundTrips.ComesBack` which sources come back; every source of at most 271 bytes, and every
source of 4097 to 30000 bytes, does (`RoundTrips.ShortSourcesQualify`).

## Model

| member | source | states |
|---|---|---|
| FseTables.SlotsTile | fse.go:315-329 | For every frequency, the intervals of states that a symbol's decoder slots lead to cover every state exactly once |
| FseTables.EncodeThenDecode | fse.go:431-446 | Encoding from any state lands in the symbol's own slots, on the one that reads back exactly the bits written and leads back to the state, for both shift widths and for k = 0 |
| FseTables.DecodeThenEncode | fse.go:409-414 | Conversely, encoding from every state a slot can lead to comes back to that slot with the same bits |
| FseTables.SlotIsShiftedNumber | fse.go:315-329 | Slot j of a symbol of frequency f is the number f + j shifted up to p + 1 bits: it reads as many bits as that shift and leads to the states from (f + j) * 2^bits - 2^p on |
| FseTables.OwnerOf | fse.go:303-329 | Each decoder state belongs to one symbol and one of its slots, symbols taking consecutive runs of states |
| FseTables.InitDecoderTable | fse.go:301-331 | Fails if and only if the frequencies exceed the states; otherwise every state in use holds its symbol's slot and the others keep their old entries |
| FseTables.InitValueDecoderTable | fse.go:335-373 | The same with extra bits and base values |
| FseTables.InitEncoderTable | fse.go:379-401 | Each symbol's entry is the threshold, shift and two offsets that the slots of that symbol invert |
| FseTables.StepInverts | fse.go:409-446 | A step through the whole encoder table is undone by the entry of the whole decoder table it lands on, whatever the table held before |
| FseTables.ValueStepInverts | fse.go:420-446 | The same for the value table, with the symbol's extra bits and base |
| FseTables.DecTableSafe | fse.go:301-331 | Rebuilding a table keeps every entry, left-over ones included, leading to states inside the table |
| FseTables.ValueTableSafe | fse.go:335-373 | The same for value tables, and every value they can give is in range |
| FseTables.EncoderEntriesFitInt16 | fse.go:391-393 | With at most 2^14 states the int16 fields of an encoder entry lose nothing |
| FseNormalize.NormalizeFreq | fse.go:227-295 | For 0 < total < 2^31 the result is the histogram's normalised table; exactly the symbols that occur get states, it sums to exactly the state count unless more symbols occur than there are states, and every entry fits uint16 |
| FseNormalize.NormalizedShape | fse.go:264-292 | Against the rounded shares: while less is owed than a quarter of the largest, only the first symbol with the largest share differs, and takes the whole difference; otherwise the table is what the rounds of giving leave, and no entry exceeds its share |
| FseNormalize.NormalizedFits | fse.go:227-295 | Such a table has states for exactly the symbols that occur, and 2^p in all unless more symbols occur |
| FseNormalize.ShareRounds | fse.go:244-253 | A share f of count c satisfies c * step < (2f + 1) * 2^(30-p), and (2f - 1) * 2^(30-p) <= c * step when it is above 1 |
| FseNormalize.RoundedUnique | fse.go:244-253 | No other number does |
| FseNormalize.RoundIsFourPasses | fse.go:268-291 | A round is passes with shifts 3, 2, 1 and 0, and rounds go on until one takes nothing |
| FseNormalize.PassShape | fse.go:271-286 | In a pass each symbol gives (f - 1) / 2^shift of what it has above one, at most what the ones before it left to pay |
| FseNormalize.RepaidFits | fse.go:268-291 | The rounds take no entry above its share or to zero, and repay the debt unless every symbol is left with one state |
| FseNormalize.Share | fse.go:244-253 | A symbol's share of the states, computed in units of 2^-31, is rounded to the nearest, at least 1 and at most all; the 32-bit product does not wrap |
| FseStream.InStream.Flush | fse.go:132-163 | The refill, by 8-byte load, byte by byte or at the front edge, is the specified one |
| FseStream.FlushKeepsView | fse.go:132-163 | While 56 bits remain a refill restores 56 to 63 bits, never runs off the front and leaves the remaining bit sequence unchanged |
| FseStream.FlushSafe | fse.go:132-163 | On any input whatever a refill leaves 56 bits or has used up the bytes, and no bit above the count |
| FseStream.WideLoadIsNarrowLoad | fse.go:152-158 | The masked 8-byte load equals the bytewise load |
| FseStream.PullKeepsView | fse.go:166-174 | A pull of n bits returns the top n bits of the sequence and leaves the others |
| FseStream.PullPushed | fse.go:166-192 | Pulling the width last pushed gives back the value pushed and leaves what lay below |
| FseStream.OpenStream | fse.go:89-121 | Opens a stream with the stated byte counts, and fails exactly when it is too short or has bits above the count |
| FseStream.OpensExactlyWhen | fse.go:89-121 | A stream opens if and only if its bit count n is from -8 to 0, 8 bytes are there (7 or none for n = 0), and the top -n bits of the last are zero |
| FseStream.OutStream.Push | fse.go:187-193 | A push of at most 64 bits in all appends the low n bits of the value to what was written |
| FseStream.OutStream.Flush | fse.go:196-204 | Flushing moves whole bytes to the buffer without changing what was written; fewer than 8 bits stay behind |
| FseStream.OutStream.Finish | fse.go:208-217 | Finishing pads with zeros to a whole byte and returns minus the number of padding bits |
| FseStream.InitShowsContent | fse.go:89-121 | Opening a finished stream with the writer's bit count succeeds and shows exactly the bits written |
| FseStream.OpensOnContent | lzfse.go:503-508 | Any 7 bytes in front of a finished stream are enough for that, however short the stream itself |
| FseStream.StackDuality | fse.go:89-217 | Whatever was pushed, pulling the same widths in reverse order behind any 7 bytes gives back the same values |
| FseStream.WriteItems | fse.go:187-217 | Pushes with a flush after each and a finish write exactly their bits, padded to a byte |
| FseCoder.FseEncode | fse.go:431-446 | One encoder step pushes the specified bits and moves to the specified state |
| FseCoder.DecodeUndoes | fse.go:409-446 | A decode step undoes the encode step whose bits are on top of the stack |
| FseCoder.ValueDecodeUndoes | fse.go:420-446 | The same with extra bits |
| FseCoder.DecodeStaysInside | fse.go:409-414 | On any input a decode step stays inside its table |
| FseCoder.ValueDecodeStaysInside | fse.go:420-425 | On any input a value decode step stays inside its table and its value is in range |
| FseCoder.RunReversal | fse.go:409-446 | For any frequency table and any list of values with non-zero frequencies, encoding last to first and decoding first to last gives the list and the starting state, and leaves the bits below |
| Lz.LzCopyUnique | lzfse.go:699-710 | The byte-by-byte overlapping copy is the only extension in which every byte equals the one d places earlier |
| Lz.MatchCopyInto | lzfse.go:711-721 | The pattern-doubling copy equals the byte-by-byte copy for every distance and length and touches nothing past the match |
| Lz.LzvnCopyMatch | lzvn.go:225-248 | The same for LZVN's copy, which fails exactly on a bad distance or a full buffer |
| Lmd.SymbolUnique | lzfse.go:25-43 | Every L up to 315, M up to 2359 and D up to 262139 is the base of exactly one symbol plus a residual that fits its extra bits |
| Lmd.LTable | lzfse.go:25-26 | The L ranges are consecutive and cover 0 to 315 |
| Lmd.MTable | lzfse.go:28-29 | The M ranges are consecutive and cover 0 to 2359 |
| Lmd.DTable | lzfse.go:31-43 | The D ranges are consecutive and cover 0 to 262139 |
| Lmd.LSymbols | lzfse.go:25-26 | The L symbol, residual and extra bits of every length in closed form: 0 to 15, then ranges of 4, 8, 32 and 256 |
| Lmd.MSymbols | lzfse.go:28-29 | The same for M: 0 to 15, then ranges of 8, 32, 256 and 2048 |
| Lmd.DSymbolBase | lzfse.go:31-43 | Distance symbol s has s / 4 extra bits and the base (4 + s % 4) * 2^(s / 4) - 4 |
| Lmd.DSymbols | lzfse.go:31-43 | The symbol of a distance is given by the top bit of D + 4 and the two bits below it |
| Lmd.LmdSymbol | lzfse.go:1316-1323 | The search from the last symbol down finds that symbol |
| Records.BlockRecordsReplay | lzfse.go:1088-1158 | Splitting long runs, synthetic trailing records, distance reuse and padding give records that replay to the source, whose lengths sum to the raw size and whose fields are in range |
| Records.ReuseReplay | lzfse.go:1132-1146 | Writing 0 for a repeated distance changes nothing for a decoder that keeps the distance |
| Records.ReuseAt | lzfse.go:1132-1146 | Each record keeps its lengths, and its distance unless the record before it has the same one |
| Records.ReplaySplit | lzfse.go:1089-1107 | A run split into parts of 315 with M = 0 replays as the one record it came from |
| Records.SplitRunAt | lzfse.go:1096-1108 | The parts but the last are 315 literals without a match, and the last is the rest, which is not empty |
| Records.TrailingRun | lzfse.go:1118-1130 | The literals after the last match become records without a match, of distance 1 |
| Records.ReplayLength | lzfse.go:601-653 | A successful replay only appends, exactly the lengths of its records |
| Records.RawSizeBound | lzfse.go:747-750 | A block cannot produce more than its literals plus 2359 bytes per record |
| BlockSpec.BuiltTablesOk | lzfse.go:512-530 | Building the four tables over left-over ones keeps every entry safe |
| BlockSpec.LmdStep | lzfse.go:601-609 | One record on any payload: every state stays inside its table and L, M and D are in range |
| BlockSpec.LitGroup | lzfse.go:560-566 | One group of four literals on any payload: all four states stay inside their table |
| BlockSpec.BlockExtendsPrior | lzfse.go:669-674 | An accepted block leaves the earlier output unchanged, appends exactly its declared size, and that size passes the pre-check |
| BlockDecode.Scratch.Build | lzfse.go:512-530 | The four tables in reused scratch space are those of the header; the error is a table whose frequencies exceed its states |
| BlockDecode.DecodeLiterals | lzfse.go:531-567 | The literal loop gives the literals the specification reads |
| BlockDecode.GrowOut | lzfse.go:685-697 | Growing keeps the bytes in use |
| BlockDecode.CopyLiterals | lzfse.go:621-633 | The fixed 16-byte copy leaves exactly the run's literals before the new end |
| BlockDecode.CopyMatch | lzfse.go:639-653 | So does the short match copy, which reads only real output |
| BlockDecode.CopyRecord | lzfse.go:610-653 | One record: fails exactly on missing literals or a bad distance |
| BlockDecode.CopyLoop | lzfse.go:601-654 | The record loop computes exactly the LZ replay of the decoded records on the whole stream so far: no slack byte is visible or used as a source |
| BlockDecode.DecodeCompressedBlock | lzfse.go:491-675 | For any payload and left-over tables the decoder's answer is the specified one, its tables are the header's, and no index is out of range |
| BlockReversal.LiteralsReversal | lzfse.go:560-566 | Decoding four interleaved states from one bit stream gives back exactly the literals encoded last group first |
| BlockReversal.LiteralsReversalEnds | lzfse.go:1286-1313 | It ends in the four zero states the encoder started from, with the bits below the literals still to read |
| BlockReversal.RecordsReversal | lzfse.go:1222-1249 | Decoding the L/M/D stream gives back exactly the records encoded last to first |
| BlockReversal.RecordsReversalEnds | lzfse.go:1222-1249 | It ends in the three zero states the encoder started from, with the bits below the records still to read |
| BitOrder.GroupOrder | lzfse.go:560-566 | A group of four literals is read off the top of the remaining bits, channel 0 first and channel 3 last, each as the entry of its state says |
| BitOrder.RecordOrder | lzfse.go:601-609 | A record is read off the top of the remaining bits, L, then M, then D, of each the next state's bits above those added to its base |
| BlockRoundTrip.DecodesToReplay | lzfse.go:491-675 | Whatever precedes the payload and whatever tables are left over, an encoded block decodes to the replay of its records |
| BlockRoundTrip.EncodeLitsSize | lzfse.go:1286-1313 | A literal takes at most 10 bits |
| BlockRoundTrip.EncodeRecsSize | lzfse.go:1222-1249 | A record takes at most 54 bits |
| BlockRoundTrip.HeaderFieldsFit | lzfse.go:1259-1276 | The payload sizes and bit counts of an encoded block in terms of its literal and record counts |
| BlockEncode.AppendRun | lzfse.go:1096-1105 | The splitting loop appends the records of the split run |
| BlockEncode.CollectRecords | lzfse.go:1088-1130 | The literals are the uncovered bytes and the records those of the match list with its trailing run |
| BlockEncode.ReuseDistances | lzfse.go:1132-1146 | The D-reuse pass is the specified rewriting |
| BlockEncode.PadLiterals | lzfse.go:1156-1158 | At most three zero literals are added, up to a multiple of four |
| BlockEncode.RecordCount | lzfse.go:1088-1130 | A block has no more records than raw bytes |
| BlockEncode.CountSymbols | lzfse.go:1173-1191 | Each value gets its symbol, and each count is exactly how often its symbol occurs |
| BlockEncode.EnsureNonZero | lzfse.go:1326-1333 | An empty histogram counts symbol 0 once and any other is unchanged |
| BlockEncode.FrequencyTable | lzfse.go:1195-1203 | The table is the normalised one of the symbols' histogram, sums to exactly the state count and can encode every counted symbol |
| BlockEncode.EncodeLiterals4Interleaved | lzfse.go:1286-1313 | The loop writes the specified interleaved stream and ends in its four states |
| BlockEncode.EncodeLmd | lzfse.go:1211-1254 | The backward loop writes the specified record stream behind 8 zero bytes |
| BlockEncode.EncodeBlock | lzfse.go:1078-1282 | For every source, range and valid match list the header and payload encode the rewritten records and the padded literals, under the normalised tables of their own histograms |
| BlockEncode.EncodedBlockDecodes | lzfse.go:1078-1282 | Block round trip: such a block decodes src[:srcStart] to exactly src[:srcEnd] |
| FreqCode.ReadsBack | lzfse.go:399-422 | The frequency code is prefix-free even when peeking past the end: the decoder takes exactly the word written |
| FreqCode.CodeWords | lzfse.go:399-422 | The code word of every frequency up to 1047, bit for bit |
| FreqCode.TableReadsBack | lzfse.go:216-293 | A whole list of frequencies reads back, leaving what follows it |
| FreqCode.EndsInLastByte | lzfse.go:279-286 | A table area decodes exactly when fewer than 8 bits follow its code words |
| FreqCode.ReadFreqBound | lzfse.go:252-276 | A decoded frequency is never above 1047, whatever the bits |
| FreqCode.EncodeV2FreqTableBitstream | lzfse.go:425-454 | The four tables decode to themselves, and the decoder's end-of-header check never refuses them |
| FreqCode.DecodeV2FreqTableBitstream | lzfse.go:216-293 | The accumulator loop decodes exactly what the bit-level reading says; its final check is that fewer than 8 bits are left |
| V1Header.WriteV1Header | lzfse.go:148-183 | The writes into the zeroed 772-byte buffer leave the specified header |
| V1Header.V1RoundTrip | lzfse.go:108-183 | A written V1 header reads back field for field, whatever follows it |
| V2Header.MakeV2Block | lzfse.go:1605-1647 | The packed header holds every field in its bits and is followed by the payload |
| V2Header.DecodeV2Header | lzfse.go:307-391 | The checks accept exactly the specified headers |
| V2Header.AcceptedIsOk | lzfse.go:350-369 | An accepted header's states, the unchecked literal states included, index inside their tables |
| V2Header.HeaderRoundTrip | lzfse.go:307-391 | A packed header reads back as itself if it is acceptable and is refused otherwise, whatever follows |
| FindMatches.ParseIsValid | lzfse.go:932-1065 | Every source gives a valid parse: in order, not overlapping, every match a verified copy with 3 <= M <= 2359 and 1 <= D <= 262139 |
| FindMatches.ConsideredKeeps | lzfse.go:1014-1050 | A pending match that survives is shorter than 40, so at most one match is emitted at a position |
| FindMatches.BestOfGood | lzfse.go:984-1008 | The best candidate of a bucket is a verified match in range |
| FindMatches.MatchLengthExact | lzfse.go:996-1003 | The bytes counted agree, and the count stops only at a difference, the end or 2359 |
| FindMatches.LzfseHashIsTopBits | lzfse.go:918-921 | The hash is the top 14 bits of the 32-bit product with 2654435761 |
| FindMatches.FindMatches | lzfse.go:917-1065 | The loop over the hash table computes the specified parse |
| LazyParsing.BestOfIsBest | lzfse.go:984-1008 | No entry of the bucket with the same word within reach gives a longer match, or one as long and nearer, and the result is one of those matches unless none has three bytes |
| LazyParsing.BestOfTheLatest | lzfse.go:962-1008 | The bucket is the four latest visited positions with the hash of the word, latest first, and their words |
| LazyParsing.TurnRule | lzfse.go:971-1049 | One turn, case by case: a pending match that has ended leaves, a short or covered candidate is ignored, and the others wait, replace, leave at once from 40 bytes, or make the pending match leave |
| LazyParsing.CandidateMeetsPending | lzfse.go:1014-1049 | A candidate longer than the pending match that covers it, or as long and nearer, takes its place and nothing is emitted for that one; otherwise the pending match leaves as it stands |
| LazyParsing.ParseIsLazy | lzfse.go:917-1065 | For every source: each match returned is the best one of a visited position, and such a best match of three bytes or more is returned if and only if it does not begin inside a returned match and the next one does not both begin inside it and beat it |
| LazyParsing.VisitedToTheEnd | lzfse.go:956-1049 | Every position but the last eight is visited, or lies inside a returned match of at least 40 bytes |
| Splitter.MatchCutKeeps | lzfse.go:1438-1449 | At most 10000 matches; the block ends where the next match begins and cuts none |
| Splitter.RawCutKeeps | lzfse.go:1455-1468 | At most 2^19 bytes: whole matches, or a literal span that the next match overshoots |
| Splitter.LiteralCutKeeps | lzfse.go:1481-1514 | At most 39992 literals, and no match straddles the end even after a literal span of 2^19; what fits is not cut |
| Splitter.RecordCutKeeps | lzfse.go:1524-1555 | At most 9998 records for the matches; a block that has a match keeps one; what fits is not cut |
| Splitter.NextCutKeeps | lzfse.go:1426-1557 | Each block is non-empty, keeps every cap, cuts no match and leaves a list placed after it; what fits whole is not cut |
| Splitter.NextCutMaximal | lzfse.go:1426-1557 | A block is as long as the caps allow: with one match more it would have over 10000 matches, 2^19 bytes, 39992 literals or 9998 records, and it ends at the next match, with 39992 literals, or after its last match where a cap stops it |
| Splitter.SpansPartition | lzfse.go:1426-1595 | For every placed match list the blocks follow one another to the end of the source, each within every cap |
| Splitter.NextBlock | lzfse.go:1426-1557 | The four cap loops compute the specified cut |
| Splitter.TrailingRecordsIsCeiling | lzfse.go:1118-1130 | A trailing run takes its length over 315 records, rounded up: at most 2 exactly up to 630 bytes |
| Splitter.RecordBound | lzfse.go:1524-1555 | The records of a block are at most 9998 plus those of its trailing run, so at most 10000 for up to 630 bytes |
| Splitter.RecordsPerByte | lzfse.go:1524-1555 | With matches of at least 3 bytes a block has at most one record for three of its bytes, rounded up |
| Splitter.RebasedIsValid | lzfse.go:1572-1582 | A block's matches with L counted from its start are a valid parse of its range |
| LzvnDecode.DecodeBuffer | lzvn.go:58-216 | The interpreter loop computes the specified decoding, errors included |
| LzvnDecode.DecodeExpansion | lzfse.go:736-740 | No payload byte produces more than 136 bytes, and the output never passes the buffer |
| LzvnOpcodes.OpcodeStep | lzvn.go:66-211 | Each of the ten opcodes, put together from its bit fields, does its effect: literals, match length and distance, the previous distance kept or set, and its failure condition |
| LzvnOpcodes.EveryOpcode | lzvn.go:66-211 | Every byte begins one of those ten |
| LzvnOpcodes.TruncatedOpcode | lzvn.go:82-205 | An opcode cut short is an error |
| LzvnOpcodes.TruncatedLiterals | lzvn.go:82-205 | So is one with too few literals after it |
| LzvnOpcodes.NopInvisible | lzvn.go:76-77 | A nop at any opcode boundary changes nothing, whatever the output and the previous distance |
| LzvnOpcodes.EndIsOptional | lzvn.go:71-74 | The end opcode ends the decoding like the end of the code |
| LzvnOpcodes.UnendedStreamDecodes | lzvn.go:68-215 | A stream of operations with runs of at most 271 literals decodes to their replay without the end opcode too |
| LzvnEmit.LiteralHeaderExact | lzvn.go:373-390 | The literal header declares its run's length if and only if the run is at most 271 |
| LzvnEmit.HeadOperands | lzvn.go:419-456 | Every match opcode emitted, the match-only one included, falls in its own class and decodes to the literals, length and distance it was made for |
| LzvnEmit.LmdDecodes | lzvn.go:402-471 | The bytes emitted for L <= 271 literals and a match decode to exactly those, and leave the distance as the decoder's previous one |
| LzvnEmit.EmitLMD | lzvn.go:402-471 | The emitter appends those bytes |
| LzvnEmit.StreamDecodes | lzvn.go:473-476 | A stream of operations with runs of at most 271 literals and the end opcode decodes to their replay |
| LzvnEmit.CodeCovers | lzvn.go:402-471 | The code of any valid operations is long enough for the decoder's expansion check |
| LzvnSearch.FindNVerified | lzvn.go:307-336 | A match is found exactly when three bytes agree within 65535; it is a verified copy, extended backwards never past the emitted literals and forwards to the first difference |
| LzvnSearch.RememberKeeps | lzvn.go:484-494 | The table holds only positions already passed, and each of the last four is still in its bucket |
| LzvnSearch.DecidedKeeps | lzvn.go:528-556 | The lazy rule keeps the backlog within 271 literals, 272 with a match pending, and everything emitted replaying to the source |
| LzvnSearch.EncodeOpsReplay | lzvn.go:478-594 | For every input the operations issued replay to exactly the input; match runs are at most 272 literals and other runs at most 280 |
| LzvnParsing.MatchIsMaximal | lzvn.go:307-336 | A match found cannot be extended backwards, and ends at a difference unless within four bytes of the end |
| LzvnParsing.IncomingIsBest | lzvn.go:507-526 | No candidate of the bucket, and not the one at the previous distance, which scores its length less one, scores more than the match chosen, and that is one of them |
| LzvnParsing.TurnRule | lzvn.go:528-556 | One turn, case by case: what is emitted, what stays pending, and which of two overlapping matches leaves |
| LzvnParsing.SearchIsLazy | lzvn.go:478-594 | The operations of a source are those of such turns from the first position to the ninth from the end, and then the rest as literals |
| LzvnParsing.BucketHolds | lzvn.go:480-494 | Every bucket holds the four latest positions with its hash, latest first |
| LzvnParsing.HashOfThree | lzvn.go:285-289 | The hash of three bytes x is 16 bits of x + 2^6 x + 2^12 x |
| LzvnParsing.IssuedAreBest | lzvn.go:478-560 | Every match issued is the best one of some position |
| LzvnParsing.LmdSize | lzvn.go:402-471 | The size of the code of L literals and a match, by the kind of opcode its length and distance call for |
| LzvnEncode.XorCountsCommon | lzvn.go:292-304 | The trailing zero bytes of the xor of two words count exactly their equal leading bytes |
| LzvnEncode.FindMatchN | lzvn.go:307-336 | The two extension loops compute the specified match |
| LzvnEncode.Encoder.Decide | lzvn.go:528-556 | The lazy rule writes the opcodes of the specified operations |
| LzvnEncode.Encoder.Encode | lzvn.go:478-560 | The main loop, with the words of every position in its table, computes the specified search |
| LzvnEncode.EncodeBuffer | lzvn.go:568-600 | The stream is the opcodes of the operations of the source, closed by the end opcode |
| LzvnEncode.CompressThenDecompress | lzvn.go:34-50 | The result is what those opcodes decode to, and the source whenever every emitted run is at most 271 bytes |
| LzvnLimits.UnmatchedSource | lzvn.go:478-594 | Fewer than 280 bytes in which no three repeat leave as one literal run |
| LzvnLimits.MatchRunAttained | lzvn.go:550-553 | A source whose first operation is a match behind 272 literals |
| LzvnLimits.TrailingRunAttained | lzvn.go:590-594 | A source whose trailing run is 280 literals |
| LzvnLongRuns.WrappedRun | lzvn.go:373-390 | Of a longer run the decoder takes all but 256 bytes and reads those as opcodes |
| LzvnLongRuns.UnmatchedSourceComesBack | lzvn.go:34-50 | Fewer than 280 bytes in which no three repeat come back if and only if they are at most 271 |
| LzvnLongRuns.RoundTripFailure | lzvn.go:34-50 | The decoder rejects the encoder's stream for a concrete source of 279 bytes |
| LzvnLongRuns.ZerosThenTailFails | lzvn.go:373-390 | So it does for 200 zeros and those 279 bytes, whatever the buffer |
| Decompress.CompressedBlock | lzfse.go:823-841 | A block is checked for size, states and ceiling before it is decoded |
| Decompress.LzvnBlock | lzfse.go:873-898 | The LZVN block checks and decoding are the specified step |
| Decompress.SuccessWithinCeiling | lzfse.go:772-906 | Whatever the stream, a success has at most maxOut bytes and keeps everything decoded before |
| Decompress.RawCheckIsSound | lzfse.go:747-760 | The raw-size check refuses no block that decodes |
| Decompress.ExpansionCheckIsSound | lzfse.go:885-887 | The expansion check refuses no LZVN block that produces its declared size |
| Decompress.DecompressLimit | lzfse.go:772-906 | Terminates on every stream with the specified outcome: the bytes, too large, or invalid |
| StreamFormat.TagIsKind | lzfse.go:13-19 | The five block kinds are announced by the characters bvx$, bvx-, bvx1, bvx2 and bvxn |
| StreamFormat.V1FieldsRead | lzfse.go:108-146 | A V1 header is read from the fields at its fixed offsets |
| StreamFormat.V2FieldsRead | lzfse.go:307-391 | A V2 header is read from the bit fields of its three words and its tables, and accepted exactly within the limits on counts, states and table sums |
| StreamFormat.StepRule | lzfse.go:783-902 | One block: invalid if no block stands there whole and within its declared limits, then too large if it declares more than the ceiling leaves, then invalid if its payload does not decode; otherwise the loop goes on after it |
| StreamFormat.DecodesAsRead | lzfse.go:772-906 | For every stream, ceiling and outcome: decoding gives it if and only if the bytes do, block after block up to bvx$ or the end of the stream |
| StreamFormat.ReadsUnique | lzfse.go:772-906 | The bytes give one outcome |
| StreamFormat.OnlyWellFormed | lzfse.go:772-906 | Only a sequence of whole blocks up to bvx$ or the end of the stream decodes to anything |
| StreamFormat.BlockAdds | lzfse.go:793-898 | A block keeps the earlier output and adds exactly the bytes it declares, a stored block its own; an LZVN block may add fewer |
| Compress.EncodeThenDecodeBlock | lzfse.go:1584-1592 | The four functions of the block path in turn, on any valid match list within the limits, give back the source; the block itself takes any decoder from src[:srcStart] to src[:srcEnd] |
| Compress.LimitsFit | lzfse.go:1620-1636 | A block within the two limits fits every field of the packed header |
| Compress.StoredDecodes | lzfse.go:793-807 | A raw block decodes to its bytes |
| Compress.PackedDecodes | lzfse.go:843-871 | A packed block of at most 10000 records that ends within the ceiling takes the decoder from src[:start] to src[:end] |
| Compress.Repack | lzfse.go:1584-1592 | The block under its V1 header, read back and packed, has a packed header for the same fields and the same payload |
| Compress.V1BlockDecodes | lzfse.go:1277-1281 | The block encodeBlock returns, under its V1 header, decodes as it stands |
| Compress.PackedTooLarge | lzfse.go:823-841 | One that ends past the ceiling is reported too large |
| Compress.PackedRefused | lzfse.go:350-352 | One of more than 10000 records is refused |
| Compress.StreamDecodes | lzfse.go:772-906 | Blocks that partition the source decode to it, or to the error of the first block that has too many records or ends past the ceiling |
| Compress.EmitBlock | lzfse.go:1563-1592 | A block without matches is stored raw and any other is packed, with its own matches and the record count of its span |
| Compress.CompressMatches | lzfse.go:1409-1602 | The block loop terminates and writes exactly the blocks of the splitter's spans, which partition the source |
| Compress.CompressLZFSE | lzfse.go:1409-1602 | The same from the source alone: which blocks it gives is a function of the source |
| Compress.LzfseStreamDecodes | lzfse.go:1409-1602 | Under every ceiling the stream's outcome is the one of the source's spans |
| Compress.ShortTailsFit | lzfse.go:1524-1555 | Trailing runs of at most 630 bytes are enough for a stream that decodes |
| Compress.StoredStreamDecodes | lzfse.go:1374-1383 | A stored stream decodes to its source under every ceiling that admits it, and is too large otherwise |
| Compress.LzvnStreamDecodes | lzfse.go:1395-1406 | An LZVN stream within the expansion check decodes to what its payload decodes to, is refused if that fails, and is too large past the ceiling |
| Compress.ShortRunsComeBack | lzvn.go:373-390 | Runs of at most 271 literals are enough for a payload that decodes to the source |
| Compress.Compress | lzfse.go:1340-1362 | The output is the LZVN or LZFSE stream of the input if that is shorter than the stored one, which is 12 bytes longer than the input, and the stored one otherwise; its outcome is given for each form and every ceiling |
| RoundTrips.FormOnBytes | lzfse.go:1340-1402 | On the bytes: every output ends in bvx$; the stored form is bvx-, the length and the source, 12 bytes more than it; the other is shorter than that, one bvxn block up to 4096 bytes and LZFSE blocks beyond |
| Compress.RoundTrip | lzfse.go:1340-1362 | For every input and every ceiling DecompressLimit returns the outcome of the form, a function of the source: the source if stored, what the payload decodes to if LZVN, the source or an error by the record counts of its blocks if LZFSE |
| RoundTrips.LzfseOutcome | lzfse.go:1524-1555 | The exact outcome of a source's LZFSE stream under every ceiling: invalid if and only if a block that begins within the ceiling has a match and more than 10000 records, else too large if the source is, else the source |
| RoundTrips.ComesBack | lzfse.go:1340-1362 | Every source without an LZVN run of more than 271 literals, or without a block of more than 10000 records, comes back; an LZFSE stream does only then, an LZVN stream when its payload's answer is the source |
| RoundTrips.ShortSourcesQualify | lzfse.go:1340-1362 | Every source of at most 271 bytes, or of 4097 to 30000, is one |
| RoundTrips.CompressAndBack | lzfse.go:1340-1362 | Compress and DecompressLimit in turn return every such source |
| RecordLimit.ParseOfManyMatches | lzfse.go:917-1065 | What the match finder finds in a source of 220596 bytes: 9998 matches, and nothing in the last 640 bytes |
| RecordLimit.ManyRecords | lzfse.go:1524-1555 | They fit one block with 10001 records |
| RoundTrips.RecordLimitExceeded | lzfse.go:1524-1555 | Compress gives that source an LZFSE stream which DecompressLimit refuses under any ceiling |
| RoundTrips.LongRunRefused | lzfse.go:1340-1362 | Compress gives 479 bytes an LZVN stream of 309 bytes which DecompressLimit refuses under any ceiling |

## Left out

- Inputs of 2^31 bytes or more: hash positions are int32 and block sizes uint32, so `findMatches`, `Compress` and `encodeBlock` are modelled below that length.
- The fields `magic` and `nPayloadBytes` of a V1 header are written but not kept in the record that is read back: the decoder does not look at them.
- The packing of a decoder entry into an int32 (fse.go:38-44): entries are records.
- Slice capacity, amortised growth, and the reuse of the literals buffer: `growOut` keeps the bytes in use, and the literals are a fresh array for each block.
- The four lists of symbols and values in `encodeBlock` are sequences, so their update in place and aliasing are not modelled.
- Compression ratio and hash quality: which candidates are chosen is proved, but nothing is claimed about how good the result is.
- LzvnEncode.CompressThenDecompress: states the identity in one direction, for runs of at most 271 bytes. After a wrapped length the remaining literals are read as opcodes, and in a source with repetitions nothing prevents them from spelling the source by coincidence; the exact condition is proved for sources of fewer than 280 bytes without repetitions (`LzvnLongRuns.UnmatchedSourceComesBack`).
- RoundTrips.ComesBack: for an LZVN stream with a literal run of more than 271 bytes the condition is the payload's own answer, for the reason given above; and whether a source whose LZFSE stream would be refused is stored instead depends on the size of that stream, which is not modelled as a function of the source.
- The lowered test settings of `maxBlockRawBytes` and `matchesPerBlock`: the production values are used, and the rule that no match straddles a block depends on them.
- Negative `maxOut`, error message texts, and the 32-bit variant of `int`.
- `appleinterop/` and `benchmarks/`: foreign calls, processes, timing and file access.
- Agreement with the C implementation, which is not part of the repository.
