# Verified models of the client's algorithms

This project models, in Dafny, the algorithms behind a small Telegram client: the QR encoder that shows the login
link, the queues, profiler table, replay filter and source splitter of the TDLib tree it ships, and the client's own
event queue and chat index. It proves what each of them is for, for all inputs, all runs and all interleavings.

Classes with fields and loops stand for the parts that change state in place; each of their methods is proved
against a function or a declarative specification, and the properties are lemmas about that specification. Shared
memory programs are state machines whose steps are the single loads, stores, compare-and-swaps and eventfd calls,
interleaved in any order (sequential consistency).

## QR encoder (`lib/qrcodegen/qrcodegen.cpp`)

- `GF256`, `Multiply`: the multiplication loop computes the product of polynomials over GF(2) modulo 0x11D. It is a
  field multiplication, and 0x02 generates all 255 non-zero elements.
- `Polynomial`, `ReedSolomon`, `CodeDistance`: divisor and remainder are computed in place; data followed by its
  remainder is a multiple of the generator; two different codewords of at most 255 bytes differ in more than `degree`
  bytes (by elimination in a Vandermonde system), so half that many damaged bytes can be repaired.
- `Interleave`: the output of `addEccAndInterleave` is a bijective arrangement of all data and error correction bytes,
  and a de-interleaver gets every block back.
- `BitBuffers`, `Segments`, `SegmentReader`, `Codewords`, `EncodeSegments`: the segment factories, total bit count,
  version search, level boost, terminator and padding. `SegmentReader` is an independent reader, written from
  section 7.4 of ISO/IEC 18004:2015 with its own mode indicators, count widths and characters, and gets the segments
  back from the data codewords. `Padding` says what stands in each codeword after them.
- `ShortestSegment`: of all single segments that spell a text, `makeSegments` makes the shortest; a list of several can
  be shorter.
- `Zigzag`, `FormatInfo`, `QrCodes`: placement, masking, format information, the trial of all eight masks.
  `MaskPatterns` has the patterns as drawn in the standard, and the reader of a symbol unmasks with them. `FormatCode`:
  the format words are the 32 of annex C, three wrong modules never make one of them look like another, and both copies
  hold them.
- `Penalty`, `Score`, `ScoreLaws`: the run history automaton against the run lengths of the line between light borders,
  and the score against the modules themselves: runs, blocks and dark modules counted cell by cell, rows and columns
  alike.
- `Symbol`: the encoder as a whole. Unmasking with the mask that the format bits announce, following the zigzag,
  de-interleaving and parsing gives back the text.

## TDLib tree

- `RingBuffer`, `BufferQueues`, `BufferedFdQueues` (`lib/td/benchmark/bench_queue.cpp`): one producer, one consumer,
  32-bit positions that wrap around, and the sleep and wake-up protocol on top. `BufferCalls` and `FdCalls`: what a
  whole call of `put`, `get` or `wait_reader` has done when it returns, and that it returns, with any accesses of the
  other thread in between.
- `ProbeTable`, `ProbeProgress`, `ProbeLimits`, `AllocAccounting` (`lib/td/memprof/memprof.cpp`): the lock-free hash
  table for any number of threads, a bound on the accesses a call makes until it returns, when the unknown hash stands
  in for the one asked for, and the books of live memory that the nodes keep.
- `ReplayFilter`, `ReplaySets` (`lib/td/td/mtproto/AuthData.cpp`, `lib/td/benchmark/bench_misc.cpp`): the array with
  lazy compaction never accepts an id twice and accepts every new id unless `max_size` larger ones were given before.
- `UnionFind`, `Sums`, `Packing`, `SplitFile` (`lib/td/SplitSource.php`): functions that share dependency names stay
  together, every function is written once, and the longest file is at most 4/3 - 1/(3m) of what any other split into
  m files needs.

## Client (`src/`)

- `EventQueues` (`src/global.cc`): each pop gives the latest event of the type that has waited longest.
- `ChatIndexes` (`src/tg.cc`): the set of positions and the map of positions agree after an update exactly when the
  update is safe in a sense that can be read off the index before it. Without that condition a chat is listed twice
  (`ChatIndexes.AddedAgain`). `ChatUpdates`: the order of a chat is what the updates received so far say.

Where a comment in the sources disagrees with the code, the model follows the code. The comment in
`check_message_id_duplicates` (lines 21-24) asks to ignore an id that is lower than all stored ids or equal to one of
them, and to store N ids. The code accepts an id lower than all stored ones while fewer than `max_size` are held, and
answers as the comment asks in every other case (`ReplayFilter.CommentAndCode`); it stores up to 2 * `max_size` ids.

## Model

| member | source | states |
|---|---|---|
| GF256.MulCommutative | lib/qrcodegen/qrcodegen.cpp:724-733 | The product does not depend on the order of its operands, though the loop treats them differently |
| GF256.MulAssociative | lib/qrcodegen/qrcodegen.cpp:724-733 | The product is associative |
| GF256.MulDistributes | lib/qrcodegen/qrcodegen.cpp:724-733 | The product distributes over exclusive or on both sides |
| GF256.MulUnits | lib/qrcodegen/qrcodegen.cpp:724-733 | 1 is the unit and 0 annihilates |
| GF256.NoZeroDivisors | lib/qrcodegen/qrcodegen.cpp:724-733 | The product of two non-zero bytes is not zero |
| GF256.GeneratorOrder | lib/qrcodegen/qrcodegen.cpp:697-699 | No positive power of 0x02 below the 255th is 1: 0x02 is a generator, as the comment promises |
| GF256.PowersDistinct | lib/qrcodegen/qrcodegen.cpp:697-706 | The first 255 powers of 0x02, the roots, are all different |
| Multiply.ProductIsTheRemainder | lib/qrcodegen/qrcodegen.cpp:724-733 | A byte is the product exactly when it is congruent to the carry-less product modulo 0x11D |
| Multiply.ReedSolomonMultiply | lib/qrcodegen/qrcodegen.cpp:724-733 | The loop on wider integers computes the field product, which stays below 256 |
| Polynomial.EvalTimesLinear | lib/qrcodegen/qrcodegen.cpp:700-707 | Multiplying a polynomial by (x - r) multiplies its value at every point by that factor |
| ReedSolomon.TimesLinearInPlace | lib/qrcodegen/qrcodegen.cpp:702-705 | The inner loop multiplies the buffered polynomial by (x - root) in place |
| ReedSolomon.ReedSolomonComputeDivisor | lib/qrcodegen/qrcodegen.cpp:686-709 | Refuses exactly degrees outside 1..255; else the coefficients of the product of (x - 2^i), i < degree, without the leading 1 |
| ReedSolomon.GeneratorIsProduct | lib/qrcodegen/qrcodegen.cpp:695-698 | The generator has, at every point, the value of the product of its linear factors |
| ReedSolomon.RootProductZero | lib/qrcodegen/qrcodegen.cpp:695-698 | The generator vanishes at 2^0, ..., 2^(degree-1) and nowhere else |
| ReedSolomon.DivisionTheorem | lib/qrcodegen/qrcodegen.cpp:711-722 | Data times x^degree plus the remainder is quotient times divisor, at every point |
| ReedSolomon.ReedSolomonComputeRemainder | lib/qrcodegen/qrcodegen.cpp:711-722 | The shifting loop leaves the remainder of that division |
| ReedSolomon.CodewordVanishes | lib/qrcodegen/qrcodegen.cpp:686-722 | Data followed by its remainder evaluates to zero at every root of the generator |
| CodeDistance.NoVanishingPowerSums | lib/qrcodegen/qrcodegen.cpp:686-722 | A Vandermonde system with distinct locators has no non-zero solution |
| CodeDistance.CodewordsFarApart | lib/qrcodegen/qrcodegen.cpp:686-722 | Two different codewords of at most 255 bytes differ in at least degree + 1 bytes |
| CodeDistance.EncodedBlocksFarApart | lib/qrcodegen/qrcodegen.cpp:686-722 | Different data blocks of one length, with their remainders appended, differ in at least degree + 1 bytes |
| CodeDistance.RemainderUnique | lib/qrcodegen/qrcodegen.cpp:711-722 | A completion of the data is a codeword exactly when it is the computed remainder |
| CodeDistance.DamageIsCorrectable | lib/qrcodegen/qrcodegen.cpp:686-722 | A block with at most degree/2 damaged bytes comes from at most one data block |
| Interleave.AddEccAndInterleave | lib/qrcodegen/qrcodegen.cpp:458-500 | Refuses exactly data of the wrong length; else outputs rawCodewords bytes that carry every block with its remainder |
| Interleave.SplitBlocks | lib/qrcodegen/qrcodegen.cpp:473-485 | Block j holds its share of the data, a padding byte if it is short, and its remainder |
| Interleave.InterleaveBlocks | lib/qrcodegen/qrcodegen.cpp:487-499 | Takes the blocks row by row without the padding, rawCodewords bytes in all |
| Interleave.PositionInRange | lib/qrcodegen/qrcodegen.cpp:487-499 | Every byte that is not padding has a place in the output |
| Interleave.PositionInjective | lib/qrcodegen/qrcodegen.cpp:487-499 | No two such bytes share a place |
| Interleave.PositionSurjective | lib/qrcodegen/qrcodegen.cpp:487-499 | Every place of the output holds a data or error correction byte, so no padding byte appears |
| Interleave.PlacesInOrder | lib/qrcodegen/qrcodegen.cpp:487-499 | The places follow the order of the standard: byte 0 of every block, byte 1 and so on, first the data, then the error correction |
| Interleave.BlocksAreEven | lib/qrcodegen/qrcodegen.cpp:466-480 | The blocks share the data evenly, at most one byte apart, shorter ones first |
| Interleave.BlocksRecovered | lib/qrcodegen/qrcodegen.cpp:458-500 | De-interleaving gives back every block and, in order, the whole input |
| Interleave.MessagesFarApart | lib/qrcodegen/qrcodegen.cpp:458-500 | Outputs for two different inputs differ, in some block, in more than blockEccLen bytes |
| BitBuffers.BitBuffer.AppendBits | lib/qrcodegen/qrcodegen.cpp:821-826 | Refuses exactly lengths outside 0..31 and values that do not fit, changing nothing; else appends the low bits, highest first |
| BitBuffers.ValueOfBits | lib/qrcodegen/qrcodegen.cpp:821-826 | The number read from appended bits is the number that was appended |
| Segments.MakeBytes | lib/qrcodegen/qrcodegen.cpp:66-72 | Fails exactly on more than INT_MAX bytes; else the byte segment of the data |
| Segments.MakeNumeric | lib/qrcodegen/qrcodegen.cpp:74-94 | Succeeds exactly on digits; groups of three digits in ten bits, a rest in four or seven |
| Segments.MakeAlphanumeric | lib/qrcodegen/qrcodegen.cpp:96-117 | Succeeds exactly on the 45 characters; pairs in eleven bits, a rest in six |
| Segments.MakeEci | lib/qrcodegen/qrcodegen.cpp:136-151 | Succeeds exactly on designators below 1000000, in the three lengths of the standard |
| Segments.MakeSegments | lib/qrcodegen/qrcodegen.cpp:119-134 | No segment for the empty text, else one of the most compact mode that can hold the text |
| Segments.IsNumeric | lib/qrcodegen/qrcodegen.cpp:179-185 | True exactly if all characters are digits |
| Segments.IsAlphanumeric | lib/qrcodegen/qrcodegen.cpp:187-192 | True exactly if all characters are in the charset |
| Segments.AlphanumericValueMeaning | lib/qrcodegen/qrcodegen.cpp:102-110 | The charset position found for a character is a position of that character |
| SegmentReader.ReadDigitsBack | lib/qrcodegen/qrcodegen.cpp:74-94 | An independent reader of digit groups gets the digits back, whatever follows |
| SegmentReader.ReadCharsBack | lib/qrcodegen/qrcodegen.cpp:96-117 | The reader of character pairs gets the text back, whatever follows |
| SegmentReader.ReadOctetsBack | lib/qrcodegen/qrcodegen.cpp:66-72 | The reader of bytes gets the bytes back, whatever follows |
| SegmentReader.ReadDesignatorBack | lib/qrcodegen/qrcodegen.cpp:136-151 | The reader of designators gets every one of the three lengths back |
| SegmentReader.WidthsAgree | lib/qrcodegen/qrcodegen.cpp:56-64 | The count fields have the widths of the reader, by version 1-9, 10-26 and 27-40, in every mode |
| SegmentReader.CharsetsAgree | lib/qrcodegen/qrcodegen.cpp:200-201 | The charset has the reader's digits, letters and nine other characters at their values |
| SegmentReader.ReadSegmentBack | lib/qrcodegen/qrcodegen.cpp:270-275 | A segment written as mode, count and data reads as its payload, followed by what the rest reads as |
| SegmentReader.ReadStreamBack | lib/qrcodegen/qrcodegen.cpp:268-284 | A list of segments followed by an end of stream reads as the payloads it was made from |
| EncodeSegments.TotalBitsMeaning | lib/qrcodegen/qrcodegen.cpp:163-177 | The total is the length of the stream; the loop gives up exactly if a count does not fit its field or the length exceeds INT_MAX |
| EncodeSegments.GetTotalBits | lib/qrcodegen/qrcodegen.cpp:163-177 | Returns that length, or -1 |
| EncodeSegments.FindVersion | lib/qrcodegen/qrcodegen.cpp:238-258 | The smallest version of the range that fits; fails exactly if none does |
| EncodeSegments.BoostLevel | lib/qrcodegen/qrcodegen.cpp:260-266 | The highest level that fits when boosting, never below the requested one |
| EncodeSegments.AppendSegments | lib/qrcodegen/qrcodegen.cpp:268-276 | The buffer becomes the stream of the segments, and no append is refused |
| EncodeSegments.AppendTail | lib/qrcodegen/qrcodegen.cpp:278-289 | Appends terminator, alignment and alternating pad bytes up to the capacity |
| EncodeSegments.AppendPadding | lib/qrcodegen/qrcodegen.cpp:286-289 | Pad bytes 0xEC and 0x11 alternate until the capacity is reached |
| EncodeSegments.TailEndsStream | lib/qrcodegen/qrcodegen.cpp:278-289 | What follows the segments reads as the end of the stream |
| EncodeSegments.Encode | lib/qrcodegen/qrcodegen.cpp:230-298 | Both errors exactly as thrown; else smallest version, boosted level, and codewords that read back as the segments |
| EncodeSegments.StreamReadsBack | lib/qrcodegen/qrcodegen.cpp:268-294 | Data codewords that hold stream and tail read back as the payloads |
| Padding.PadCodewords | lib/qrcodegen/qrcodegen.cpp:278-289 | By position in the data: all bits between the segments and the first pad codeword are zero, and from there on codewords are 0xEC and 0x11 in turn |
| Padding.TailIs | lib/qrcodegen/qrcodegen.cpp:278-284 | Terminator and alignment lead to the codeword after the four bits of the terminator, or to the end |
| ShortestSegment.ChosenIsShortest | lib/qrcodegen/qrcodegen.cpp:119-134 | Every other payload that spells the text makes a strictly longer segment, whatever the version |
| ShortestSegment.MixtureShorter | lib/qrcodegen/qrcodegen.cpp:119-134 | Among lists of segments the choice is not the shortest: five or more digits before a character outside the charset |
| Codewords.Pack | lib/qrcodegen/qrcodegen.cpp:291-294 | Packing bits into bytes is undone by reading the bytes bit by bit |
| Codewords.UnpackInjective | lib/qrcodegen/qrcodegen.cpp:519-520 | Bytes are determined by their bits |
| Zigzag.VisitedOnce | lib/qrcodegen/qrcodegen.cpp:508-528 | The scan visits every cell outside column 6 at exactly one step |
| Zigzag.FreeCellsComplete | lib/qrcodegen/qrcodegen.cpp:508-528 | It meets every free cell outside column 6 once, and no other |
| Zigzag.ScanTurns | lib/qrcodegen/qrcodegen.cpp:508-517 | The scan starts in the lower right corner, goes up and down in turn, and moves two columns to the left, or three across column 6 |
| Zigzag.ReadDrawn | lib/qrcodegen/qrcodegen.cpp:518-522 | Bits drawn on distinct cells are read back, and other cells keep their modules |
| Zigzag.MaskedTwice | lib/qrcodegen/qrcodegen.cpp:532-570 | Masking twice with one mask changes nothing |
| MaskPatterns.PatternIsMask | lib/qrcodegen/qrcodegen.cpp:538-564 | Each formula inverts exactly the modules that the drawn pattern of the standard inverts, for all x and y |
| MaskPatterns.UnmaskIsMasked | lib/qrcodegen/qrcodegen.cpp:532-570 | A reader that inverts back by the drawn pattern undoes the mask |
| FormatInfo.WordAnnouncesMask | lib/qrcodegen/qrcodegen.cpp:384-391 | Bits 10 to 12 of the format word announce the mask |
| FormatInfo.WordAnnouncesLevel | lib/qrcodegen/qrcodegen.cpp:384-391 | Bits 13 and 14 announce the level |
| FormatInfo.SlotsAndCells | lib/qrcodegen/qrcodegen.cpp:393-405 | The 31 format modules are at different cells |
| FormatInfo.MaskReadsBack | lib/qrcodegen/qrcodegen.cpp:384-406 | The mask is read back from the first copy of the format information |
| FormatInfo.LevelReadsBack | lib/qrcodegen/qrcodegen.cpp:384-406 | The level is read back from the first copy of the format information |
| FormatInfo.FormatReplaces | lib/qrcodegen/qrcodegen.cpp:321-334 | Drawing the format replaces what an earlier trial drew |
| FormatInfo.UnmaskKeepsFormat | lib/qrcodegen/qrcodegen.cpp:321-328 | Applying the mask again removes it and keeps the format modules |
| FormatInfo.FormatKeepsFree | lib/qrcodegen/qrcodegen.cpp:384-406 | Format modules do not disturb the free cells |
| FormatCode.WordsAreStandard | lib/qrcodegen/qrcodegen.cpp:384-391 | The division by 0x537 and the fixed pattern give the 32 words of annex C of ISO/IEC 18004 |
| FormatCode.RemainderLinear | lib/qrcodegen/qrcodegen.cpp:388-389 | The remainder of an exclusive or is the exclusive or of the remainders |
| FormatCode.WordsFarApart | lib/qrcodegen/qrcodegen.cpp:384-391 | The words for two different settings differ in at least seven of their fifteen bits |
| FormatCode.DamagedWordIsClosest | lib/qrcodegen/qrcodegen.cpp:384-391 | With up to three wrong bits no other word is within three bits of what is read |
| FormatCode.CopiesHoldWord | lib/qrcodegen/qrcodegen.cpp:393-404 | Both copies hold every bit of the word |
| FormatCode.SecondCopyReadsBack | lib/qrcodegen/qrcodegen.cpp:400-404 | The second copy announces the same level and mask as the first |
| FormatCode.AlwaysDark | lib/qrcodegen/qrcodegen.cpp:405-405 | The module above the second copy is dark |
| QrCodes.QrCode.SetFunctionModule | lib/qrcodegen/qrcodegen.cpp:447-452 | Sets one module and marks it, and nothing else |
| QrCodes.QrCode.DrawFormatBits | lib/qrcodegen/qrcodegen.cpp:384-406 | All 31 format modules get their values and are marked, and no other changes |
| QrCodes.QrCode.DrawCodewords | lib/qrcodegen/qrcodegen.cpp:502-530 | Refuses exactly codewords of another number than the symbol has; else the bits are drawn on the free cells in the order of the scan until cells or bits run out |
| QrCodes.QrCode.ApplyMask | lib/qrcodegen/qrcodegen.cpp:532-570 | Refuses exactly masks outside 0..7; else inverts the free cells of the pattern |
| QrCodes.QrCode.TryMask | lib/qrcodegen/qrcodegen.cpp:320-329 | A trial returns the score of the symbol with that mask and leaves no mask behind |
| QrCodes.QrCode.DoMasking | lib/qrcodegen/qrcodegen.cpp:317-334 | The final symbol has the requested mask or, for -1, the first one of least penalty |
| QrCodes.TrialReadsBack | lib/qrcodegen/qrcodegen.cpp:300-338 | Unmasking as the format bits say and following the scan returns the bits drawn, whatever the mask |
| QrCodes.RemaskedIsTrial | lib/qrcodegen/qrcodegen.cpp:317-334 | Undoing the mask of a finished symbol and applying another with its format bits gives what that mask would have given at once |
| QrCodes.FirstBestIsBest | lib/qrcodegen/qrcodegen.cpp:318-330 | The chosen mask is the best of the finished symbol: no other gives a lower penalty, and none of smaller number as low a one |
| Penalty.RunsExpand | lib/qrcodegen/qrcodegen.cpp:577-594 | Run lengths are maximal and describe the line |
| Penalty.RunsUnique | lib/qrcodegen/qrcodegen.cpp:577-594 | They are the only maximal lengths that do |
| Penalty.CountIsFindersAt | lib/qrcodegen/qrcodegen.cpp:735-743 | On seven finished runs the count is that of 1:1:3:1:1 with four units of light on one side and one on the other |
| Penalty.HistoryStep | lib/qrcodegen/qrcodegen.cpp:757-764 | The history stays the last seven finished runs, the first one lengthened by the border |
| Penalty.SecondEntry | lib/qrcodegen/qrcodegen.cpp:735-738 | The run that is compared never exceeds what has been scanned, so the assertion on 3 * size holds |
| Penalty.FinderPenaltyAddHistory | lib/qrcodegen/qrcodegen.cpp:757-764 | Shifts the seven entries in place and puts the run in front |
| Penalty.FinderPenaltyCountPatterns | lib/qrcodegen/qrcodegen.cpp:735-743 | The count of a history, its assertion being met |
| Penalty.FinderPenaltyTerminateAndCount | lib/qrcodegen/qrcodegen.cpp:745-755 | Brings the count to that of the line between its light borders |
| Penalty.ScanLine | lib/qrcodegen/qrcodegen.cpp:577-597 | Sum of L - 2 over the maximal runs L >= 5, plus 40 for every finder-like pattern of the bordered line |
| Score.BalanceLevelIsLeast | lib/qrcodegen/qrcodegen.cpp:639-645 | For an odd number of modules the level is the least k >= 0 with (45-5k)% <= dark share <= (55+5k)%, and at most 9 |
| Score.GetPenaltyScore | lib/qrcodegen/qrcodegen.cpp:572-651 | The sum of the line penalties, three per one-colored block of four, and ten times the least balancing level |
| Score.ScoreBound | lib/qrcodegen/qrcodegen.cpp:319-327 | Every score is below the initial minimum, so some mask is always chosen |
| ScoreLaws.RunCostsAreLongRuns | lib/qrcodegen/qrcodegen.cpp:582-590 | The costs of the maximal runs are, module by module, three where the fifth one of a color ends and one for each further one |
| ScoreLaws.LinePenaltyPoints | lib/qrcodegen/qrcodegen.cpp:577-597 | A line costs these points and 40 for every finder-like pattern |
| ScoreLaws.ScoreByCells | lib/qrcodegen/qrcodegen.cpp:572-651 | The score is the points of the rows, those of the columns, three for each block corner, and ten times the least level for the number of dark cells; the columns, blocks and dark modules given cell by cell |
| ScoreLaws.TransposeKeepsScore | lib/qrcodegen/qrcodegen.cpp:576-624 | Exchanging rows and columns leaves the score as it is |
| ScoreLaws.ScoreAssertion | lib/qrcodegen/qrcodegen.cpp:647-649 | The assertion on the result never fails |
| QrCodes.TrialKeepsPatterns | lib/qrcodegen/qrcodegen.cpp:518-567 | Neither codewords nor masks change a function module, other than those of the format information |
| Symbol.FillSymbol | lib/qrcodegen/qrcodegen.cpp:314-334 | The finished symbol announces its level and mask, and a reader that takes both from it gets protected blocks and the payloads; it keeps the function patterns and has the requested mask or the best one |
| Symbol.EncodeText | lib/qrcodegen/qrcodegen.cpp:220-223 | The symbol for a text: smallest version, boosted level, best mask, function patterns kept, and a reader that takes level and mask from the symbol gets protected blocks and the payloads of the text; fails only if no version fits or the text exceeds INT_MAX |
| Symbol.TextReadsBack | lib/qrcodegen/qrcodegen.cpp:119-134 | The payloads chosen for a text spell that text |
| RingBuffer.WrapInjective | lib/td/benchmark/bench_queue.cpp:241-255 | Comparing and subtracting wrapped positions is exact while they are less than 2^32 apart |
| RingBuffer.StoreHitsFreeSlot | lib/td/benchmark/bench_queue.cpp:270-272 | A store into a ring that is not full hits no unreleased item |
| RingBuffer.StoreInv | lib/td/benchmark/bench_queue.cpp:270-272 | A store keeps the invariant of the ring |
| RingBuffer.TakeInv | lib/td/benchmark/bench_queue.cpp:257-259 | A read gets the oldest item not yet got, which has been published, and keeps the invariant |
| BufferQueues.BufferQueue.PutUnsafe | lib/td/benchmark/bench_queue.cpp:270-272 | Stores in place at the wrapped position |
| BufferQueues.BufferQueue.GetUnsafe | lib/td/benchmark/bench_queue.cpp:257-259 | Returns the item put next after those already got |
| BufferQueues.BufferQueue.UpdateReader | lib/td/benchmark/bench_queue.cpp:265-268 | Returns how many published items wait |
| BufferQueues.BufferQueue.UpdateWriter | lib/td/benchmark/bench_queue.cpp:278-281 | Returns how many released slots are free |
| BufferQueues.BufferQueue.PutNoFlush | lib/td/benchmark/bench_queue.cpp:313-322 | Appends the item unless all slots are taken, and publishes nothing |
| BufferQueues.BufferQueue.Put | lib/td/benchmark/bench_queue.cpp:324-327 | Appends the item and publishes all items |
| BufferQueues.StepInv | lib/td/benchmark/bench_queue.cpp:208-331 | Every single access of either thread keeps the invariant |
| BufferQueues.AlwaysFifo | lib/td/benchmark/bench_queue.cpp:208-331 | In every run of any length the values got are a prefix of the values put |
| BufferQueues.SlotsAreSafe | lib/td/benchmark/bench_queue.cpp:257-272 | No unread slot is overwritten and no unpublished slot is read |
| BufferQueues.FailsOnlyWhenFull | lib/td/benchmark/bench_queue.cpp:313-322 | The producer gives up exactly when all slots are unreleased |
| BufferCalls.NeverStuck | lib/td/benchmark/bench_queue.cpp:293-327 | Both threads can always move, but for a producer whose put has failed |
| BufferCalls.PutReturns | lib/td/benchmark/bench_queue.cpp:313-327 | Within four accesses of its own a `put` has failed, or has appended its value and published everything, whatever the consumer does meanwhile |
| BufferCalls.GetReturns | lib/td/benchmark/bench_queue.cpp:293-311 | Within four accesses of its own a `get` that finds an item published has got it and released its slot |
| BufferCalls.IdleMeansFlushed | lib/td/benchmark/bench_queue.cpp:307-327 | In runs of put and get alone, an idle producer has published everything and an idle consumer has released everything |
| BufferedFdQueues.StepInv | lib/td/benchmark/bench_queue.cpp:334-430 | Every access, with the flag and the event counter, keeps the invariant |
| BufferedFdQueues.AlwaysFifo | lib/td/benchmark/bench_queue.cpp:334-430 | In every run the values got are a prefix of the values put and published |
| BufferedFdQueues.NoLostWakeUp | lib/td/benchmark/bench_queue.cpp:346-365 | A consumer asleep on the eventfd has got all published items, or the producer is between publishing and signalling |
| BufferedFdQueues.ProducerWakes | lib/td/benchmark/bench_queue.cpp:346-354 | In that case the producer's next two steps raise the counter |
| BufferedFdQueues.ProducerKeepsConsumer | lib/td/benchmark/bench_queue.cpp:346-366 | No access of the producer changes where the consumer is, what it got or what it has seen |
| BufferedFdQueues.BlockedConsumerGets | lib/td/benchmark/bench_queue.cpp:403-425 | A `get` blocked before a published item has just that item after four own steps, with any steps of the producer between them |
| BufferedFdQueues.BlockedWaiterSees | lib/td/benchmark/bench_queue.cpp:381-401 | A `wait_reader` blocked before a published item returns after three own steps with a ring that is not empty |
| BufferedFdQueues.NothingLeftBehind | lib/td/benchmark/bench_queue.cpp:403-425 | With the producer idle, a sleeping consumer has got everything published |
| FdCalls.NeverStuck | lib/td/benchmark/bench_queue.cpp:346-425 | Both threads can always move, but for a producer whose put has failed and a consumer asleep on the eventfd |
| FdCalls.PutReturns | lib/td/benchmark/bench_queue.cpp:346-366 | Within six accesses of its own a put has failed, or has appended its value and, if it flushes, published everything |
| FdCalls.PutFailsOnlyWhenFull | lib/td/benchmark/bench_queue.cpp:313-322 | It fails exactly when all slots are unreleased |
| FdCalls.GetReturns | lib/td/benchmark/bench_queue.cpp:381-425 | From anywhere in the call, within seven accesses of its own a `get` that finds an item published has got it and released its slot, and a `wait_reader` has seen it |
| FdCalls.IdleMeansPublished | lib/td/benchmark/bench_queue.cpp:346-354 | When every put flushes, an idle producer has published everything |
| FdCalls.AsleepMeansAllGot | lib/td/benchmark/bench_queue.cpp:346-425 | Then a consumer asleep while the producer is idle has got everything that was put |
| FdCalls.IdleMeansReleased | lib/td/benchmark/bench_queue.cpp:371-425 | When items are got by `get` alone, a consumer outside its release has released everything it got |
| FdCalls.SignalsOnlyWhenAsked | lib/td/benchmark/bench_queue.cpp:350-353 | Nothing is written to the eventfd as long as the flag was never raised |
| ProbeTable.StepInv | lib/td/memprof/memprof.cpp:154-191 | Every access of every thread keeps the invariant, taken slots and logged results |
| ProbeTable.InsertReachable | lib/td/memprof/memprof.cpp:171-175 | An insertion leaves every hash reachable from its home by taken slots |
| ProbeTable.AlwaysUnique | lib/td/memprof/memprof.cpp:154-191 | At no point of any run does a hash occupy two slots |
| ProbeTable.ReturnsAgree | lib/td/memprof/memprof.cpp:154-191 | All calls that return a slot for one hash return the same slot |
| ProbeTable.OneLap | lib/td/memprof/memprof.cpp:179-189 | While a slot is free no probe has moved beyond one lap |
| ProbeTable.NeverAborts | lib/td/memprof/memprof.cpp:160-187 | With T threads and M slots, 10 * (M/2 + T + 1) < 7 * M, neither abort is reachable and a slot is always free; for the ten million slots of the program that is any T up to 1999998 |
| ProbeProgress.OwnStep | lib/td/memprof/memprof.cpp:158-190 | With few threads every access of a call returns a slot that holds the asked or the unknown hash, or lowers a measure of what the call has left |
| ProbeProgress.OthersStep | lib/td/memprof/memprof.cpp:158-190 | Accesses of other threads never raise that measure, as slots only fill |
| ProbeProgress.CallReturns | lib/td/memprof/memprof.cpp:154-191 | In every run with few threads a call returns within as many own accesses as its measure, whatever the others do |
| ProbeProgress.EveryCallReturns | lib/td/memprof/memprof.cpp:154-191 | With M slots that is at most 12 * M + 11 own accesses |
| ProbeLimits.NeverStuck | lib/td/memprof/memprof.cpp:154-191 | At any point of a run every thread that has not aborted can move |
| ProbeLimits.OwnSlotUntilHalfFull | lib/td/memprof/memprof.cpp:171-178 | As long as at most half of the slots are counted, every call that returned got the slot of its own hash |
| ProbeLimits.ForeignSlotOnlyWhenHalfFull | lib/td/memprof/memprof.cpp:160-178 | A call returns another hash than its own only if that is the unknown one and more than half of the slots are counted |
| ProbeLimits.InsertsAfterRoom | lib/td/memprof/memprof.cpp:160-175 | Every insertion follows a test of the same call that found room |
| ProbeLimits.SizeCountsSlots | lib/td/memprof/memprof.cpp:171-175 | The size is the number of taken slots less those whose calls have yet to count them, and exact when there are none |
| ProbeLimits.AbortsOnlyWhenDue | lib/td/memprof/memprof.cpp:160-187 | For any number of threads, a call aborts only if seven tenths of the slots are counted or all slots are taken |
| ProbeLimits.TakenUpTo | lib/td/memprof/memprof.cpp:155-190 | From the slot numbered by a hash modulo the size of the table up to where the hash is, all slots are taken |
| ProbeLimits.LooksInTurn | lib/td/memprof/memprof.cpp:155-190 | A call looks at the slots from hash modulo size on, in turn |
| AllocAccounting.Profiler.RegisterXalloc | lib/td/memprof/memprof.cpp:203-211 | Adds or subtracts modulo 2^64 and fails exactly where the assertions do |
| AllocAccounting.Profiler.MallocWithFrame | lib/td/memprof/memprof.cpp:215-237 | Records the block, or aborts exactly if the low 32 bits of the size read as negative; the nodes keep their sums |
| AllocAccounting.Profiler.Free | lib/td/memprof/memprof.cpp:252-267 | Removes the block; the subtraction never fails; null does nothing |
| AllocAccounting.Profiler.Calloc | lib/td/memprof/memprof.cpp:269-274 | Records a block of the product of the sizes modulo 2^64, all of it zero |
| AllocAccounting.Profiler.Realloc | lib/td/memprof/memprof.cpp:276-286 | Records the new block, copies the smaller of the two recorded sizes within both blocks, and removes the old one |
| AllocAccounting.KeptAllIff | lib/td/memprof/memprof.cpp:282-283 | All that both blocks have room for is copied exactly if it is below 2^31 bytes and the larger block is recorded as no smaller |
| AllocAccounting.Profiler.DumpAlloc | lib/td/memprof/memprof.cpp:193-201 | Lists the non-empty nodes in table order, and together they have all memory of the table |
| AllocAccounting.Profiler.GetUsedMemorySize | lib/td/memprof/memprof.cpp:327-331 | Returns the total recorded size of the live blocks |
| AllocAccounting.NodesHoldAll | lib/td/memprof/memprof.cpp:193-211 | The sums of the nodes add up to all live memory, each block counted once |
| AllocAccounting.TruthfulIff | lib/td/memprof/memprof.cpp:229-232 | What is recorded is what callers asked for exactly if no live block has 2^31 bytes or more |
| AllocAccounting.ToInt32Congruent | lib/td/memprof/memprof.cpp:229-229 | The recorded size is the one value of 32 bits, sign included, that is congruent to the size modulo 2^32 |
| AllocAccounting.FourGigabytesUncounted | lib/td/memprof/memprof.cpp:229-229 | A block of 2^32 bytes is recorded as empty |
| ReplayFilter.MessageIdDuplicateChecker.FindLowerBound | lib/td/td/mtproto/AuthData.cpp:38-38 | Binary search finds the first stored id not below the given one |
| ReplayFilter.MessageIdDuplicateChecker.Compact | lib/td/td/mtproto/AuthData.cpp:25-28 | Keeps the upper half of a full array |
| ReplayFilter.MessageIdDuplicateChecker.Insert | lib/td/td/mtproto/AuthData.cpp:42-44 | Opens a gap in place and puts the id into it |
| ReplayFilter.MessageIdDuplicateChecker.Check | lib/td/td/mtproto/AuthData.h:44-54 | Answers and stores as `ArrayCheck` says, with all accesses in bounds |
| ReplayFilter.ArrayCheckAnswers | lib/td/td/mtproto/AuthData.cpp:25-45 | Refuses as processed exactly stored ids, as old exactly ids below all when max_size are held; else the id joins the sorted ids |
| ReplayFilter.LowerBoundInside | lib/td/td/mtproto/AuthData.cpp:38-39 | The position found is a valid one whenever it is read |
| ReplayFilter.RunRemembers | lib/td/td/mtproto/AuthData.cpp:19-46 | Every accepted id is stored, or below the smallest stored one while max_size are held |
| ReplayFilter.AtMostOnce | lib/td/td/mtproto/AuthData.cpp:19-46 | No id is accepted twice, whatever ids arrive and however often the array is compacted |
| ReplayFilter.SmallestNeverDecreases | lib/td/td/mtproto/AuthData.cpp:19-46 | Once max_size ids are held that stays so, and over the rest of the run the smallest stored id never decreases |
| ReplayFilter.CommentAndCode | lib/td/td/mtproto/AuthData.cpp:21-45 | Comment and code agree on which ids to ignore except exactly for ids below all stored ones while fewer than max_size, and at least one, are held |
| ReplayFilter.LowerIdAccepted | lib/td/td/mtproto/AuthData.cpp:34-45 | An input where they differ: 3 after 5 with room for two |
| ReplaySets.IdDuplicateCheckerNew.Check | lib/td/benchmark/bench_misc.cpp:515-530 | Very old exactly if limit larger ids were given before; else refused exactly if given before; keeps the limit largest of all ids given |
| ReplaySets.IdDuplicateCheckerOld.Check | lib/td/benchmark/bench_misc.cpp:485-502 | The same answers and the same ids kept, though it looks first and inserts later |
| ReplaySets.NewCheckMeans | lib/td/benchmark/bench_misc.cpp:515-530 | Inserting and dropping the smallest keeps the largest of all ids given, and the answer is decided by what was given |
| ReplaySets.NewHoldsLargest | lib/td/benchmark/bench_misc.cpp:509-534 | After any run the set is the limit largest distinct ids given, or all of them if they are fewer |
| ReplaySets.SetAcceptsIff | lib/td/benchmark/bench_misc.cpp:509-534 | After any run an id is accepted exactly if it is new and fewer than limit larger distinct ids were given before |
| ReplaySets.OldAndNewAgree | lib/td/benchmark/bench_misc.cpp:480-534 | With equal limits both keep the same set and answer alike at every step of every run |
| ReplaySets.Lockstep | lib/td/benchmark/bench_misc.cpp:588-621 | One id given to both: the set stays the largest ids of the array, and only ids too old for the set can be answered differently |
| ReplaySets.ArraySimulatesSet | lib/td/benchmark/bench_misc.cpp:509-621 | Over any run the set is the N largest stored ids, and the array accepts what the set accepts |
| ReplaySets.ArrayAccepts | lib/td/benchmark/bench_misc.cpp:588-621 | After any run the array accepts every new id with fewer than limit larger distinct ids given before |
| UnionFind.DisjointSets.Find | lib/td/SplitSource.php:3-8 | Terminates, returns the root and makes it the parent of exactly the elements on the way to it |
| UnionFind.DisjointSets.Union | lib/td/SplitSource.php:10-21 | Both sets get one root, whichever way the random bit links them; other sets keep theirs |
| UnionFind.LinkForest | lib/td/SplitSource.php:14-20 | Linking one root below another keeps the parents a forest |
| UnionFind.MergedMeansLinked | lib/td/SplitSource.php:192-196 | Merged sets are the classes of chains of shared names |
| UnionFind.MergeDependencies | lib/td/SplitSource.php:192-200 | Two functions get one root exactly when a chain of shared dependency names links them |
| Sums.LoadsAddUp | lib/td/SplitSource.php:197-216 | Every set is in exactly one file: the sizes of the files add up to the total |
| Packing.FirstMin | lib/td/SplitSource.php:213-213 | The first file of least size |
| Packing.Pack | lib/td/SplitSource.php:210-216 | Every set goes to the first file of least size at that moment; contents and sizes of the files follow |
| Packing.GreedyBound | lib/td/SplitSource.php:210-216 | m times any file is at most the total plus (m - 1) times the largest set |
| Packing.LongestFirstBound | lib/td/SplitSource.php:208-216 | In descending order, no file exceeds 4/3 - 1/(3m) of what any other packing needs |
| SplitFile.Group | lib/td/SplitSource.php:197-207 | One set per root, holding the functions of that root in order, with their total length |
| SplitFile.SortDescending | lib/td/SplitSource.php:208-208 | The same keys by falling size |
| SplitFile.GroupLoad | lib/td/SplitSource.php:197-216 | The load of a file is the same counted by sets or by functions |
| SplitFile.SplitFunctions | lib/td/SplitSource.php:186-216 | Every function once in exactly one file, linked functions together, both bounds against every split that keeps linked functions together |
| EventQueues.EventQueue.Push | src/global.cc:18-25 | Queues the type unless it is pending, makes the event its latest, and is the push of the runs below |
| EventQueues.EventQueue.PopAndGet | src/global.cc:27-40 | Nothing exactly if nothing is pending; else the latest event of the type whose oldest pending push is the oldest of all; the map lookup never fails; it is the pop of the runs below |
| EventQueues.AnswerUnique | src/global.cc:27-40 | What was pushed and popped before leaves a pop only one right answer |
| EventQueues.RunFaithful | src/global.cc:18-40 | Over every interleaving of calls all pops answer right, and the queued types are distinct and the keys of the map |
| EventQueues.DeliveredInTurn | src/global.cc:18-40 | The j-th pending type is delivered by the pop after j others, whatever is pushed meanwhile |
| ChatIndexes.ChatIndex.UpdatePosition | src/tg.cc:257-275 | Ignores chats that are not listed, removes them at order 0, else moves them in both structures |
| ChatIndexes.ChatIndex.ProcessNewChat | src/tg.cc:288-303 | Adds the chat to all its lists at order 0, then applies its positions |
| ChatIndexes.ChatIndex.ProcessChatAddedToList | src/tg.cc:329-337 | Adds the chat to the list at order 0 |
| ChatIndexes.ChatIndex.ProcessChatPosition | src/tg.cc:339-344 | Applies one position |
| ChatIndexes.ChatIndex.ProcessChatLastMessage | src/tg.cc:346-358 | Applies all positions |
| ChatIndexes.AgreesIffSafe | src/tg.cc:257-358 | From an agreeing index an update leads to an agreeing one exactly if it is safe: the chat is unlisted or at order 0 where it is added, or its own positions restore its order |
| ChatIndexes.RunAgrees | src/tg.cc:257-358 | The index agrees throughout a run exactly if every update is safe where it arrives |
| ChatIndexes.AddedAgain | src/tg.cc:329-337 | A chat with an order that is added again is listed twice, and its next position does not mend that |
| ChatIndexes.NeverMissing | src/tg.cc:257-358 | Whatever the updates, every chat with a position is in the set of its list |
| ChatIndexes.NewChatStale | src/tg.cc:288-303 | The pairs a new chat leaves stale are exactly its old orders that its positions do not restore |
| ChatIndexes.IterationListsChats | src/tg.cc:257-275 | Iterating an agreeing set gives each listed chat once, by descending order |
| ChatIndexes.OrderMeaning | src/tg.cc:257-358 | A chat has order o exactly if it was added, not taken out since, and o is the last order it was given |
| ChatUpdates.UpdateMeaning | src/tg.cc:257-358 | One update lists the chats it adds, takes out those it gives order 0, and gives the others the last order of its positions |
| ChatUpdates.HistoryMeaning | src/tg.cc:257-358 | Over every history of updates: a chat is listed exactly if an update added it and none since took it out, and its order is the last one that an update gave it |

## Left out

- The tables of block counts and error correction lengths (qrcodegen.cpp:775-813) and the raw module count: the layout of a version and level is a parameter of `EncodeSegments` and `Symbol`, and the codeword count one of `DrawCodewords`, required only to be consistent.
- `drawFunctionPatterns`, `drawVersion`, finder and alignment patterns: the modules and function modules they leave are a parameter, required only to cover the format modules and to leave room for the codewords (`Symbol.TablesExist` shows that such parameters exist).
- The version information of symbols from version 7 on, `encodeBinary` and `display`.
- Kanji segments: the encoder has the mode but no factory for it.
- Symbol.EncodeText: the reader of the symbol is given its version, which its size tells, and which modules are function modules of that version; the symbol keeps its function mask, which the program frees at the end.
- QrCodes.QrCode.constructor: starts after the range tests of version and mask, which `encodeSegments` has made before.
- Texts are NUL-terminated and of 8-bit characters; counters of type int are unbounded where the text would have to exceed INT_MAX characters.
- Allocation failure and stream output of error texts.
- Weak memory: the queue and the probe table run under sequential consistency; the fences in the code are what that rests on.
- Backoff in the spin loops only yields or counts: the machines may poll any number of times.
- BufferedFdQueues.ProducerWakes: the event counter is unbounded, so the blocking write at 2^64 - 2 is not modelled.
- BufferQueues.FailsOnlyWhenFull: the failing put is a state in which the producer stays, as the program logs a fatal error.
- The other queues, counters and benchmarks of `lib/td/benchmark`.
- ProbeTable.NeverAborts: hashes are numbers and never zero, as the program silently assumes; equal hashes stand for equal backtraces, and the write of the backtrace beside the hash is left out.
- Capture of backtraces, `dlsym`, `memalign` and raw pointers; a block is a number, never reused.
- AllocAccounting.Profiler.DumpAlloc: reads the nodes while no other call runs. Each call of `malloc` or `free` touches the shared sizes once, by an atomic addition or subtraction, so interleaved calls are a sequence of the ones modelled here.
- AllocAccounting.Profiler.MallocWithFrame: requires that all live memory stays below 2^64 bytes, as the address space does. What callers write into their blocks is left out.
- `IdDuplicateCheckerNewOther` and `IdDuplicateCheckerNewSimple`, which differ from `IdDuplicateCheckerNew` only in how they compare and report.
- SplitFile.SplitFunctions: functions are numbers with lengths and the dependency lists are given; finding them by regular expressions, the includes of the new files and the CMake changes are left out. `arsort` is an insertion sort, and nothing depends on the order of equal sizes.
- The mutexes: each call of the event queue and each chat update is one step.
- Chat titles, messages and users in `src/tg.cc`, the authorization dialogue, and the event pushed after each chat update.
- The curses interface, key handling, TDLib calls, MTProto handshake and key derivation, TL generators.
