# Verification of libjpeg-turbo's coders and schedules

A Dafny model of the parts of libjpeg-turbo (a JPEG codec after ITU-T T.81 | ISO/IEC 10918-1) and of
the Epeg scaler whose correctness is hardest to see, with proofs that hold for every input.

- **Arithmetic coding** (`Aritab`, `Arith*`). The encoder's registers with their deferred carries and
  zero bytes, and the decoder's quite different ones, both refine one ideal interval coder on unbounded
  integers; a segment ends with the shortest bytes that denote its interval. On top of this come the
  five kinds of MCU, restarts, whole scans, and whole progressions of scans.
- **Sequential Huffman coding** (`Huffman*`). Optimal tables by merging, the length limiter, canonical
  codes, lookahead decoding, bit accumulators of both word sizes, the statistics pass and the output
  pass, the fast decoder beside the slow one, restarts; and the bits that a flush can lose
  (`HuffmanFlush`, `HuffmanStairs`, `HuffmanDamage`).
- **Progressive Huffman coding** (`Phuff*`). End-of-block runs, the correction-bit buffer, the 24-bit
  accumulator, restarts, statistics and output passes, decoding of first and refinement scans of DC and
  of AC coefficients.
- **Assembly of scans** (`Geometry`, `Mcu*`). The coefficient controllers on both sides: which blocks of
  which component make an MCU, dummy blocks at the edges, the virtual arrays, suspension; in a single
  pass, in several, and in a transcoder.
- **Whole images** (`ImageRoundTrip`, `ScriptRoundTrip` with arithmetic coding; `HuffmanImage`,
  `HuffmanProgression`, `HuffmanScript`). From the blocks of all components through controller, entropy
  coder and decoder back into the coefficient arrays.
- **Markers and files** (`Marker*`, `HeaderRoundTrip`, `Jpeg*`). All headers of a file, where tables that
  have been sent are not sent again, written and read back; and whole sequential files, from an image's
  blocks and quantization tables to bytes, and from nothing but these bytes back to the image.
- **Schedules.** Scan scripts and the compressor's passes (`ScanScript`, `SimpleProgression`,
  `PassMachine`), context rows in the compressor's preprocessor (`PrepContext`) and in the decompressor's
  main controller (`ContextRows`).
- **Arithmetic of quantization** (`Reciprocal`) and **Epeg's scaling in place** (`EpegScale`).

`ByteSource` has what both decoders share: byte stuffing, markers and resynchronization. `Arithmetic`,
`BitFields` and `BitStrings` have the binary numbers. Encoder and decoder are proved against the same
functions; `ArithFigures`, `HuffmanFigures`, `PhuffFigures`, `McuOrder`, `MarkerWalk` and `SymbolScans` say
what these functions give, as the figures and tables of T.81 have it, without their help. Objects whose fields the program updates are
classes, loops over arrays are methods on arrays, and each is proved against a function or a property
about which the lemmas speak.

`ERREXIT` is modelled by a result, and `WARNMS` by a counter. The source of bytes never ends, as behind
the file there is an inserted end-of-image marker (libjpeg-turbo/jdatasrc.c:102-124).

## Model

| member | source | states |
|---|---|---|
| ArithEncoder.Encoder.ArithEncode | libjpeg-turbo/jcarith.c:222-314 | One decision narrows the ideal interval as T.81 says: the bytes written so far, the deferred zero bytes, the byte that may get a carry, the deferred 0xFF bytes and register `c` together always spell the low end of the interval (part of `Valid`), so no carry is ever lost. |
| ArithInterval.Subdivides | libjpeg-turbo/jcarith.c:222-314 | A decision divides the interval into a part of size Qe and the rest, below it; the more probable symbol has the part that is not smaller, the lower one if they are equal. |
| ArithInterval.Adapts | libjpeg-turbo/jcarith.c:222-314 | The estimate changes just if the interval gets smaller than 0x8000: to the next state of the table for the symbol that came, with the sense exchanged after a less probable one if the table says so; no other bin changes. |
| ArithEncoder.Encoder.FinishPass | libjpeg-turbo/jcarith.c:136-196 | What is written denotes a value of the interval that no other byte string denotes with fewer bytes, and does not end in a zero byte. |
| ArithTermination.Optimal | libjpeg-turbo/jcarith.c:135-196 | If a string denotes the interval's only multiple of a power of two and does not end in a zero byte, then no string that a decoder would decode to the same decisions is shorter. |
| ArithDecoder.Decoder.ArithDecode | libjpeg-turbo/jdarith.c:109-185 | For any bytes, the decision returned is the one whose half of the interval holds the code value; so if the bytes come from a run of decisions, it is the next one of the run. |
| ArithDecoder.Decoder.Exhausted | libjpeg-turbo/jdarith.c:109-150 | When the decisions of a segment have all been made, the decoder has read the whole segment, although the encoder dropped trailing zeros, and its statistics are the encoder's. |
| ArithRoundTrip.RoundTrip | libjpeg-turbo/jcarith.c:225-314 | Encoding any run of decisions, finishing, appending any marker and decoding with the same bins returns the same bits and leaves the same statistics. |
| Aritab.ByteUpdates | libjpeg-turbo/jaricom.c:31-153 | On the packed table words and the packed statistics byte, the masks and exclusive-ors of both coders do what the model does on an estimator's state and its most probable symbol. |
| ByteSource.ReadStuffed | libjpeg-turbo/jdarith.c:109-150 | Reading a stuffed segment gives the bytes before stuffing, whatever follows. |
| ArithBytes.StuffPlain | libjpeg-turbo/jcarith.c:222-314 | Stuffing leaves bytes without 0xFF alone, and puts a zero byte behind each 0xFF. |
| ByteSource.ReadRestartMarker | libjpeg-turbo/jdmarker.c:1130-1156 | No warning if and only if the expected marker comes next with nothing discarded. The stream then stands behind it; behind another marker it stands where the recovery of the next row leaves it. |
| ByteSource.ResyncToRestart | libjpeg-turbo/jdmarker.c:1193-1245 | Recovery skips what is no marker and restart markers one or two behind the desired one; the first other marker is dropped if it is the desired one or three to five away from it, and else left to be found again, with just what is behind it ahead. The warnings are exactly counted. |
| ByteSource.RestartsNumbered | libjpeg-turbo/jcarith.c:322-331 | Behind segment j the stream has restart marker 0xD0 + j modulo 8. |
| ArithMcuEncoder.McuEncoder.EncodeMcu | libjpeg-turbo/jcarith.c:364-817 | All five kinds of MCU make exactly the decisions of sections F.1.4 and G.1.3 of T.81, with the predictions that follow from it, behind a restart if one is due. The next rows say one by one what these decisions are. |
| ArithMcuEncoder.McuEncoder.EncodeDc | libjpeg-turbo/jcarith.c:396-445 | The context left for the next DC difference is 0 if twice this one's magnitude is at most 2^L, else 12 or 16, by sign, if the magnitude is more than 2^U, else 4 or 8. |
| ArithScan.DcConditioned | libjpeg-turbo/jcarith.c:434-438 | The same for every table and difference, of the comparisons of top bits with half the powers that the code makes. |
| ArithFigures.DcFigures | libjpeg-turbo/jcarith.c:396-445 | A difference has one decision for zero, one for its sign, one for a magnitude above one, its category in unary from bin 20 on, and its lower bits 14 bins further on. |
| ArithFigures.AcFigures | libjpeg-turbo/jcarith.c:515-540 | A magnitude has the bins 3 (k - 1) + 2, then 189 on or, behind position Kx, 217 on, and for the lower bits 14 bins further on. |
| ArithFigures.AcNext | libjpeg-turbo/jcarith.c:494-512 | A coefficient behind others or behind zeros has the decision that the block goes on, one for each zero, one that it is not zero, each with the bins of their position, and its sign with the fixed bin. |
| ArithFigures.RefineNext | libjpeg-turbo/jcarith.c:637-668 | In a refinement the block is said to go on only behind the last known coefficient; a known one has its next bit, and a new one its sign. |
| ArithFigures.PredictionIsLatest | libjpeg-turbo/jcarith.c:401-408 | In an MCU the prediction is the value of the component's last block, and the context is conditioned by that block's difference. |
| ArithFigures.ClearedAreas | libjpeg-turbo/jcarith.c:330-347 | A segment starts with just the areas anew that belong to a table of the scan's components, of DC or AC as the scan codes them. |
| ArithMcuDecoder.McuDecoder.DecodeMcu | libjpeg-turbo/jdarith.c:243-618 | From these decisions each block of the MCU is brought to the level that the scan sends and no other block changes; there is a warning, and nothing more is decoded, if and only if a DC difference is beyond what the decoder represents. |
| ArithMcuEncoder.EncodeScan | libjpeg-turbo/jcarith.c:322-356 | A scan is written as one shortest segment for every restart interval, with the markers in between in order modulo 8 and statistics and predictions started anew. |
| ArithFigures.SegmentsAreIntervals | libjpeg-turbo/jcarith.c:375-383 | Segment j has the MCUs of restart interval j, and there are as many segments as intervals. |
| ArithImage.ScanRoundTrip | libjpeg-turbo/jdarith.c:193-224 | Coding a scan and decoding it, restarts included, brings each block of the scan to the scan's level and changes no other, ends with equal statistics, and gives no warning, if and only if all DC differences are in the decoder's range. |
| ArithSegments.LargeDifference | libjpeg-turbo/jdarith.c:286-293 | One MCU with coefficients of 16 bits for which they are not in range. |
| ArithProgression.ProgressiveRoundTrip | libjpeg-turbo/jcarith.c:364-675 | After any legal sequence of first and refinement scans every coefficient has exactly the bits that have been sent, by point transform for DC and by magnitude for AC; if all have been sent, the blocks are the original ones. |
| PointTransform.PointsRounded | libjpeg-turbo/jcarith.c:391-396 | What a scan sends of a DC value is it rounded down to a multiple of 2^Al, and of an AC value it rounded towards zero. |
| ImageRoundTrip.TransmitImage | libjpeg-turbo/jccoefct.c:143-395 | A whole image in any legal sequence of scans, whatever their components, through coefficient controller, arithmetic coder and decoder, with any suspensions of the output: refused if and only if an MCU has too many blocks; otherwise every block, of padding too, has exactly the bits sent. |
| ScriptRoundTrip.TransmitScript | libjpeg-turbo/jcmaster.c:177-308 | So for any image and accepted script, and if the script sends every bit, the blocks come back as they were. |
| ScriptRoundTrip.TransmitSimple | libjpeg-turbo/jcparam.c:469-540 | The standard progression transmits every image without loss. |
| HuffmanMerge.LowerBound | libjpeg-turbo/jchuff.c:897-957 | No assignment of lengths that satisfies Kraft's inequality costs less than the sum of all merged counts. |
| HuffmanLengths.AssignCodeSizes | libjpeg-turbo/jchuff.c:897-957 | The loop over `freq`, `codesize` and the chains in `others` ends with lengths whose cost is that least one, with Kraft sum exactly 1, bounded by the Fibonacci numbers, and with the reserved symbol among the longest. |
| HuffmanPrefix.OptimalPrefixCode | libjpeg-turbo/jchuff.c:860-957 | No prefix code for the symbols in use gives a shorter message than these lengths. |
| HuffmanLimit.LimitLengths | libjpeg-turbo/jchuff.c:983-998 | Keeps the number of code words and the Kraft sum, never searches below length 1, ends with no length above 16, and does nothing if there was none; every step on the way is that of figure K.3: two of the longest words go, one takes the place of their prefix, and the next shorter word in use becomes a prefix of two. |
| HuffmanGen.GenOptimalTable | libjpeg-turbo/jchuff.c:887-1020 | Every symbol in use gets exactly one place in `huffval`, others none, in order of length; the counts are those of a prefix code of at most 16 bits without the code word of all ones; there is no failure if the counts sum to less than 9227464. |
| HuffmanGen.ListedInOrder | libjpeg-turbo/jchuff.c:1005-1015 | In `huffval` shorter lengths come first, and smaller symbols with the same length. |
| HuffmanTables.MakeEncoderTable | libjpeg-turbo/jchuff.c:222-307 | Accepts a table if and only if its counts leave room for all code words at every length and no symbol is repeated or too large; then each symbol has its canonical code word. |
| HuffmanTables.MakeGeneratedTable | libjpeg-turbo/jchuff.c:887-1062 | A generated table is always accepted, exactly the symbols in use have code words, and they have the optimal lengths unless one had to be shortened. |
| HuffmanCode.CodeOrder | libjpeg-turbo/jchuff.c:253-278 | Canonical code words are in order even when extended to the length of later ones, so none is a prefix of another. |
| HuffmanFigures.CodesCount | libjpeg-turbo/jchuff.c:253-278 | The first code word consists of zeros, and each is the one before plus one, followed by zeros if it is longer. |
| HuffmanDecode.MakeDecoderTable | libjpeg-turbo/jdhuff.c:155-273 | Accepts a table if and only if its counts leave room for all code words and DC categories are at most 15; `maxcode`, `valoffset` and the 256 lookahead entries then agree with the canonical code. |
| HuffmanFigures.EntryFields | libjpeg-turbo/jdhuff.c:236-256 | The lookahead entries have the length above the low eight bits and the symbol in these. |
| HuffmanSymbol.HuffDecode | libjpeg-turbo/jdhuff.h:190-209 | Whatever position, buffer state and length of code word: if the data starts with the canonical code word of a symbol, this symbol is returned and exactly its bits are used up. |
| HuffmanWriter.BitWriter.FlushBits | libjpeg-turbo/jchuff.c:464-483 | The bytes hold the bits, padded with ones, if and only if the bits that do not fit the accumulator with the 7 bits of padding are all zero. |
| HuffmanFigures.HeldWithOnes | libjpeg-turbo/jchuff.c:464-483 | Bytes that hold the bits are as few as can, start with them, and have ones in the rest of the last byte. |
| HuffmanBlock.EncodeOneBlock | libjpeg-turbo/jchuff.c:506-611 | Appends just the code words and value bits of the block, which the next rows describe, to the bits written, stuffed, with accumulators of 64 or of 32 bits, and leaves the number of pending bits that the flush condition speaks of. |
| HuffmanFigures.ValueBitsAre | libjpeg-turbo/jchuff.c:527-547 | For a value of n bits, the bits behind its code word are the low n bits of it, or of it less one if it is negative. |
| HuffmanFigures.ExtendCounts | libjpeg-turbo/jdhuff.c:496-500 | The decoder takes s zeros for 1 - 2^s and a one with zeros for 2^(s-1), and counts up by one from each. |
| HuffmanFigures.DcFigure | libjpeg-turbo/jchuff.c:506-549 | A DC difference has the code word of its category, n for a magnitude from 2^(n-1) up to 2^n - 1, and its value bits. |
| HuffmanFigures.AcNext | libjpeg-turbo/jchuff.c:551-609 | A coefficient has symbol 0xF0 for each sixteen zeros before it, a symbol with the number of the others as high digit and its category as low digit, and its value bits. |
| HuffmanFigures.AcEnd | libjpeg-turbo/jchuff.c:600-609 | Behind the last coefficient there is symbol 0, unless it is the last of the block. |
| HuffmanBlock.DecodeOneBlock | libjpeg-turbo/jdhuff.c:555-648 | From these bits, whatever follows them, the block and the prediction come back, with nothing else changed and no bit more consumed. |
| HuffmanSegments.EncodeScan | libjpeg-turbo/jchuff.c:619-707 | One segment for each restart interval, with the predictions started anew; a segment's bytes hold its bits if and only if its flush loses none. |
| HuffmanFigures.PredictionIsLatest | libjpeg-turbo/jchuff.c:655-690 | The prediction of a block is the DC value of the component's last block in the same restart interval, of so many MCUs as declared, and zero if there is none. |
| HuffmanFigures.BlockInScan | libjpeg-turbo/jchuff.c:655-690 | With this prediction the scan has the block, and a new segment starts where the interval does. |
| HuffmanStatistics.SymbolCounts.CountBlock | libjpeg-turbo/jchuff.c:754-818 | An error if and only if a coefficient or the DC difference has too many bits; otherwise counts exactly the symbols that the output pass emits for the block. |
| HuffmanFigures.AcceptableExactly | libjpeg-turbo/jchuff.c:754-818 | The error is for DC differences of 2^11 or more and AC values of 2^10 or more. |
| HuffmanOptimize.Gather | libjpeg-turbo/jchuff.c:827-855 | The same for a whole scan with restarts: every table's counts are those of the list of symbols emitted with it. |
| HuffmanOptimize.CoveredCoded | libjpeg-turbo/jchuff.c:1028-1062 | Tables that have code words for what was counted have them for everything that is emitted. |
| HuffmanOptimize.ScanLength | libjpeg-turbo/jchuff.c:506-611 | The bits of all segments are as many as the code words and value bits of the lists of symbols, table by table. |
| HuffmanRoundTrip.EncodeBoth | libjpeg-turbo/jchuff.c:345-419 | The encoders with words of 64 and of 32 bits write the same file if and only if no flush of the first loses bits, and just then the segments of the first hold the scan's bits; those of the second always do. |
| HuffmanRoundTrip.ModestFlushes | libjpeg-turbo/jchuff.c:464-483 | No flush of a word of 64 bits loses any if coefficients have at most 10 bits and the code word for the end of a block has at most 10. |
| HuffmanRoundTrip.ShortEndsFlush | libjpeg-turbo/jchuff.c:464-483 | So for blocks that the statistics pass accepts, such code words suffice. |
| HuffmanFlush.BitsLost | libjpeg-turbo/jchuff.c:464-483 | A block and sizes of code words for which 63 bits are pending at the flush, and bits are lost. |
| HuffmanFlush.LosingFile | libjpeg-turbo/jchuff.c:464-483 | With tables that the encoder accepts, the two encoders then write different files, and from that of the encoder with words of 64 bits the decoder gets another block, without a warning. |
| HuffmanStairs.StairLengths | libjpeg-turbo/jchuff.c:897-957 | If each of k counts is greater than the sum of all lighter ones, with one symbol besides and the reserved one, then no lengths but 1 to k, and k + 1 for the last two, are optimal. |
| HuffmanDamage.DamagedScan | libjpeg-turbo/jchuff.c:464-483 | 1024 blocks of coefficients such as 8-bit samples give, with a restart behind each, for which the tables made from their own statistics have an end-of-block code of 11 bits: with words of 64 bits the scan is written, but the file does not hold it. |
| HuffmanMcu.DecodeMcu | libjpeg-turbo/jdhuff.c:652-792 | With enough bytes in the buffer the fast path is taken, and when it meets a marker the slow path starts over; either way the blocks, predictions and remaining bits are those of the slow path alone, and 512 bytes for each block suffice for the fast path. |
| HuffmanMcu.DecodeScan | libjpeg-turbo/jdhuff.c:521-551 | Across restart markers, with whatever delivery of bytes, all blocks come back without a warning, and the source is left at the marker behind the scan. |
| HuffmanRoundTrip.CodeAndDecode | libjpeg-turbo/jchuff.c:644-707 | Coding with any tables that have the code words needed, followed by any marker, and decoding returns all blocks if the segments hold the scan's bits: always with words of 32 bits, and with words of 64 bits if and only if no flush loses any. |
| HuffmanRoundTrip.OptimizedRoundTrip | libjpeg-turbo/jchuff.c:827-1062 | Statistics pass, generated tables, output pass and decoding: refused if and only if a coefficient has too many bits (or there are millions of symbols and a code word gets too long); otherwise no symbol is without a code word, the lengths are optimal ones unless some had to be shortened, the number of bits is the sum of count times code length plus value bits, from the counts alone, and all blocks come back, with words of 64 bits if and only if no flush loses bits with these tables, and certainly if their end-of-block codes have at most 10 bits. |
| HuffmanImage.TransmitImage | libjpeg-turbo/jchuff.c:644-707 | A whole sequential image, each component in one scan, with statistics pass, tables made for each scan, output pass and decoding, each through the coefficient controllers, with words of either size: all blocks come back, unless an MCU has too many blocks or a coefficient too many bits (or a code word gets too long) or, with words of 64 bits, the flushes of a scan lose bits with its tables, which are returned; none does if their end-of-block codes have at most 10 bits. |
| PhuffTokens.RunOut | libjpeg-turbo/jcphuff.c:317-340 | A pending end-of-block run comes out as one symbol for all blocks that join it, with their correction bits in order. |
| PhuffFigures.RunFigure | libjpeg-turbo/jcphuff.c:317-340 | A run of n blocks, from 2^m up to 2^(m+1) - 1, has the symbol with high digit m and low digit 0, n - 2^m in m bits, and the correction bits. |
| PhuffFigures.RunWaits | libjpeg-turbo/jcphuff.c:712-723 | A block that only joins a run emits nothing, just until the run has 0x7FFF blocks or more than 937 correction bits. |
| PhuffWriter.PhuffBits.EmitBits | libjpeg-turbo/jcphuff.c:230-265 | The 24-bit left-justified accumulator with stuffed output appends exactly these bits. |
| PhuffWriter.PhuffBits.FlushBits | libjpeg-turbo/jcphuff.c:269-274 | The bytes hold all bits, padded with ones. |
| PhuffEncoder.PhuffEncoder.EncodeAcFirst | libjpeg-turbo/jcphuff.c:464-562 | An error if and only if a coefficient of the band has too many bits; otherwise takes one step of the token coder: the block's zero runs, symbols and value bits, behind the pending run if the block does not join it. |
| PhuffFigures.FirstNext | libjpeg-turbo/jcphuff.c:478-536 | A coefficient, divided by 2^Al towards zero, has its zeros by sixteens, the symbol of the rest and its category, and its value bits. |
| PhuffEncoder.PhuffEncoder.EncodeAcRefine | libjpeg-turbo/jcphuff.c:618-739 | The same for refinement: correction bits follow the symbol they belong to, and those behind the last newly nonzero coefficient wait in the buffer, in order. A run is never longer than 0x7FFF and nothing is written beyond the buffer. |
| PhuffFigures.RefineNext | libjpeg-turbo/jcphuff.c:660-707 | A new coefficient has the number of zeros before it and 1 as the digits of its symbol, a sign bit that is one if it is positive, and the next bits of the known coefficients that were passed, in order. |
| PhuffFigures.RefineSixteen | libjpeg-turbo/jcphuff.c:672-683 | Sixteen zeros before a new coefficient have symbol 0xF0 and the bits of the known ones passed up to the sixteenth. |
| PhuffEncoder.PhuffEncoder.EmitRestart | libjpeg-turbo/jcphuff.c:348-369 | Ends the pending run with its correction bits, flushes, writes the marker and starts anew, so that the segment holds its own tokens. |
| PhuffFigures.PartsAre | libjpeg-turbo/jcphuff.c:464-480 | Segment j has the blocks of restart interval j, and each block has one. |
| PhuffBuffer.BufferSuffices | libjpeg-turbo/jcphuff.c:661-723 | In any run of refinement, what is buffered and what the next block adds are at most MAX_CORR_BITS. |
| PhuffBuffer.BufferFilled | libjpeg-turbo/jcphuff.c:661-723 | 16 blocks that reach this bound: 937 bits are pending when 63 come. |
| PhuffDecoder.DecodeAcFirst | libjpeg-turbo/jdphuff.c:363-445 | From the tokens of the blocks the decoder reads back the band of each, with its own count of the blocks left in a run. |
| PhuffRefine.DecodeAcRefine | libjpeg-turbo/jdphuff.c:497-640 | The same for refinement, where zeros are counted only at coefficients that are still zero and known ones are corrected in passing. |
| PhuffScan.ScanLength | libjpeg-turbo/jcphuff.c:282-340 | The bits of a scan are count times code length, summed over the counts, plus the bits that are not coded. |
| PhuffScan.OptimizedScan | libjpeg-turbo/jcphuff.c:747-807 | Statistics pass, generated table, output pass to bytes, any marker, and decoding, with restarts: refused if and only if a coefficient has too many bits; otherwise every block is brought to the scan's level, first scan or refinement, and the length is what the counts say. |
| Geometry.PerScanSetup | libjpeg-turbo/jcmaster.c:355-436 | An error if and only if an MCU has too many blocks; otherwise MCUs per row, their width and height in each component, and the sizes of the last column and row, are those of the image. With the largest factors there are, the MCUs are as many as needed for the image's width and height and no more; for one component, as its samples need. |
| Geometry.FullWidth | libjpeg-turbo/jdinput.c:112-135 | A component with the largest factor has just the blocks that one sample for each pixel needs. |
| Geometry.MaxAttained | libjpeg-turbo/jcmaster.c:123-150 | A component has the largest horizontal factor, and one the vertical. |
| Geometry.RowGroupsAgree | libjpeg-turbo/jdmainct.c:225-234 | The number of row groups that are left in the last iMCU row is the same for all components, as a comment hopes. |
| McuPlaces.LayoutSound | libjpeg-turbo/jdcoefct.c:191-250 | No block has two places in a scan, all places are inside the arrays, and every MCU has as many as its setup says. |
| McuPlaces.LayoutComplete | libjpeg-turbo/jdcoefct.c:191-250 | Just the blocks of the scan's components have one: all that the MCUs cover if there are several, those of the image if there is one. |
| McuOrder.McuInOrder | libjpeg-turbo/jdcoefct.c:191-250 | The blocks of an MCU are in order: by component, row and column. |
| McuOrder.ScanInOrder | libjpeg-turbo/jdcoefct.c:191-250 | MCUs are in order, from left to right and from top to bottom. |
| McuPlanes.LoadImcuRow | libjpeg-turbo/jccoefct.c:245-328 | The first pass fills the virtual arrays row by row with the image's blocks, to the right with the DC of the block before, and below with that of the last block of the MCU above. |
| McuPadding.PaddingRepeats | libjpeg-turbo/jccoefct.c:263-316 | A block of padding is never the first of its component in an MCU, and has the DC value of the one before it there, so that its difference is zero. |
| McuWriter.CoefController.CompressScan | libjpeg-turbo/jccoefct.c:72-395 | Whatever room the destination offers from call to call, the MCUs of the scan are sent once each, in order, none is sent otherwise, and all are if calls go on. |
| McuWriter.SendAlike | libjpeg-turbo/jctrans.c:292-365 | A single pass, the first of several, a later one, and the transcoder with its shared dummy blocks send the same MCUs. |
| McuReader.SendAndStore | libjpeg-turbo/jdcoefct.c:191-250 | Sent and stored with any suspensions on both sides, the scan's blocks come back to their places, and no others change. |
| MarkerReader.MarkerReader.ReadMarkers | libjpeg-turbo/jdmarker.c:969-1115 | Reads the tables, the frame and a scan header from the bytes that define them, and stands behind them. |
| MarkerWalk.AllWalk | libjpeg-turbo/jcmarker.c:149-315 | Whoever knows only that a segment has a marker and a length of two bytes, the upper first, finds each segment that is written, one behind the other. |
| MarkerWalk.SegmentWalks | libjpeg-turbo/jcmarker.c:149-315 | In it stand the marker and the parameters of table B.1 and section B.2 of T.81, field by field: tables in zigzag order with 8 or 16 bits, numbers of code words and symbols, conditioning, interval, frame. |
| MarkerWalk.HeaderWalks | libjpeg-turbo/jcmarker.c:319-346 | The same for a scan header. |
| MarkerReader.MarkerReader.GetSos | libjpeg-turbo/jdmarker.c:304-380 | Accepts a scan's components if and only if all are among the first four. |
| MarkerWriter.MarkerWriter.WriteFrameHeader | libjpeg-turbo/jcmarker.c:499-551 | An error if and only if a quantization table is missing or the size has more than 16 bits; otherwise the decoder then has the tables, and what counts as sent is what the decoder has. The frame is marked as baseline if and only if samples and quantizer steps have 8 bits, it is sequential with Huffman coding, and all table numbers are at most 1. |
| MarkerWriter.MarkerWriter.WriteScanHeader | libjpeg-turbo/jcmarker.c:559-596 | An error if and only if a Huffman table is missing; otherwise the decoder has all that the scan needs, from this header or an earlier one, and what counts as sent is what it has. |
| SymbolScans.TablesNeeded | libjpeg-turbo/jcmarker.c:559-596 | A Huffman table of a kind is needed just for the scans whose entropy coder emits symbols of that kind, whatever the blocks are. |
| HeaderRoundTrip.FileRoundTrip | libjpeg-turbo/jcmarker.c:474-610 | For whole files, with Huffman tables and restart intervals changing between scans and any coded data in between: written if and only if the tables are defined; then at every scan the reader has the compressor's tables and parameters; all scans are read if and only if their components are among the first four. |
| HeaderRoundTrip.FoundExactly | libjpeg-turbo/jdmarker.c:328-356 | This condition: a scan's components are found if and only if the last is less than MAX_COMPS_IN_SCAN. |
| HeaderRoundTrip.FifthComponent | libjpeg-turbo/jdmarker.c:328-337 | A scan of the fifth component is not found. |
| JpegTables.ReceivedEncodes | libjpeg-turbo/jdmarker.c:433-503 | A Huffman table as a marker carries it, without the entry and the symbols that no code word uses, assigns every symbol the code word it has with the compressor. |
| JpegTables.DeriveTables | libjpeg-turbo/jdhuff.c:91-140 | An error if and only if a table of the scan is missing or not legal; otherwise the decoder's tables decode the ones that have been received. |
| JpegFile.CompressFile | libjpeg-turbo/jcmaster.c:448-582 | If it is written, the limits on size and precision are kept, the quantization tables are there, each scan's bytes hold its blocks, and at their start the decoder has the tables made for the scan, under its components' numbers; if these conditions hold and no scan is refused, it is written if and only if no flush loses bits. |
| JpegRoundTrip.LatchQuants | libjpeg-turbo/jdinput.c:243-269 | An error if and only if a component that has none yet finds no quantization table in its slot; otherwise it keeps the one that is there, and all others keep theirs. |
| JpegRoundTrip.DecompressFile | libjpeg-turbo/jdinput.c:278-352 | From such bytes alone, by its own reading of the headers: refused if and only if the limits are exceeded or a scan's component is beyond the fourth; otherwise the image's size and sampling, the quantization table of every component and all blocks are what they were, up to the end-of-image marker. |
| JpegRoundTrip.TransmitFile | libjpeg-turbo/jdinput.c:312-352 | Both in one: what comes back from the file is the image, and under conditions that can be checked before, it does come back if and only if no flush of a word of 64 bits loses bits with the tables made. |
| PhuffDc.DcEncoder.EncodeBlock | libjpeg-turbo/jcphuff.c:378-438 | An error if and only if the difference after the point transform has more than 11 bits; otherwise emits its symbol with the component's table and its bits, or in a refinement the next bit. |
| PhuffFigures.DcFigures | libjpeg-turbo/jcphuff.c:391-445 | The value is divided by 2^Al, rounding down; a first scan has the code word of the category of the difference and its value bits, and a refinement the next bit alone. |
| PhuffDc.EncodeScan | libjpeg-turbo/jcphuff.c:572-612 | Across restarts, in both passes, exactly these items are counted, table by table, or written, segment by segment. |
| PhuffDcScan.DecodeScan | libjpeg-turbo/jdphuff.c:292-352 | From these segments and any marker every block gets the DC value at the scan's level, or one more bit, without a warning. |
| PhuffDcScan.OptimizedDcScan | libjpeg-turbo/jcphuff.c:747-807 | Statistics pass, a table for each number in use, output pass and decoding of a DC scan of several components: refused if and only if a difference has too many bits; otherwise every block is brought to the scan's level, and the number of bits is what the counts say, or one for each block in a refinement. |
| HuffmanProgression.TransmitImage | libjpeg-turbo/jcphuff.c:282-807 | A whole progressive image in any legal sequence of DC and AC scans, first and refining, each with its own statistics and tables: unless refused for its MCUs or for coefficients of too many bits, every block has exactly the bits sent. |
| HuffmanScript.TransmitScript | libjpeg-turbo/jcmaster.c:177-308 | With coefficients of 11 bits, as 8-bit samples give, and any accepted script, an image of less than 144000 blocks is refused if and only if an MCU has too many blocks, and the blocks come back if all bits are sent. |
| HuffmanScript.TransmitSimple | libjpeg-turbo/jcparam.c:469-540 | So the standard progression with Huffman coding loses nothing. |
| HuffmanScript.TransmitSequential | libjpeg-turbo/jchuff.c:644-707 | With such coefficients and so few blocks, a sequential image whose MCUs are not too large comes back always with words of 32 bits; with words of 64 bits if and only if no flush loses bits with the tables made, so if their end-of-block codes have at most 10 bits. |
| Reciprocal.ComputeReciprocal | libjpeg-turbo/jcdctmgr.c:83-221 | For every divisor and word sizes 16 and 32, reciprocal, correction and shift fit their types, and multiplying and shifting gives the rounded quotient of every dividend that fits. |
| Reciprocal.Quantize | libjpeg-turbo/jcdctmgr.c:408-478 | So each coefficient is the quotient rounded to the nearest integer, with the sign of the input. |
| Reciprocal.RoundedIsNearest | libjpeg-turbo/jcdctmgr.c:420-438 | No multiple of the divisor is nearer than that of the rounded quotient, and of two as near the larger is meant. |
| Reciprocal.SlowDivisorExact | libjpeg-turbo/jcdctmgr.c:236-300 | The divisor for the accurate integer transform is eight times the quantizer step if and only if the step is less than 8192, and 0 if and only if the step is a multiple of that. |
| ScanScript.ValidateScript | libjpeg-turbo/jcmaster.c:177-308 | A script is accepted if and only if it is valid: a declarative description of the order in which bits may be sent. |
| ScanScript.StartPass | libjpeg-turbo/jdarith.c:626-673 | The decoder's errors and warnings at the start of a progressive pass, exactly, and the levels it notes. |
| ScanScript.DecodeScript | libjpeg-turbo/jdarith.c:632-670 | For every accepted progressive script the decoder finds no error and nothing to warn about. |
| SimpleProgression.SimpleScript | libjpeg-turbo/jcparam.c:407-540 | The standard script has exactly these scans in this order, ten for a color picture, fills exactly the computed space, is accepted, and sends every bit of every coefficient, for any number of components. |
| SimpleProgression.AcceptedLegal | libjpeg-turbo/jcmaster.c:177-308 | Accepted scripts are legal sequences for ArithProgression.ProgressiveRoundTrip. |
| PassMachine.Master.Compress | libjpeg-turbo/jcmaster.c:448-582 | For any script, with or without optimization, the passes come in the order given by a log, and the pass marked as the last is the last. With optimization, statistics are gathered once for each scan that has Huffman symbols (or with arithmetic coding for any), before its header is written, and for no other. |
| SymbolScans.SymbolsExactly | libjpeg-turbo/jcmaster.c:479-493 | These are the scans, sequential, of AC coefficients or first ones of DC, in which the entropy coder has a symbol, whatever the blocks are; in refinements of DC it has none. |
| PassMachine.FileOfLog | libjpeg-turbo/jcmaster.c:448-582 | Whatever is optimized, the file then is one frame header and each scan once, in order. |
| PrepContext.PrepController.ProcessImage | libjpeg-turbo/jcprepct.c:198-308 | Whatever rows come and row groups are asked for from call to call, each row group is downsampled once, in order, with the true rows above and below it, through a ring of three row groups with pointers wrapped at both ends; and all are, if calls go on. |
| PointTransform.JpegNaturalOrderOk | libjpeg-turbo/jutils.c:56-67 | The table of the zigzag order is a permutation that starts with the DC coefficient. |
| PointTransform.NaturalWalks | libjpeg-turbo/jutils.c:56-67 | It walks over the antidiagonals, up on even ones and down on odd ones. |
| ContextRows.MainController.ProcessData | libjpeg-turbo/jdmainct.c:329-391 | Any call, with any delivery and any room for output, keeps the state: pointer lists, what is in the buffer, and what has been handed on. |
| ContextRows.MainController.ProcessImage | libjpeg-turbo/jdmainct.c:167-243 | For any height, row group size, M >= 2 and rate of consumption, every row group is handed on once, in order, none besides, and with the rows around it as stated; and all are, if calls go on. |
| ContextRows.MainController.ContextIsRight | libjpeg-turbo/jdmainct.c:210-243 | These are the true neighbours, with the first and last row repeated at the edges, if and only if there is one iMCU row or the last one has at least a row group of real rows. |
| ContextRows.MainController.PaddingHandedOn | libjpeg-turbo/jdmainct.c:329-391 | A picture for which they are not. |
| EpegScale.EpegImage.ChooseScale | libjpeg-turbo/epeg_main.c:890-986 | The denominator is the greatest up to 8 that leaves at least the requested size. |
| EpegScale.EpegImage.DecodeSizeSet | libjpeg-turbo/epeg_main.c:131-148 | The requested size is brought into the range from 1 to the picture's. |
| EpegScale.EpegImage.Scale | libjpeg-turbo/epeg_main.c:989-1016 | Every pixel (x, y) of the scaled picture is the original's (k, l), the only ones with k w <= x W < (k + 1) w for the widths W and w, and likewise for the heights, though the scaling is done in the same buffer; the rest of the buffer is unchanged. |

## Findings

Where the code does not do what it is for, or what its comments say, the model follows the code:

- **Bits lost by a flush.** `flush_bits` (libjpeg-turbo/jchuff.c:464-483) adds 7 bits of padding to an
  accumulator of 64 bits that may already hold 63, and so may shift out up to six bits. A segment is
  damaged if and only if one of these is a one (HuffmanSegments.EncodeScan, HuffmanRoundTrip.EncodeBoth).
  HuffmanFlush.LosingFile is an example with chosen tables, where the decoder gets another block without a
  warning, and HuffmanDamage.DamagedScan one with tables made from the statistics of ordinary blocks. It
  cannot happen with words of 32 bits, nor with coefficients of at most 10 bits and end-of-block codes of
  at most 10 bits (HuffmanRoundTrip.ModestFlushes). The results on whole sequential images have this
  condition (HuffmanImage.TransmitImage, JpegRoundTrip.TransmitFile).
- **Padding as context.** When the last iMCU row has less than a row group of real rows, the row group
  above is handed on before `set_bottom_pointers` has replaced the padding below it
  (libjpeg-turbo/jdmainct.c:329-391). ContextRows.MainController.ContextIsRight is the exact condition,
  PaddingHandedOn an example of 17 rows.
- **DC differences of 17 bits.** The arithmetic encoder codes them, but the decoder's limit on the
  magnitude (libjpeg-turbo/jdarith.c:286-293) refuses them. ArithImage.ScanRoundTrip has the exact
  condition, ArithSegments.LargeDifference an example; it is met if coefficients have at most 15 bits.
- **Large quantizer steps.** For the accurate integer transform a step of 8192 or more loses its upper
  bits, and one that is a multiple of it becomes 0, for which no reciprocal exists
  (Reciprocal.SlowDivisorExact).
- **Components behind the fourth.** `get_sos` looks for a scan's components among the first four of the
  frame only (libjpeg-turbo/jdmarker.c:331-337), so scans of others, which the compressor writes for up to
  ten components, are refused (HeaderRoundTrip.FoundExactly, FifthComponent).
- **Layout of lookahead entries.** They are the length times 256 plus the symbol, as the code has it
  (libjpeg-turbo/jdhuff.c:254, HuffmanFigures.EntryFields), not the other way round, as a comment says
  (libjpeg-turbo/jdhuff.h:41-44).

## Left out

- SIMD routines, the DCT and its inverse, color conversion, sampling, dithering and floating point.
- Suspension in the entropy coders: a source always has its next byte, and a destination always has room. (The number of bytes in the buffer when the fast decoder is chosen is arbitrary.)
- Whole files with the coded data and the headers in one statement, for progressive and for arithmetic coding: JpegRoundTrip.TransmitFile has it for sequential Huffman coding; the other images are proved with the coded data of each scan alone, and their headers with any coded data in between (HeaderRoundTrip.FileRoundTrip).
- The contents of APPn and COM markers, and files with tables only.
- Arithmetic conditioning is a parameter of the coder, as are the statistics at the start of a scan.
- HuffmanGen.GenOptimalTable: for counts whose sum is at most 10^9, where the search of the program looks at all of them, and at most 254 symbols, as the counts of code words have 8 bits.
- HuffmanRoundTrip.CodeAndDecode: what a decoder makes of a scan that a flush has damaged is left open, apart from the example HuffmanFlush.LosingFile.
- JpegFile.CompressFile: for sampling factors that `initial_setup` accepts; its other limits are modelled as errors. That a statistics pass comes before each scan's output pass, and not before all of them, makes no difference to the bytes.
- JpegRoundTrip.DecompressFile: for files such as are written; other bytes are left to MarkerReader.MarkerReader.ReadMarkers.
- HuffmanMcu.DecodeMcu: for streams of assigned code words only, as the fast and the slow path differ on others.
- PhuffDecoder.DecodeAcFirst: for streams of assigned code words that the encoder can have written.
- PhuffRefine.DecodeAcRefine: for the same streams.
- PhuffDcScan.DecodeScan: for the same streams.
- Reciprocal.ComputeReciprocal: does not model the fourth table that serves vector instructions, only the code by which they are refused.
- HuffmanImage.TransmitImage: for as many symbols as HuffmanGen.GenOptimalTable.
- HuffmanProgression.TransmitImage: for at most as many blocks as give so many symbols.
- HuffmanScript.TransmitScript: larger images may be refused for a code word that is too long (HuffmanGen.GenOptimalTable).
- MarkerReader.MarkerReader.ReadMarkers: what it reads from other bytes than a writer's is only bounded, not described.
- ContextRows.MainController.ProcessData: the rows of one component (Geometry.RowGroupsAgree covers the others); the postprocessor takes any number of the row groups offered. The main controller without context rows is left out, as it only passes its buffer on.
- EpegScale.EpegImage.Scale: the width of machine integers, and decoding with color spaces that have other numbers of components than the output.
