# A verified model of the JPEG codec

A model of the JPEG codec bundled with this repository (release 9a of the Independent JPEG
Group's library, ITU-T T.81), and proofs about it. Both entropy coders are modelled as pairs of
objects with the code's own registers and buffers, and what one writes is proved to be what the
other reads:

- the adaptive arithmetic coder: registers against exact intervals, the probability table against
  its packed words (`PackedTable.dfy`), blocks in all five modes and the statistics bin of each of
  their decisions (`ArithBins.dfy`), scans with restarts that keep damage inside a segment, whole
  scripts (the `Arith` files, `IntervalCoder.dfy`);
- the Huffman coder: generation of optimal tables, which are proved optimal, with the bound on
  code lengths (`HuffmanTree.dfy`, `HuffmanWeights.dfy`, `HuffmanShortest.dfy`,
  `HuffmanOrder.dfy`, `HuffmanLengths.dfy`, `HuffmanOptimal.dfy`, `HuffmanTableCost.dfy`);
  derived tables, lookahead decoding, sequential and progressive blocks, end-of-band runs,
  correction bits, suspension, the statistics pass, scans with restarts (the other `Huffman` and
  the `Progressive` files), and the bits of every block spelled out (`HuffmanSpelled.dfy`);
- scan scripts, their checks on both sides, the recommended script, and pass control
  (`ScanScript.dfy`, `SimpleProgression.dfy`, `PassMachine.dfy`), and images sent by a script
  (`ProgressiveImage.dfy`, `ProgressiveScript.dfy`, `ArithScript.dfy`);
- the controllers between the stages: MCU sequences with dummy blocks, and the rolling row
  buffers with context rows in both directions (`McuSequence.dfy`, `McuRaster.dfy`, `CoefControllers.dfy`,
  `CompressPrep.dfy`, `DecompressMain.dfy`, `DecompressController.dfy`);
- marker segments and headers, byte by byte, written and read back (the `Marker` files), and
  whole files of headers and scans (`ProgressiveFile.dfy`).

Each object has a specification as a function on values: an interval coder, a canonical code, a
parser for any bits, an image with repeated edge rows. The methods are proved against it, and the
round trips are proved about it and then stated once more from object to object. What both sides
share, tables, bins, bits of values and bytes of segments, is in turn pinned by lemmas in the
numbers of the source and of T.81.

Input that a source may refuse is a byte sequence of which a part has been supplied; the
destination is a byte sequence that grows. Error exits are results. `DCTSIZE` and
`BITS_IN_JSAMPLE` are 8.

## Model
| member | source | states |
|---|---|---|
| Bytes.UnstuffStuff | Source/MicroBuild-LibJpeg/Source/jcarith.c:132-193 | Any data, stuffed and followed by 0xFF and a marker code, is taken apart again: the data bytes are exactly the data, and what ends them is exactly that marker and the bytes after it. (What the decoder does at the marker is `ArithDecoding.ArithDecoder.Decide`.) |
| Bytes.StuffHasNoMarker | Source/MicroBuild-LibJpeg/Source/jcarith.c:142-192 | Every 0xFF inside stuffed data is followed by a zero byte, so no marker can appear in a segment. |
| PackedTable.TablePacked | Source/MicroBuild-LibJpeg/Source/jaricom.c:23-153 | Every row of the probability table is what the packed word of its entry says, word by word: the estimate, both next states and the switch. |
| PackedTable.TableLawful | Source/MicroBuild-LibJpeg/Source/jaricom.c:23-153 | Over the whole table the more probable symbol never raises the estimate, and the less probable one raises it wherever the sense is not switched and the state is not 113. |
| PackedTable.StepPacked | Source/MicroBuild-LibJpeg/Source/jcarith.c:218-311 | One decision in terms of the packed words, for any state and interval: which part of the interval it takes, when the two symbols are exchanged, and the bin afterwards, by `WordOf` and sums of bits alone. |
| PackedTable.EightZeros | Source/MicroBuild-LibJpeg/Source/jcarith.c:132-311 | Eight decisions 0 in a zeroed bin leave it at state 2, and the code of them is the one byte 0x60. |
| ArithEncoding.ArithEncoder.Code | Source/MicroBuild-LibJpeg/Source/jcarith.c:218-311 | One decision on the registers: `c`, `a`, `ct`, the held byte, the stacked 0xFF bytes, the pending zeros and the output together denote exactly the interval, and the bins are exactly those, of one step on exact intervals, which `PackedTable.StepPacked` gives in numbers; the width is between 0x8000 and 0x10000 again. |
| ArithEncoding.ArithEncoder.ResolveCarry | Source/MicroBuild-LibJpeg/Source/jcarith.c:262-290 | A carry adds exactly one to the number all digits denote, through any stack of 0xFF bytes; it needs a held byte, and what is written then does not end in a zero byte and keeps its stuffing. |
| ArithEncoding.ArithEncoder.FinishPass | Source/MicroBuild-LibJpeg/Source/jcarith.c:132-193 | The bytes written are the stuffed terminating code of the final interval, with no zero byte at its end. |
| IntervalCoder.CodeShortest | Source/MicroBuild-LibJpeg/Source/jcarith.c:135-160 | No byte string inside the final interval is shorter than the terminating code. |
| IntervalCoder.CodeUnique | Source/MicroBuild-LibJpeg/Source/jcarith.c:132-193 | The terminating code is determined by the interval, hence the output by the decisions alone. |
| ArithDecoding.ArithDecoder.Decide | Source/MicroBuild-LibJpeg/Source/jdarith.c:105-182 | On any input, the registers with their renormalization still owed give exactly the decision and the next state of the simple form, whose step is that of `PackedTable.StepPacked`, for the segment's data followed by zeros; it is refused only when the input ends before a marker. |
| ArithDecisions.DecodeAll | Source/MicroBuild-LibJpeg/Source/jdarith.c:105-182 | For any list of bins and any input, the decoder object gives what the simple form decodes, bits and bins. |
| ArithDecisions.RoundTrip | Source/MicroBuild-LibJpeg/Source/jcarith.c:132-311 | For every list of decisions, any bytes before and any marker and bytes after: arith_encode on each and finish_pass, read back by arith_decode, give every bit, and both objects end with the same statistics. |
| ArithSegment.BlockBins | Source/MicroBuild-LibJpeg/Source/jcarith.c:361-833 | The decisions of any block of 16-bit coefficients, in every mode, use bins of the areas of the scan's components only, stay inside 49 DC bins (50 when the DC difference is out of the decoder's range) and 245 AC bins, and the DC contexts stay 0, 4, 8, 12 or 16. |
| ArithBins.BlockBinsAre | Source/MicroBuild-LibJpeg/Source/jcarith.c:361-833 | The decisions of any block in every mode, position by position, each with its statistics bin in numbers: DC in its context and from bin 20 on, the end of the block and zeros in bins from 3(k - 1) on, the category of a magnitude of at least 3 in bins from 189 on up to Kx and from 217 on beyond it, its bits fourteen bins further on; the next DC context is 0, 4 or 8, 12 or 16 by the difference against L and U. |
| ArithBins.SegmentBinsAre | Source/MicroBuild-LibJpeg/Source/jcarith.c:319-354 | The decisions of a whole segment are those of its blocks one after the other, from DC predictions 0 and contexts 0. |
| ArithScan.BlockParsed | Source/MicroBuild-LibJpeg/Source/jdarith.c:241-635 | From any code in the interval a block's decisions lead to, in every mode, the decoder gets exactly the block as far as the scan covers it and the same state; it rejects the block if and only if the DC difference exceeds 2^15 in magnitude. |
| ArithSegment.ScanParsed | Source/MicroBuild-LibJpeg/Source/jdarith.c:189-233 | Stuffed segments with restart markers parse to all blocks at the scan's stage and to the marker that follows, or are rejected: exactly when some DC difference exceeds 2^15 in magnitude. |
| ArithSegment.JumpLost | Source/MicroBuild-LibJpeg/Source/jdarith.c:554-563 | DC 16385 and then -16384, which fit in 16 bits, are rejected by the decoder, from any statistics and whatever the code. |
| ArithAreas.DecoderRestarts | Source/MicroBuild-LibJpeg/Source/jdarith.c:189-223 | Whatever the decoder made of a segment, its bins after the restart are as start_pass set them. |
| ArithAreas.ZeroedSpelled | Source/MicroBuild-LibJpeg/Source/jcarith.c:331-345 | A restart zeroes exactly the bins of the DC tables of the scan's components, unless it refines DC or codes AC only, and of their AC tables, if it goes beyond coefficient 0, and leaves all other bins. |
| ArithAreas.CodesAlone | Source/MicroBuild-LibJpeg/Source/jcarith.c:319-354 | The code written for each segment is one for the blocks of that segment alone: at a restart nothing of the earlier ones is left in the bins. |
| ArithMcuEncoding.EncodeBlock | Source/MicroBuild-LibJpeg/Source/jcarith.c:691-833 | A block through the encoder object adds exactly the block's decisions, which `ArithBins.BlockBinsAre` lists bin by bin, and leaves the predictions they lead to, in every mode. |
| ArithMcuDecoding.DecodeBlock | Source/MicroBuild-LibJpeg/Source/jdarith.c:511-635 | A block decoded in place is what the specification of the mode reads from the code of the block's decisions (`ArithScan.BlockParsed`, `ArithBins.BlockBinsAre`); a bad code is reported exactly when the specification fails, and a shortage only when the input ends before a marker. |
| ArithScanEncoding.ScanEncoder.FinishPass | Source/MicroBuild-LibJpeg/Source/jcarith.c:691-720 | After any MCUs, restarts included, what was written is the stuffed terminating codes of the segments, joined by restart markers in order modulo 8. |
| ArithScanDecoding.ScanDecoder.DecodeMcu | Source/MicroBuild-LibJpeg/Source/jdarith.c:511-635 | An MCU's blocks join the scan's; a restart is refused exactly for a wrong or missing marker, a shortage is reported only if the input ends before a marker, and a bad code exactly if the specification fails on the segment's code up to this MCU. After a bad code the MCUs up to the next restart marker are left as they are, and from there on decoding is as specified again. In a scan that decodes as a whole, none of these happens. |
| ArithRoundTrip.Transmit | Source/MicroBuild-LibJpeg/Source/jdarith.c:511-635 | A whole scan from the encoder object to the decoder object, any blocks, any restart interval: every MCU is decoded if and only if all DC differences are in the decoder's range, and then every block is the sent one as far as the scan covers it. In any case, from bins as start_pass sets them, so is every block of each segment whose differences are in range. |
| ArithScript.ScriptDecoded | Source/MicroBuild-LibJpeg/Source/jdarith.c:241-635 | In a script of arithmetic-coded scans, a scan is decoded exactly if its DC differences are in range, and while all are, every coefficient is, after each scan, the point transform of the original at the last stage the script sent it at. |
| ArithScript.SimpleDecoded | Source/MicroBuild-LibJpeg/Source/jcparam.c:597-673 | After the recommended script, arithmetic-coded, the whole image is the original, if its DC values are within 2^14. |
| HuffmanTree.AssignCodeSizes | Source/MicroBuild-LibJpeg/Source/jchuff.c:1253-1323 | For any counts, merging the chains in place gives every symbol its size in Huffman's procedure, the larger symbol taken on ties, if and only if neither of the last two counts merged is over 10^9; else the sizes when merging stops there. |
| HuffmanTree.SearchedAll | Source/MicroBuild-LibJpeg/Source/jchuff.c:1278-1303 | The sizes at which merging stops are Huffman's if and only if neither of the last two counts merged is over 10^9, beyond which the search does not look. |
| HuffmanTree.TooOftenLost | Source/MicroBuild-LibJpeg/Source/jchuff.c:1278-1303 | A symbol counted more than 10^9 times gets no code. |
| HuffmanWeights.HuffmanFull | Source/MicroBuild-LibJpeg/Source/jchuff.c:1253-1323 | The codes of Huffman's procedure take all words: Kraft sum one. |
| HuffmanShortest.NoShorterCode | Source/MicroBuild-LibJpeg/Source/jchuff.c:1253-1323 | No prefix code of the counted symbols, reserved one included, needs fewer bits for what was counted than Huffman's sizes. |
| HuffmanShortest.HuffmanAttained | Source/MicroBuild-LibJpeg/Source/jchuff.c:1253-1323 | There is a prefix code with exactly these sizes. |
| HuffmanOrder.RarerLonger | Source/MicroBuild-LibJpeg/Source/jchuff.c:1278-1323 | Of two counted symbols the one counted less often, or on a tie the larger one, never has the shorter code. |
| HuffmanOrder.ReservedLongest | Source/MicroBuild-LibJpeg/Source/jchuff.c:1270-1275 | No code is longer than that of the reserved symbol 256. |
| HuffmanLengths.LongNeedsMany | Source/MicroBuild-LibJpeg/Source/jchuff.c:1324-1335 | A symbol with a code of h bits takes a total of at least Fib(h + 2) counts. |
| HuffmanLengths.FewFit | Source/MicroBuild-LibJpeg/Source/jchuff.c:1324-1335 | With fewer than 9227464 counts no code is longer than 32 bits, whatever the counts. |
| HuffmanLengths.OverflowReached | Source/MicroBuild-LibJpeg/Source/jchuff.c:1324-1335 | 9227464 counts of 33 symbols for which a code is longer than 32 bits: the bound cannot be raised, and the overflow can happen. |
| HuffmanOptimal.LimitLengths | Source/MicroBuild-LibJpeg/Source/jchuff.c:1338-1358 | The loop ends with the counts of `Limited`: from length 32 down to 17, while there are two codes of the length i, one step that takes from the greatest length in use up to i - 2 (`HuffmanOptimal.LimitStep`). Without codes above 16 bits it changes nothing, whatever the counts; from a complete code it leaves as many codes and the full Kraft sum, and none above 16 bits. |
| HuffmanOptimal.LimitStep | Source/MicroBuild-LibJpeg/Source/jchuff.c:1350-1356 | A step of it takes two codes from length i and one from length j, adds one to length i - 1 and two to length j + 1, and leaves all other counts as they are. |
| HuffmanOptimal.GenOptimalTable | Source/MicroBuild-LibJpeg/Source/jchuff.c:1253-1386 | For all counts that the search reaches: an overflow is reported exactly when some size in Huffman's procedure exceeds 32; the search for the longest length leaves the array exactly when no symbol or 255 symbols of eight bits each are counted; the table is empty exactly when one symbol has one bit and 256 codes have nine; else it is a legal table for exactly the counted symbols, in the order of their unlimited code sizes and, within one size, of the symbols, whose numbers of codes of each length are those of Huffman's procedure after `Limited`, less one code of the greatest length. |
| HuffmanTableCost.TableLengths | Source/MicroBuild-LibJpeg/Source/jchuff.c:1253-1386 | If no size in Huffman's procedure exceeds 16, the code of every counted symbol in the table has exactly its size there. |
| HuffmanTableCost.TableShortest | Source/MicroBuild-LibJpeg/Source/jchuff.c:1253-1386 | Then the bits of everything counted, with the reserved code added, are no more than any prefix code of these symbols takes. |
| HuffmanOptimal.WrapsWhen | Source/MicroBuild-LibJpeg/Source/jchuff.c:1324-1358 | For all counts, some byte count of code lengths wraps around if and only if all 256 codes, reserved one included, have eight bits, or one has one bit and 256 have nine. |
| HuffmanLengths.OnesLost | Source/MicroBuild-LibJpeg/Source/jchuff.c:1324-1358 | 255 symbols counted once each: all their codes have eight bits. |
| HuffmanTables.MakeCDerived | Source/MicroBuild-LibJpeg/Source/jchuff.c:160-260 | A table is accepted if and only if it is legal; then the derived code and size of every symbol are those of the canonical code, and other symbols have none. |
| HuffmanCode.PrefixFree | Source/MicroBuild-LibJpeg/Source/jchuff.c:203-222 | In a table with room at each length no code is a prefix of another. |
| HuffmanCode.NotAllOnes | Source/MicroBuild-LibJpeg/Source/jchuff.c:203-222 | In such a table no code is all ones. |
| HuffmanCode.CodesFollow | Source/MicroBuild-LibJpeg/Source/jchuff.c:203-222 | The first code is zeros, and every other one is the code before it plus one, with a zero bit appended for each bit by which it is longer. |
| HuffmanTables.MakeDDerived | Source/MicroBuild-LibJpeg/Source/jdhuff.c:322-457 | A table is accepted exactly when its codes fit (for DC with symbols of at most 15), which every table the encoder accepts does; then limits, offsets and lookahead entries are those of the canonical code. |
| HuffmanReader.BitReader.HuffDecode | Source/MicroBuild-LibJpeg/Source/jdhuff.c:168-188 | On any bits, lookahead, a miss and the bit-serial way near the end of the segment all give the canonical code's symbol and length; when more input is needed the reader says so and can go back. |
| HuffmanReader.BitReader.FillBitBuffer | Source/MicroBuild-LibJpeg/Source/jdhuff.c:464-562 | The buffer holds the next bits of the segment, zeros after its end; zeros are made up only if more bits are demanded than the segment has, and a suspension changes nothing. |
| HuffmanWriter.BitWriter.EmitBits | Source/MicroBuild-LibJpeg/Source/jchuff.c:306-346 | Exactly the low `size` bits of the code are appended to the bits written so far, at most seven of them held back. |
| HuffmanSpelled.UnpackAt | Source/MicroBuild-LibJpeg/Source/jchuff.c:306-346 | Bit k of a segment is bit 7 - k % 8 of its byte k / 8. |
| HuffmanSpelled.ExtraSpelled | Source/MicroBuild-LibJpeg/Source/jchuff.c:913-1005 | The bits that follow the symbol of a value of n bits are the n low bits of its magnitude, high bit first, each of them complemented for a negative value: the number sent is x, or x + 2^n - 1. |
| HuffmanSpelled.ExtendSpelled | Source/MicroBuild-LibJpeg/Source/jdhuff.c:564-590 | From n bits the decoder gets the one value that has these bits: r, or r + 1 - 2^n for r below 2^(n - 1), which is when the first bit is 0. |
| HuffmanSpelled.DcDiffSpelled | Source/MicroBuild-LibJpeg/Source/jdhuff.c:1229-1250 | On any bits the DC difference is 0 after symbol 0 and else the value that has the bits after its symbol. |
| HuffmanSpelled.AcSpelled | Source/MicroBuild-LibJpeg/Source/jdhuff.c:1252-1290 | On any bits an AC symbol 16r + n stores the value that has the next n bits after r zeros; 0xF0 passes sixteen zeros; any other symbol 16r ends the block. |
| HuffmanSpelled.NewSpelled | Source/MicroBuild-LibJpeg/Source/jdhuff.c:815-831 | In progressive scans such a value is stored times 2^al; in a refinement it is 2^al or -2^al by its one bit. |
| HuffmanSpelled.RunSpelled | Source/MicroBuild-LibJpeg/Source/jdhuff.c:833-845 | A symbol 16r with r < 15 begins a run of 2^r blocks and as many more as the next r bits say. |
| HuffmanSpelled.BlockBitsAre | Source/MicroBuild-LibJpeg/Source/jchuff.c:913-1005 | A sequential block as bits: code of the number of bits of the DC difference and these bits; for each nonzero coefficient 0xF0 for every sixteen zeros before it, the code of 16 times the zeros left plus its number of bits, and these bits; code 0 if zeros end the block. |
| HuffmanSpelled.BandBitsAre | Source/MicroBuild-LibJpeg/Source/jchuff.c:463-907 | A band of a progressive scan as bits, first pass or refinement: when the run of finished bands is sent and with which symbol, every sixteen zeros with the correction bits passed, new values with their bits and correction bits, and the run at 32767 bands or 938 correction bits. |
| HuffmanSpelled.JobBitsAre | Source/MicroBuild-LibJpeg/Source/jchuff.c:545-907 | The bits of any block in any mode, from the coefficients: DC values shifted down, the bit al of a refined one, AC values shifted towards zero. |
| HuffmanSpelled.SegmentBitsAre | Source/MicroBuild-LibJpeg/Source/jchuff.c:495-540 | The bits of a whole segment are those of its blocks one after the other, from DC predictions 0 and no run, and the run left at the end. |
| HuffmanSpelled.JobInRangeIs | Source/MicroBuild-LibJpeg/Source/jchuff.c:928-1000 | The encoder refuses exactly DC differences above 2047 and AC coefficients above 1023 in magnitude. |
| ProgressiveEncoding.AcEncoder.EncodeRefine | Source/MicroBuild-LibJpeg/Source/jchuff.c:782-907 | A refined band sends exactly the tokens of the specification, or is refused exactly when one has no code; the pending correction bits are the first ones in the buffer, which never overflows. |
| ProgressiveRuns.UnitsParsed | Source/MicroBuild-LibJpeg/Source/jchuff.c:463-487 | Blocks of an AC segment come back although the symbol of an end-of-band run, and its correction bits, are sent only after the run's last block. |
| HuffmanRoundTrip.ScanParsed | Source/MicroBuild-LibJpeg/Source/jdhuff.c:707-1062 | In every mode, written segments with restart markers parse to every covered coefficient at the scan's stage, end at the marker that follows, and never need bits beyond their end. |
| ProgressiveMcuDecoding.SameFromTouched | Source/MicroBuild-LibJpeg/Source/jdhuff.c:913-1062 | From a block that suspended attempts have touched, with newly nonzero coefficients zeroed again, an AC scan decodes the same block, run and position as from the untouched one, on any bits. |
| ProgressiveMcuDecoding.DecodeRefine | Source/MicroBuild-LibJpeg/Source/jdhuff.c:913-1062 | A refinement attempt gives the specified block, run and position, or, when the input runs out, a block that only differs where `SameFromTouched` allows. |
| HuffmanScanDecoding.ScanDecoder.DecodeMcu | Source/MicroBuild-LibJpeg/Source/jdhuff.c:651-1314 | In every mode, and in sequential mode for blocks of every size, an MCU is decoded as undisturbed decoding would have, value by value as the lemmas of `HuffmanSpelled` say, or suspended with everything as before; a wrong restart marker is reported only if it is one, and an MCU is left blank only after the blocks before it needed more bits than the segment has; in a scan that has all it needs, neither happens. |
| HuffmanTransmission.Transmit | Source/MicroBuild-LibJpeg/Source/jdhuff.c:1198-1314 | A whole scan from the encoder object to the decoder object, in any mode, with input arriving in pieces of any size: unless the encoder refuses a value or a token without a code, every MCU is decoded, none is blank, and each block is the sent one as far as the scan covers it. |
| HuffmanScanEncoding.ScanEncoder.FinishPass | Source/MicroBuild-LibJpeg/Source/jchuff.c:1069-1108 | After any MCUs, an output pass has written the segments of the specification with restart markers; a statistics pass has counted exactly the symbols of their tokens. |
| HuffmanStats.HtestOneBlock | Source/MicroBuild-LibJpeg/Source/jchuff.c:1118-1184 | The counters grow by exactly the occurrences of each symbol among the tokens the output pass sends for the block. |
| HuffmanGather.GatheredAccepted | Source/MicroBuild-LibJpeg/Source/jchuff.c:1193-1241 | With tables generated from the counts of a scan, every segment of the same scan has a code for each of its tokens, end-of-band runs included. |
| HuffmanGather.NeverRefused | Source/MicroBuild-LibJpeg/Source/jchuff.c:1012-1062 | If everything in the segments can be taken in, by a statistics or an output pass, no MCU on the way is refused. |
| HuffmanGenerating.FewSymbols | Source/MicroBuild-LibJpeg/Source/jchuff.c:912-1005 | In any scan at most 254 different symbols are counted for a table, and for DC none above 15. |
| HuffmanGenerating.GenerateTables | Source/MicroBuild-LibJpeg/Source/jchuff.c:1393-1438 | A table for each table number the components use, each generated once although generation destroys the counts; failure exactly when for the counts of one of them some size in Huffman's procedure exceeds 32. |
| HuffmanGenerating.FinishPassGather | Source/MicroBuild-LibJpeg/Source/jchuff.c:1393-1438 | After a statistics pass over any MCUs in which every component has blocks: the overflow is reported exactly when some size in Huffman's procedure for the counts exceeds 32, and never for fewer than 9227464 symbols; otherwise the derived tables were generated from exactly the counts, and with them every segment of the same MCUs is accepted. |
| HuffmanGenerating.FewTokensSearched | Source/MicroBuild-LibJpeg/Source/jchuff.c:1278-1303 | In scans of at most 10^9 symbols the search reaches the counts of every table. |
| HuffmanOptimized.TransmitOptimized | Source/MicroBuild-LibJpeg/Source/jchuff.c:1393-1438 | Statistics pass, table generation, output pass and decoder over the same MCUs: the statistics pass refuses exactly values out of range; unless some size in Huffman's procedure for the counts exceeds 32, which takes 9227464 symbols and is then reported, every block arrives as far as the scan covers it. |
| HuffmanMcuDecoding.McusSkippingSafe | Source/MicroBuild-LibJpeg/Source/jdhuff.c:1070-1303 | On any bits, for blocks of any size, with a limit for each block, nothing wanted of components that are not needed: decoding ends at the same bit as storing everything, and coefficients below the limits and predictions of the needed components are the same. |
| ProgressiveScript.ScriptDecoded | Source/MicroBuild-LibJpeg/Source/jdhuff.c:707-1062 | After each decoded scan of a legal script every coefficient is the point transform of the original at the last stage the script sent it at. |
| ProgressiveScript.SimpleDecoded | Source/MicroBuild-LibJpeg/Source/jcparam.c:597-673 | After the recommended script the whole image is the original. |
| ProgressiveFile.FileRead | Source/MicroBuild-LibJpeg/Source/jdmarker.c:1093-1247 | A file of SOI, frame header, a legal script's scans, each with its header and data, and EOI: the marker reader stops at each scan and at the end, with the tables each scan was coded with, all scans are decoded, and after each every coefficient is at the last stage sent. |
| ProgressiveFile.SimpleFileRead | Source/MicroBuild-LibJpeg/Source/jdmarker.c:1093-1247 | A file with the recommended script gives back the image. |
| ScanScript.ValidateScript | Source/MicroBuild-LibJpeg/Source/jcmaster.c:351-484 | A script is accepted if and only if it is legal: components, spectral bands, successive approximation in order and, for sequential ones, every component sent once. |
| ScanScript.ReduceScript | Source/MicroBuild-LibJpeg/Source/jcmaster.c:486-516 | Compaction in place leaves exactly the scans that have coefficients within the limit, with their bands cut to it, in order. |
| ScanScript.StartProgressive | Source/MicroBuild-LibJpeg/Source/jdhuff.c:1328-1372 | A scan's parameters are refused exactly if they break the rules, and a warning is given exactly if the scan is out of order with respect to those before it. |
| ScanScript.LegalWelcome | Source/MicroBuild-LibJpeg/Source/jcmaster.c:486-516 | Every legal progressive script, reduced to any limit, is legal, and the decoder refuses none of its scans and warns about none. |
| SimpleProgression.SimpleProgression | Source/MicroBuild-LibJpeg/Source/jcparam.c:597-673 | Exactly the space figured for the script is filled, with exactly the recommended scans. |
| SimpleProgression.SimpleLegal | Source/MicroBuild-LibJpeg/Source/jcparam.c:597-673 | The recommended script is legal for any number of components and sends every coefficient of every component down to its last bit. |
| PassMachine.Master.Compress | Source/MicroBuild-LibJpeg/Source/jcapimin.c:154-189 | The loop of passes ends after total_passes of them, with exactly the expected sequence of statistics passes, headers and output passes, with or without a main pass. |
| PassMachine.EachOnce | Source/MicroBuild-LibJpeg/Source/jcmaster.c:659-793 | Each scan is output exactly once, in order. |
| PassMachine.OneFrameHeader | Source/MicroBuild-LibJpeg/Source/jcmaster.c:659-793 | The frame header is written exactly once, first or right after the first statistics pass. |
| PassMachine.GatherBefore | Source/MicroBuild-LibJpeg/Source/jcmaster.c:659-793 | A scan has a statistics pass exactly if tables are optimized and it uses some, or is the first and taken in during that pass; and then right before its headers. |
| CoefControllers.CoefController.CompressData | Source/MicroBuild-LibJpeg/Source/jccoefct.c:143-240 | With MCUs taken in any number per call, what was sent is always a prefix of the scan's MCUs in raster order, dummy blocks included, and no MCU is sent twice. |
| CoefControllers.CoefController.CompressFirstPass | Source/MicroBuild-LibJpeg/Source/jccoefct.c:248-343 | The same while the rows are also buffered with their dummy blocks. |
| CoefControllers.CoefController.CompressOutput | Source/MicroBuild-LibJpeg/Source/jccoefct.c:345-405 | The same for a later scan out of the buffered rows. |
| CoefControllers.TransCoefController.CompressOutput | Source/MicroBuild-LibJpeg/Source/jctrans.c:274-353 | The same in transcoding, with dummy blocks made on the fly. |
| CoefControllers.AllSent | Source/MicroBuild-LibJpeg/Source/jccoefct.c:143-405 | At the end of any of them the whole sequence of the scan's MCUs has been sent: the same for all controllers. |
| CoefControllers.OnePass | Source/MicroBuild-LibJpeg/Source/jccoefct.c:143-240 | A whole scan in one pass sends exactly the scan's MCUs, however many are taken per call. |
| CoefControllers.FirstPass | Source/MicroBuild-LibJpeg/Source/jccoefct.c:248-343 | So does the scan that takes in the data, and all rows end up in the buffers. |
| CoefControllers.LaterPass | Source/MicroBuild-LibJpeg/Source/jccoefct.c:345-405 | So does any later scan out of the buffers. |
| CoefControllers.Transcode | Source/MicroBuild-LibJpeg/Source/jctrans.c:274-353 | So does a scan in transcoding. |
| McuRaster.SingleRaster | Source/MicroBuild-LibJpeg/Source/jcmaster.c:575-600 | The MCUs of a scan of one component are its blocks row by row, each once, and no dummy blocks. |
| McuRaster.InterleavedRaster | Source/MicroBuild-LibJpeg/Source/jcmaster.c:603-645 | The MCUs of an interleaved scan are as many as cover the image, in raster order. |
| McuRaster.InterleavedMcu | Source/MicroBuild-LibJpeg/Source/jcmaster.c:603-645 | MCU m, k of it has, component after component and row by row, the h times v blocks from block row mv and column kh on, and no others. |
| McuRaster.PadSpelled | Source/MicroBuild-LibJpeg/Source/jccoefct.c:143-240 | A block of the image is itself; one to the right of it has the DC value of the last block of its row, one below that of the last block of the MCU's last real row, and no other coefficients. |
| CompressPrep.PrepController.PreProcessContext | Source/MicroBuild-LibJpeg/Source/jcprepct.c:196-261 | However the input rows and the output room are split over calls, every row group handed to the downsampler so far came once, in order, with the row groups above and below it, rows repeated at the image's edges. |
| DecompressMain.MakeFunnyPointers | Source/MicroBuild-LibJpeg/Source/jdmainct.c:195-235 | One pointer list shows the workspace's rows in order, with the first row repeated above them, the other shows its last four row groups in swapped pairs. |
| DecompressController.GroupsReal | Source/MicroBuild-LibJpeg/Source/jdmaster.c:113-151 | However a component is sampled, its real rows make the same number of row groups, and the last iMCU row holds the same number of them. |
| DecompressController.MainController.ProcessDataContextMain | Source/MicroBuild-LibJpeg/Source/jdmainct.c:385-448 | However calls and output are split, every row group handed over so far came once, in order and between its neighbours, rows repeated at the edges, except below the row group before the last iMCU row. |
| DecompressController.Decompress | Source/MicroBuild-LibJpeg/Source/jdmainct.c:385-448 | Over a whole image all real row groups are handed over, once each. |
| DecompressController.ClampedWhen | Source/MicroBuild-LibJpeg/Source/jdmainct.c:385-448 | The rows below the last real row always repeat it if and only if there is one iMCU row or the last one holds at least a full row group of real rows. |
| DecompressController.PaddingShows | Source/MicroBuild-LibJpeg/Source/jdmainct.c:385-448 | A frame with a subsampled component, decompressed by the controller, in which a padding row is shown below the last real row instead of a repetition. |
| MarkerRoundTrip.DqtRead | Source/MicroBuild-LibJpeg/Source/jdmarker.c:531-617 | A written DQT segment, of any precision and number of coefficients, restores the table at every coefficient of the blocks and leaves other tables alone. |
| MarkerRoundTrip.DhtRead | Source/MicroBuild-LibJpeg/Source/jdmarker.c:458-527 | A written DHT segment restores the table and leaves the others alone. |
| MarkerRoundTrip.DacRead | Source/MicroBuild-LibJpeg/Source/jdmarker.c:412-454 | A written DAC segment restores the conditioning values of the tables in use and leaves the others alone. |
| MarkerRoundTrip.DriRead | Source/MicroBuild-LibJpeg/Source/jdmarker.c:621-640 | A written DRI segment restores the restart interval. |
| MarkerRoundTrip.LseRead | Source/MicroBuild-LibJpeg/Source/jdmarker.c:646-705 | A written LSE segment restores the color transform. |
| MarkerRoundTrip.SofRead | Source/MicroBuild-LibJpeg/Source/jdmarker.c:239-318 | A written SOF segment of a frame with distinct component ids restores the frame. |
| MarkerRoundTrip.SosRead | Source/MicroBuild-LibJpeg/Source/jdmarker.c:321-409 | A written SOS segment restores the components, the band, the approximation and the numbers of the tables the scan uses. |
| MarkerRoundTrip.SofAccepts | Source/MicroBuild-LibJpeg/Source/jdmarker.c:239-318 | On any input, the ids of an accepted frame are pairwise distinct and its dimensions positive. |
| MarkerRoundTrip.SosAccepts | Source/MicroBuild-LibJpeg/Source/jdmarker.c:321-409 | On any input, the components of an accepted scan exist and are pairwise distinct, four at most. |
| MarkerBytes.DqtSpelled | Source/MicroBuild-LibJpeg/Source/jcmarker.c:145-183 | FF DB, the length, 16 Pq + Tq, and the values in zigzag order, in two bytes each if some value exceeds 255. |
| MarkerBytes.DhtSpelled | Source/MicroBuild-LibJpeg/Source/jcmarker.c:186-221 | FF C4, the length, 16 Tc + Th, the numbers of codes of lengths 1 to 16, and the symbols. |
| MarkerBytes.DacSpelled | Source/MicroBuild-LibJpeg/Source/jcmarker.c:224-270 | FF CC, the length, and of exactly the tables the scan uses, in order, the number (AC tables from 16 on) and L + 16 U or Kx; nothing if it uses none. |
| MarkerBytes.DriSpelled | Source/MicroBuild-LibJpeg/Source/jcmarker.c:273-282 | FF DD 00 04 and the interval. |
| MarkerBytes.LseSpelled | Source/MicroBuild-LibJpeg/Source/jcmarker.c:285-313 | The 26 bytes of the color transform, with the identifiers of the second, first and third component. |
| MarkerBytes.SofSpelled | Source/MicroBuild-LibJpeg/Source/jcmarker.c:316-344 | The marker, the length, precision, height, width, number of components, and for each its identifier, 16 h + v and Tq. |
| MarkerBytes.SofCodeSpelled | Source/MicroBuild-LibJpeg/Source/jcmarker.c:560-595 | The marker is C9 or CA with arithmetic coding, C2 for progressive Huffman coding, else C0 if and only if samples and written quantization values have eight bits, blocks are 8x8, and all table numbers are below 2, else C1. |
| MarkerBytes.SosSpelled | Source/MicroBuild-LibJpeg/Source/jcmarker.c:347-379 | FF DA, the length, the number of components, for each its identifier and 16 Td + Ta with 0 for tables the scan does not use, Ss, Se and 16 Ah + Al. |
| MarkerBytes.PseudoSpelled | Source/MicroBuild-LibJpeg/Source/jcmarker.c:382-395 | FF DA 00 06 00 00, the number of coefficients less one, 00. |
| MarkerHeaderBytes.FrameHeaderSpelled | Source/MicroBuild-LibJpeg/Source/jcmarker.c:544-605 | For all settings and tables the frame header byte by byte: each quantization table not sent before where its first component has its turn, at the place that the sizes before it add up to, then SOF, the color transform and the block size if they are called for, and no other byte. |
| MarkerHeaderBytes.HuffmanHeaderSpelled | Source/MicroBuild-LibJpeg/Source/jcmarker.c:612-650 | For all settings and tables the scan header with Huffman coding byte by byte: each table the scan uses that was not sent before, where its first component has its turn, DRI if the interval has changed, SOS, and no other byte. |
| MarkerHeaderBytes.ArithHeaderSpelled | Source/MicroBuild-LibJpeg/Source/jcmarker.c:612-650 | The same with arithmetic coding: one DAC segment of exactly the tables the scan uses. |
| MarkerBytesRead.DqtTaken | Source/MicroBuild-LibJpeg/Source/jdmarker.c:531-617 | On the bytes of a DQT segment of up to 64 values the reader changes that table to them, in the order for so many coefficients and with 1 at all other places, and nothing else. |
| MarkerBytesRead.DqtMore | Source/MicroBuild-LibJpeg/Source/jdmarker.c:531-617 | More tables may follow in the segment. |
| MarkerBytesRead.DhtTaken | Source/MicroBuild-LibJpeg/Source/jdmarker.c:458-527 | On the bytes of a DHT segment the reader changes that table to the counts and symbols, zeros after them, and nothing else. |
| MarkerBytesRead.DhtMore | Source/MicroBuild-LibJpeg/Source/jdmarker.c:458-527 | More tables may follow in the segment. |
| MarkerBytesRead.DacTaken | Source/MicroBuild-LibJpeg/Source/jdmarker.c:412-454 | On the bytes of a DAC segment the reader changes L and U, or Kx, of exactly the tables in it. |
| MarkerBytesRead.DriTaken | Source/MicroBuild-LibJpeg/Source/jdmarker.c:621-640 | On the bytes of a DRI segment the reader changes the interval and nothing else. |
| MarkerBytesRead.LseTaken | Source/MicroBuild-LibJpeg/Source/jdmarker.c:645-705 | On the 26 bytes of the color transform the reader sets it and nothing else. |
| MarkerBytesRead.SofTaken | Source/MicroBuild-LibJpeg/Source/jdmarker.c:239-318 | On the bytes of a frame header under C0, C1, C2, C9 or CA the reader takes the frame, whether it is baseline, progressive and arithmetic-coded, and nothing else. |
| MarkerBytesRead.SosTaken | Source/MicroBuild-LibJpeg/Source/jdmarker.c:321-409 | On the bytes of a scan header the reader takes the components by their identifiers, their table numbers, the parameters, counts the scan, stops, and changes nothing else. |
| MarkerBytesRead.PseudoTaken | Source/MicroBuild-LibJpeg/Source/jdmarker.c:321-409 | In a progressive frame a scan without components gives the last coefficient and is not counted. |
| MarkerBytesRead.SoiTaken | Source/MicroBuild-LibJpeg/Source/jdmarker.c:198-235 | The start of the image sets the interval to 0, L to 0, U to 1 and Kx to 5 in all tables, and the color transform to none. |
| MarkerBytesRead.OtherMarkers | Source/MicroBuild-LibJpeg/Source/jdmarker.c:1113-1247 | Restart markers and TEM are passed over, APPn, COM and DNL are for other routines, all other markers are refused. |
| MarkerBytesRead.TablesRefused | Source/MicroBuild-LibJpeg/Source/jdmarker.c:412-640 | Quantization tables from 4 on, conditioning tables from 32 on, L above U, and intervals in a segment of another length than 4 are refused. |
| MarkerBytesRead.HeadersRefused | Source/MicroBuild-LibJpeg/Source/jdmarker.c:239-409 | A frame header is refused if it is the second, has no rows, columns or components, or the wrong length; a scan header before a frame, of the wrong length, of more than four components, or of none in a sequential frame. |
| MarkerBytesRead.UnknownRefused | Source/MicroBuild-LibJpeg/Source/jdmarker.c:321-409 | So is a scan header with an identifier that no component has. |
| MarkerWriting.MarkerWriter.WriteFrameHeader | Source/MicroBuild-LibJpeg/Source/jcmarker.c:544-605 | The bytes appended are those of `FrameHeader`, which `MarkerHeaderBytes.FrameHeaderSpelled` gives one by one: the quantization tables not sent before, the SOF marker the settings call for, the color transform if there is one, and the pseudo SOS marker of other block sizes; each length, figured beforehand by the code's own formula, is the number of bytes that follow; an error exactly for a missing table, a dimension above 65535 or a transform that is not supported. |
| MarkerWriting.MarkerWriter.WriteScanHeader | Source/MicroBuild-LibJpeg/Source/jcmarker.c:612-650 | The bytes appended are those of `ScanHeader`, which `MarkerHeaderBytes.HuffmanHeaderSpelled` and `ArithHeaderSpelled` give one by one: DAC or the Huffman tables not sent before, DRI if the interval has changed, and SOS; an error exactly for a missing table. |
| MarkerReading.MarkerReader.ReadMarkers | Source/MicroBuild-LibJpeg/Source/jdmarker.c:1093-1247 | The reader stops where, and knows what, the specification over the whole input says, which the lemmas of `MarkerBytesRead` give for the bytes of each segment; out of input, it has kept what it has read, so that more input and another call lead to the same end. |
| MarkerReading.ReadInPieces | Source/MicroBuild-LibJpeg/Source/jdmarker.c:1093-1247 | However the input arrives, calls repeated until all of it is there end as the specification over the whole input says. |
| MarkerHeaders.HeadersRead | Source/MicroBuild-LibJpeg/Source/jdmarker.c:1093-1247 | Reading what write_frame_header and write_scan_header wrote restores the scan, the restart interval, the color transform and every quantization table, and for each component of the scan the tables or conditioning it uses, although tables known from before are not sent again. |

## Findings
- DC differences in the arithmetic coder (jcarith.c:361-440 and 691-740, jdarith.c:283 and 558):
  the encoder codes any difference of 16-bit DC values, the decoder rejects magnitudes above
  2^15. `ArithRoundTrip.Transmit` shows that this is the only way a block is lost, and that the
  loss ends at the next restart marker; `ArithSegment.JumpLost` gives two blocks that are lost.
  Samples of 8 bits never lead to such differences; coefficients given for transcoding can.
- Code lengths over 32 (jchuff.c:1329-1332): the comment says that the standard seems to think
  that this cannot happen. It can, from 9227464 counted symbols on
  (`HuffmanLengths.OverflowReached`), and not with fewer (`HuffmanLengths.FewFit`).
- 255 or 256 symbols for one Huffman table (jchuff.c:1334 and 1346-1362): the counts of code
  lengths are bytes and wrap at 256. `HuffmanOptimal.WrapsWhen` gives the two kinds of codes for
  which they do, `HuffmanOptimal.GenOptimalTable` what becomes of the table: none of the symbols
  has a code, or the search for the longest length goes on below the array's first element. The
  statistics of a scan never have more than 254 symbols (`HuffmanGenerating.FewSymbols`).
- Counts over 10^9 (jchuff.c:1278-1303): the search for the smallest counts does not see them.
  `HuffmanTree.SearchedAll` gives the exact condition under which the sizes are Huffman's,
  `HuffmanTree.TooOftenLost` what becomes of a symbol counted more often.
- Rows below the image (jdmainct.c:385-448): the row group before the last iMCU row is handed
  over before set_bottom_pointers repeats the last real row, so if the last iMCU row has less
  than one row group of real rows of a component, what is shown below them are the padding rows
  that were delivered. `DecompressController.ClampedWhen` gives the exact condition,
  `DecompressController.PaddingShows` an image. In this release jdsample.c (line 308) only ever
  sets need_context_rows to FALSE, so that no caller of jdmainct.c gets into this mode.

## Left out
- HuffmanOptimal.GenOptimalTable: what the table is like when merging stops at counts over 10^9; the sizes it is made from are those of `HuffmanTree.AssignCodeSizes`.
- HuffmanGenerating.FinishPassGather: only for scans whose counts the search reaches, as it does for at most 10^9 symbols; `long` is unbounded.
- HuffmanScanDecoding.ScanDecoder.DecodeMcu: in sequential mode with all coefficients wanted; that limits make no difference to the wanted ones is `McusSkippingSafe`.
- HuffmanScanDecoding.ScanDecoder.DecodeMcu: a blank MCU counts as one without blocks; what its arrays held is what they hold.
- ArithScanDecoding.ScanDecoder.DecodeMcu: of an MCU with a bad code, which coefficients were stored before it was met is not said.
- HuffmanRoundTrip.ScanParsed: tables are those both sides have; that they arrive is `ProgressiveFile.FileRead`.
- ProgressiveFile.FileRead: progressive files with Huffman coding; where the blocks of a scan are in the image is a function of the frame and the scan, the same on both sides; there are no APPn or COM segments in the file.
- PassMachine.Master.Compress: sees of a scan only what decides about passes; the data of a pass is that of the controllers.
- CoefControllers.CoefController.CompressData: the blocks of the forward DCT are given for every position; the transform itself is not modelled.
- CompressPrep.PrepController.PreProcessContext: one `Row` stands for a row of all components; color conversion and downsampling are not modelled.
- DecompressController.MainController.ProcessDataContextMain: decompress_data and the upsampler are given by what they deliver and take; the mode without context rows is not modelled.
- MarkerReading.MarkerReader.ReadMarkers: APPn, COM and DNL segments stop the model (`Elsewhere`); a marker's parameters take effect when all of them are there, where the code keeps partial results that the next attempt overwrites.
- MarkerWriting.MarkerWriter.WriteScanHeader: APPn and COM segments are not written.
- Suspension of the destination (emit_byte in jcarith.c, dump_buffer in jchuff.c): the destination always takes bytes.
- jpeg_resync_to_restart: a wrong restart marker ends decoding of the scan.
- jutils.c: natural orders are any injective maps that begin with 0.
- jcmaster.c: initial_setup, per_scan_setup and the dimensions they derive are parameters; validate_script tells acceptance and refusal, not which message is given.
- Sequential scans with unusual parameters: the decoder's warning about them is not modelled.
- jdmaster.c: of the dimension arithmetic only the ceilings that jdmainct.c relies on.
- Color quantization, merged upsampling, memory management, progress monitors, and the programs around the library.
