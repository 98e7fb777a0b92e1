# JPEG coding and lockstep simulation, verified

A Dafny model of two parts of this repository, and of three small kernels, with proofs of what they are for.

The Independent JPEG Group's library, release 6a: sequential Huffman coding and decoding (ITU-T T.81, sections F.1.2 and F.2.2), byte stuffing, restarts, suspension and resumption, optimal code tables (T.81, section K.2), progressive coding of AC coefficients (T.81, sections G.1.2.2 and G.1.2.3), the controllers that cut an image into MCUs, scan scripts, and the context-row buffer of the decompressor. The central results are round trips: what is coded comes back unchanged, for every input the library accepts.

The simulator: a functional RV32I core and replica cores on one memory with write buffers. The central results are refinements: every core sees a private flat memory, the lockstep loop keeps the cores on the memory a single core would have, and runs of the functional core are runs of RV32I as chapter 2 of the RISC-V Unprivileged ISA defines it.

The kernels: FIFO shortest paths, Boyer-Moore-Horspool search, and the bit-by-bit square root.

Objects that the C and C++ code updates in place are classes here, loops are loops, and each method is proved against a specification stated on values; the lemmas say what the specifications amount to. Input, output and calls into other code are parameters: a destination's answers, the refusals of other entropy coders than the sequential one, the pieces in which data arrive, the scheduler of the postprocessor, the replica's cycles and the effects of system calls are arbitrary functions over which the theorems quantify.

`dafny verify dfyconfig.toml` checks the project (Dafny 4.11).

## Modules

| part | modules |
|---|---|
| Bits and bytes | Bits, ByteStuffing, BitBuffer, BitReader |
| Huffman tables | HuffmanCodes, DerivedTables, CodeLengths, HuffmanOptimality, PseudoSymbol, HuffmanMerge, OptimalTable |
| Sequential coding | Zigzag, EntropySpec, SequentialCoding, Destination, HuffEncoder, HuffDecoder, RoundTrip, ScanRoundTrip, Suspension, EagerDestination, Statistics, OptimizedCoding, TwoPass |
| Progressive AC coding | EobRuns, AcBand, AcCoder, AcReading, AcDecoder, AcRoundTrip, AcScans, AcStreams |
| Image layout and controllers | JpegLimits, ImageLayout, McuLayout, EntropySinks, BlockControllers, ScanlineWriter, ImageRoundTrip, ScanScript, RowGroups, ContextRows |
| Simulator | WordBytes, CoreMemory, ByteMemory, PrivateMemory, Lockstep, RiscvIsa, RiscvDecoder, RetirementRecords, FunctionalCore, SingleExecution, DualExecution |
| Kernels | LabelCorrecting, PredecessorTree, ShortestPaths, Horspool, Usqrt |

## Model

| member | source | states |
|---|---|---|
| HuffmanCodes.PrefixFree | benchmark/source/jpeg/jpeg-6a/jchuff.c:196-219 | Two codewords of a table that meets Kraft's inequality which a bit stream shows at the same place are one and the same codeword: canonical codes are prefix-free. |
| HuffmanCodes.ReadSymbolIs | benchmark/source/jpeg/jpeg-6a/jchuff.c:196-219 | A stream that shows a codeword of a valid table has exactly one reading there: that codeword's symbol and its length. |
| DerivedTables.MakeCDerived | benchmark/source/jpeg/jpeg-6a/jchuff.c:179-233 | The coder's tables give every symbol that has a code the canonical codeword of ITU-T T.81 annex C (the last one, should a symbol be listed twice), and length zero to every other symbol. |
| DerivedTables.MakeDDerived | benchmark/source/jpeg/jpeg-6a/jdhuff.c:128-208 | For every valid table: mincode, maxcode and valptr describe the canonical codewords of each length, maxcode has its sentinel, and a lookahead entry is filled in exactly when a codeword of at most eight bits begins those eight bits. |
| HuffDecoder.LookupDecode | benchmark/source/jpeg/jpeg-6a/jdhuff.h:177-194 | The lookahead path either returns the one symbol and length that the table allows at this place of the stream, or proves that no codeword of eight bits or fewer is shown there. |
| HuffDecoder.SerialDecode | benchmark/source/jpeg/jpeg-6a/jdhuff.c:322-358 | The bit-serial path, entered at any length up to nine below which no codeword is shown, returns the same symbol and length; on garbage it stops at seventeen bits with symbol zero. |
| HuffDecoder.HuffDecode | benchmark/source/jpeg/jpeg-6a/jdhuff.h:177-197 | HUFF_DECODE as a whole, whichever path is taken, for every valid table, bit stream and fill level of the bit buffer; failure only if no marker has arrived to end the data. |
| RoundTrip.SymbolReads | benchmark/source/jpeg/jpeg-6a/jchuff.c:271-305 | Where the coder has put the codeword of a symbol, the decoder's tables read that symbol and exactly its bits. |
| BitBuffer.Shifted | benchmark/source/jpeg/jpeg-6a/jchuff.c:290-302 | Shifting a full byte out of the 32-bit accumulator keeps the remaining bits left-justified in the low 24, whatever is left in the top byte. |
| HuffEncoder.EmitBits | benchmark/source/jpeg/jpeg-6a/jchuff.c:271-305 | The packed and byte-stuffed stream grows by exactly the size low bits of the code; a size of zero is the missing-code error and nothing else is; a suspension means the destination refused with a part of those bytes sent. |
| ByteStuffing.Unpack | benchmark/source/jpeg/jpeg-6a/jchuff.c:290-302 | Packing with byte stuffing loses nothing: the data bits of the packed bytes are the whole bytes of the bit string, and stuffing neither makes nor hides a marker. |
| ByteStuffing.FlushedOnes | benchmark/source/jpeg/jpeg-6a/jchuff.c:308-316 | A flush sends the pending bits in one byte filled up with ones, stuffed if need be, and nothing if none are pending. |
| BitReader.FillBitBuffer | benchmark/source/jpeg/jpeg-6a/jdhuff.c:234-313 | Refilling never changes a bit still to be delivered, from unstuffed data or from the zeros supplied beyond a marker; it leaves the buffer short only at a marker and fails only if none has arrived when the source runs dry. |
| HuffEncoder.EncodeOneBlock | benchmark/source/jpeg/jpeg-6a/jchuff.c:322-404 | Sends the DC difference, runs, ZRL codes and end-of-block that T.81 F.1.2 prescribes, or reports exactly that a code is missing or that the destination refused. |
| EntropySpec.CategoryIs | benchmark/source/jpeg/jpeg-6a/jchuff.c:322-404 | The category of a value is the number of bits of its magnitude, and the bits that follow the symbol are those of the value, or of a negative value less one (T.81 F.1.2.1). |
| RoundTrip.BlockReads | benchmark/source/jpeg/jpeg-6a/jdhuff.c:437-550 | Decoding the items of any block with 16-bit coefficients, through ZRL and EOB and sign extension, gives back the block and its DC prediction and ends exactly behind its last bit. |
| RoundTrip.McuInStep | benchmark/source/jpeg/jpeg-6a/jdhuff.c:437-550 | The step of the scan proof, whatever is wanted of each component: a decoder in step with the coder reads the next MCU, with every block as far as it is wanted (its DC coefficient, its AC coefficients, zeros for the rest), and is in step again, restart due or not, with bits of other MCUs in its buffer. |
| SequentialCoding.RestartForgets | benchmark/source/jpeg/jpeg-6a/jchuff.c:412-435 | The bytes behind a restart marker, and the state they leave, do not depend on anything coded before it. |
| HuffDecoder.Decoder.DecodeMcu | benchmark/source/jpeg/jpeg-6a/jdhuff.c:437-550 | For any tables, wanted components or not: an MCU that is completed is read as T.81 F.2.2 says from whatever stream the data are the beginning of; it is completed once its data, and those behind a restart that is due, have arrived with the marker that ends them. When input runs out, reading goes on from the state left as from the one before: that state is the same unless a restart was due, which has been carried out if its marker had arrived, and otherwise has only skipped bytes before the marker. Lost synchronization means another marker than the one expected. |
| HuffDecoder.ReadRestartMarker | benchmark/source/jpeg/jpeg-6a/jdmarker.c:890-916 | Succeeds exactly past the next marker of the stream when it is the expected one; reports missing data exactly when no marker has arrived, and lost synchronization when it is another; either leaves the reader before the same marker. |
| ScanRoundTrip.CodeAndDecode | benchmark/source/jpeg/jpeg-6a/jchuff.c:412-513 | The bytes of a coded scan, exactly, followed by any marker, and decoded: of every block of a needed component the DC coefficient, and the AC coefficients if they are wanted, are those coded, and all other coefficients are zero, for any valid tables, component layout and restart interval. A scan is coded if and only if every symbol it needs has a code. |
| ScanRoundTrip.DecodeScan | benchmark/source/jpeg/jpeg-6a/libjpeg.doc:1559-1610 | Input suspension: in whatever pieces the bytes of a scan arrive, with decode_mcu called again after each, the MCUs fetched so far are the first of those sent, as far as they are wanted, restarts included, and all of them once the bytes have arrived. |
| HuffEncoder.Encoder.EncodeMcu | benchmark/source/jpeg/jpeg-6a/jchuff.c:437-486 | The exact new state and bytes of an MCU, and where the destination stands afterwards. With no code missing it is suspended exactly when feeding its bytes to the destination as it was meets a refusal. A suspension leaves the coder's state as it was, and in the stream exactly those bytes of the MCU that were in buffers taken: none if and only if the first answer is a refusal. |
| EagerDestination.SentTwice | benchmark/source/jpeg/jpeg-6a/jchuff.c:437-486 | A concrete MCU of bytes 1 and 2, one byte of room and a destination that takes it, refuses, and then has room: the stream is 1 after the suspension, and 1, 1, 2 in the end. |
| Destination.FeedMore | benchmark/source/jpeg/jpeg-6a/jchuff.c:247-258 | What a destination does with some bytes and then with more is what it does with all of them, and a refusal stays: room left, questions asked and bytes taken. |
| Suspension.EncodeScanSuspending | benchmark/source/jpeg/jpeg-6a/libjpeg.doc:1484-1560 | If every mid-MCU dump is refused and the application takes only committed bytes, then for any pattern of rooms the stream is byte for byte that of an uninterrupted run; the run fails only for a missing code or for want of room, and rooms larger than any MCU make one suspension per MCU enough. |
| HuffmanOptimality.MergeGains | benchmark/source/jpeg/jpeg-6a/jchuff.c:667-714 | Any code lengths that meet Kraft's inequality yield lengths for the problem with the two least frequent symbols merged that cost less by the two frequencies: why Huffman's greedy step is safe. |
| HuffmanMerge.MergeAll | benchmark/source/jpeg/jpeg-6a/jchuff.c:667-714 | The in-place merge over freq, codesize and others ends with lengths that fill the code space exactly (Kraft sum 1), for the symbols counted and no others; no lengths that meet Kraft's inequality cost less, and none is longer than that of the pseudo-symbol. |
| PseudoSymbol.StillLeading | benchmark/source/jpeg/jpeg-6a/jchuff.c:663-714 | Each merge, ties going to the larger symbol, keeps the pseudo-symbol as deep as any symbol of the young trees and of its own, and deeper than all others: it ends in the category of the longest codes. |
| OptimalTable.LimitLengths | benchmark/source/jpeg/jpeg-6a/jchuff.c:738-749 | Keeps the number of symbols and the Kraft sum, always finds its j, and ends where a chain of the adjustments of T.81 figure K.3 ends: each takes two of the longest codes, if they exceed sixteen bits, gives one the length before and hangs the other below a code of the longest shorter length in use. Nothing changes when no length exceeds sixteen. |
| OptimalTable.ShortenedUnique | benchmark/source/jpeg/jpeg-6a/jchuff.c:738-749 | There is only one such end: the adjustments determine the counts. |
| OptimalTable.DropPseudo | benchmark/source/jpeg/jpeg-6a/jchuff.c:751-755 | Removing the reserved code point takes one code of the longest length in use and leaves the Kraft sum below one. |
| OptimalTable.GenOptimalTable | benchmark/source/jpeg/jpeg-6a/jchuff.c:641-775 | Fails exactly when one of the optimal lengths it has found exceeds 32 bits. Otherwise the table has as many codes of each length as there are optimal lengths, shortened by the adjustments as far as they exceed sixteen bits, less one of the longest; it lists every counted symbol once in order of its length and has no code of all ones. If none exceeds sixteen, every symbol has a code of exactly its optimal length. |
| OptimizedCoding.Gather | benchmark/source/jpeg/jpeg-6a/jchuff.c:540-633 | The statistics pass counts every symbol of every table exactly as often as the output pass sends it, for the same MCUs and restart interval. |
| OptimizedCoding.FinishGather | benchmark/source/jpeg/jpeg-6a/jchuff.c:782-817 | Each table in use is made once, from its own counts and a best code for them, although components share tables, and tables not in use stay as they are; failure only for an overlong code. |
| TwoPass.OptimizeCodeDecode | benchmark/source/jpeg/jpeg-6a/jchuff.c:105-170 | Statistics, tables, coding and decoding together: unless a best code has a word longer than 32 bits, any run with DC differences of at most fifteen bits and at most 10^9 symbols to a table is coded with tables made from best codes for its own symbols, the bytes are those of the scan under these tables, and it comes back unchanged. |
| EobRuns.StepOk | benchmark/source/jpeg/jpeg-6a/jcphuff.c:322-343 | Between blocks an EOB run of zero holds no correction bits, the run stays below 0x7FFF, and the buffered bits stay within MAX_CORR_BITS - DCTSIZE2 + 1, whatever the blocks. |
| AcCoder.Coder.EmitEobrun | benchmark/source/jpeg/jpeg-6a/jcphuff.c:322-343 | Sends the run's symbol, its extra bits and the held correction bits, in that order, and empties both. |
| AcCoder.Coder.BlockRefine | benchmark/source/jpeg/jpeg-6a/jcphuff.c:613-734 | The new run, items sent and correction-bit buffer are exactly those of the block's contribution (T.81 G.1.2.3), with no store beyond bit_buffer and its first BE entries the pending bits in scan order. |
| AcCoder.Coder.EncodeMcu | benchmark/source/jpeg/jpeg-6a/jcphuff.c:462-734 | The invariants of the coder hold after any sequence of MCUs and restarts of a first or refinement scan: bounds of EOBRUN and BE, and every closed segment complete. |
| AcBand.PointIs | benchmark/source/jpeg/jpeg-6a/jcphuff.c:487-500 | The point transform takes a coefficient to the multiple of 2^Al next to it on the side of zero. |
| AcScans.NextBlock | benchmark/source/jpeg/jpeg-6a/jdphuff.c:345-607 | A decoder that has runs of ended bands still ahead reads the next block's share of the scan, brings the block to this scan's precision and stays on track. |
| AcReading.ReadAgain | benchmark/source/jpeg/jpeg-6a/jdphuff.c:463-607 | Corrections made in advance make no difference to a band read from its start: what becomes nonzero depends on what was, and a correction made twice is made once. |
| AcDecoder.DecodeRefine | benchmark/source/jpeg/jpeg-6a/jdphuff.c:463-607 | Reads one block of a refinement as T.81 G.1.2.3 says. When data run out in mid-block, the new coefficients are zero again and corrections stay, and decoding what is left behind from the same place gives the same block, position and run as decoding the original. |
| AcDecoder.DecodeFirst | benchmark/source/jpeg/jpeg-6a/jdphuff.c:345-416 | Reads one block of a first pass as T.81 G.1.2.2 says; a block given up keeps the coefficients stored so far, and decoding it again from the same place gives what decoding the original does. |
| AcStreams.OneScan | benchmark/source/jpeg/jpeg-6a/jcphuff.c:350-372 | A first or refinement scan of an AC band, coded to bytes with any restart interval and decoded from them as they arrive in any pieces, each block begun again where its data ran out: the blocks decoded have the precision of the scan and are otherwise untouched, and they are all the blocks if all the bytes arrive. It fails exactly if some symbol has no code. |
| AcStreams.SuccessiveApproximation | benchmark/source/jpeg/jpeg-6a/jdphuff.c:345-607 | A first pass and one-bit refinements down to Al = 0, each with its own tables and restart interval, deliver the coefficients of the band exactly. |
| Zigzag.JpegOrderReorders | benchmark/source/jpeg/jpeg-6a/jutils.c:53-64 | The first 64 entries of jpeg_natural_order, the zigzag of T.81 figure A.6, reach every coefficient once; the other sixteen repeat the last place. |
| Zigzag.ZigzagWalk | benchmark/source/jpeg/jpeg-6a/jutils.c:53-64 | The table is the zigzag of T.81 figure A.6: from each place to the next up and to the right on even antidiagonals, down and to the left on odd ones, and along the edge in between. |
| ImageLayout.NestedCeiling | benchmark/source/jpeg/jpeg-6a/jcmaster.c:92-117 | ceil(ceil(n h / (8 m)) / h) = ceil(n / (8 m)): MCU and block counts agree at every image size. |
| ImageLayout.InitialSetup | benchmark/source/jpeg/jpeg-6a/jcmaster.c:60-117 | Refuses exactly an empty image, more than 65500 rows or columns, no component or more than ten, or a sampling factor outside 1 to 4. Otherwise max_h and max_v are the largest factors, or 1, and each component is ceil(width h / (8 max_h)) blocks wide and ceil(height v / (8 max_v)) high. |
| ImageLayout.FullSize | benchmark/source/jpeg/jpeg-6a/jcmaster.c:92-117 | A component with the largest factor is ceil(width / 8) blocks wide, or ceil(height / 8) high. |
| ImageLayout.PerScanSetup | benchmark/source/jpeg/jpeg-6a/jcmaster.c:296-377 | A scan setup is refused exactly for too many components or blocks; otherwise the MCUs cover each component's blocks, the last column and row partly, and a restart interval given in rows is that many rows of MCUs, or 65535 if they are more. |
| McuLayout.BlockHasPlace | benchmark/source/jpeg/jpeg-6a/jccoefct.c:142-217 | Every real block has a place in the MCU sequence, and holds the image's own coefficients there. |
| McuLayout.OnlyPlace | benchmark/source/jpeg/jpeg-6a/jccoefct.c:142-217 | No block has two places: with BlockHasPlace, each real block is fed exactly once. |
| McuLayout.DummyIsBare | benchmark/source/jpeg/jpeg-6a/jccoefct.c:176-207 | A dummy block has no AC coefficients, and its DC coefficient is that of the last block of its row, or below the image that of the last block its group has in the last row. |
| BlockControllers.SinglePassScan | benchmark/source/jpeg/jpeg-6a/jccoefct.c:142-217 | Whatever MCUs the entropy coder refuses and however often, single-pass compress_data feeds it exactly the MCU sequence of the scan, dummy blocks included. |
| ImageRoundTrip.CodeImage | benchmark/source/jpeg/jpeg-6a/libjpeg.doc:1484-1610 | One run of compressor and decompressor: scanlines offered in any portions go to the single-pass controller, its MCUs to the Huffman coder, which suspends when its buffer is full while the application takes the committed bytes and offers any room; the bytes reach the decoder in any pieces. What is decoded is the scan of the image as far as its bytes have arrived; when all have, every block of every component, as far as it is wanted, is at the place that its row and column give. A run ends otherwise only for a symbol without a code, for want of room (no more than an MCU, or than two bytes for the flush), or for no more calls than there are lines and MCUs. |
| BlockControllers.FullBufferScans | benchmark/source/jpeg/jpeg-6a/jccoefct.c:243-394 | compress_first_pass and then compress_output, over two scans, feed the same sequences, dummies stored ahead of time. |
| BlockControllers.OutputScan | benchmark/source/jpeg/jpeg-6a/jctrans.c:260-334 | The transcoder, which makes dummy blocks as it goes, and the buffered output pass feed the same sequence for the same scan. |
| ScanlineWriter.Writer.WriteScanlines | benchmark/source/jpeg/jpeg-6a/jcapistd.c:76-111 | No scanline is lost, repeated or miscounted however the compressor suspends: next_scanline is the count read, but for the last line while suspended, and at the image's end the strips delivered are exactly the image, the bottom edge repeated. More lines than offered are reported if and only if a suspended writer is resumed with none and the compressor now takes the row; then it is one. |
| ScanlineWriter.Writer.ProcessDataSimple | benchmark/source/jpeg/jpeg-6a/jcmainct.c:112-158 | The row accounting of the suspended flag: the rows reported plus one while suspended are the rows taken, every yes of the compressor is one iMCU row, and only the last answer of a call is no. More rows than offered are reported exactly when a suspended call is resumed with none and the first answer is yes. |
| ScanlineWriter.EveryRow | benchmark/source/jpeg/jpeg-6a/jcprepct.c:130-200 | In the strips delivered every row of the image is in its place, and below the image the last row is repeated. |
| ScanlineWriter.ReportedLate | benchmark/source/jpeg/jpeg-6a/jcmainct.c:135-155 | A concrete image of one line, refused once and then taken: the first call reports none, the second, which is offered none, reports one. |
| ScanScript.ValidateScript | benchmark/source/jpeg/jpeg-6a/jcmaster.c:129-249 | Accepts a script if and only if it satisfies the rules of T.81 stated independently of the last_bitpos table; the scan it blames is the first that breaks them. |
| ScanScript.RefinedBitByBit | benchmark/source/jpeg/jpeg-6a/jcmaster.c:199-213 | In an accepted progressive script each coefficient sent starts with Ah = 0 and loses exactly one bit of Al with every later scan. |
| ScanScript.SentOnce | benchmark/source/jpeg/jpeg-6a/jcmaster.c:217-247 | In an accepted sequential script every coefficient of every component is sent exactly once. |
| ScanScript.SimpleProgression | benchmark/source/jpeg/jpeg-6a/jcparam.c:447-572 | For any number of components the script is the recommended one, scan by scan, fills exactly the space reserved for it, is accepted, and ends with all 64 coefficients of all components at Al = 0. |
| RowGroups.CalcOutputDimensions | benchmark/source/jpeg/jpeg-6a/jdmaster.c:83-156 | For all allowed sampling factors and scalings: output sizes and IDCT scalings, doubled only while a component stays within the largest. |
| RowGroups.SameGroups | benchmark/source/jpeg/jpeg-6a/jdmaster.c:129-156 | Every component has the same number of row groups, ceil(height M / (8 max_v)). |
| RowGroups.CountsAgree | benchmark/source/jpeg/jpeg-6a/jdmainct.c:277-290 | The rowgroups_avail computed from any component is the same and completes the total. |
| ContextRows.MainController.ProcessDataContext | benchmark/source/jpeg/jpeg-6a/jdmainct.c:384-447 | One call, however little is taken and wherever output or input run short: the row groups presented follow on from those before, each with its context, and both row lists and the saved groups stay consistent. |
| ContextRows.PresentImage | benchmark/source/jpeg/jpeg-6a/jdmainct.c:194-299 | Under any schedule of calls each row group of the image is presented exactly once, in order, with its context, and the pass is finished after as many calls that find input and take something as there are row groups, whatever comes between; every window shows the true context if and only if there is one iMCU row or the last one has a whole real row group. |
| ContextRows.ContextTrueExactly | benchmark/source/jpeg/jpeg-6a/jdmainct.c:265-299 | The exact condition under which the rows shown above and below every group are the true ones, edges repeated. |
| ContextRows.BottomTakenEarly | benchmark/source/jpeg/jpeg-6a/jdmainct.c:265-299 | A concrete image where the condition fails: 17 rows, two to a group, eight groups to an iMCU row; a window shows row 17, which does not exist, for row 16. |
| ContextRows.NearestRowsTrue | benchmark/source/jpeg/jpeg-6a/jdmainct.c:265-299 | The nearest context row above and below is always the true one. |
| CoreMemory.Memory.CleanupWb | sim/memory.cpp:113-134 | Merging the write buffers changes no core's view even when buffered values differ, and removes exactly the entries that all cores have and that equal the primary's. |
| CoreMemory.Memory.UpdateReplica | sim/memory.cpp:94-109 | Every replica is served from its own view and changes only that; cleanup included. |
| CoreMemory.Memory.Read | sim/memory.cpp:138-158 | The public read gives the bytes of the primary's view, by words or by bytes. |
| PrivateMemory.RangeIsPrivateExactly | sim/memory.cpp:175-199 | A range written for all cores is, for a core, a write to a memory of its own if and only if it is word-aligned or the core agrees with the primary on the bytes that share a word with the range. |
| PrivateMemory.TornByte | sim/memory.cpp:194-199 | Concrete views for which a byte written for all cores overwrites a neighbouring byte of a replica. |
| PrivateMemory.AlonePoked | sim/memory.cpp:175-199 | For one view, the public write is a write of bytes, whatever the alignment. |
| PrivateMemory.ApartExactly | sim/memory.cpp:65-226 | Over any run of requests, cleanups and writes for all: every core's view is at every point that of a private flat memory, if and only if no range written tears a word. |
| PrivateMemory.Run | sim/memory.cpp:65-226 | The same run carried out, for any number of cores: views and every value read back, at every point, are those of private memories if no range tears a word. |
| Lockstep.Validator.Validate | sim/sim_concurrent.cpp:21-46 | Accepts exactly when pc, instruction and the compared fields of the instruction's class agree; what is kept for the report of a mismatch is of this round. |
| RetirementRecords.AgreesExactly | sim/sim_concurrent.cpp:21-46 | Against the record of an instruction of the ISA the validator accepts exactly the records that show its pc and word and what it computes: the value for its register, the address it loads from, or the word address and masked data it stores. |
| Lockstep.MasksMatterExactly | sim/sim_concurrent.cpp:33-40 | Two accepted stores have the same effect on every word if and only if their masks, which the validator does not compare, are equal. |
| Lockstep.MasksMatter | sim/sim_concurrent.cpp:33-40 | Two concrete records that are accepted and leave different words behind. |
| Lockstep.SimConcurrent | sim/sim_concurrent.cpp:50-150 | The loop ends with the first round that ends it: max_insts reached, a core that fails or times out, a system call that stops, or records that disagree; a mismatch is reported if and only if the records of that last round disagree. If in each round the replica's stores are the accepted one, with equal mask, there is no mismatch and all views equal the single-core memory, system calls included, after any number of rounds; if moreover it stores once per primary store, all buffers are empty. On a mismatch the log shown is that of the last instructions before it. |
| RiscvDecoder.DecodeAgrees | sim/riscv.cpp:10-212 | For every 32-bit word that is an instruction of RV32I the decoder finds the operation, registers and immediate of the ISA. |
| RiscvDecoder.UnknownExactly | sim/riscv.cpp:10-191 | The decoder rejects a word if and only if it is not of RV32I and not one of the encodings listed (other funct7 or funct3 values, FENCE.I, MRET, WFI, CSR accesses). |
| RiscvDecoder.MultiplicationAdds | sim/riscv.cpp:120-139 | A concrete one: MUL decodes as an addition. |
| ByteMemory.StoreExactly | sim/functional_core.cpp:124-141 | The lanes and mask of a store, served by the memory, are the ISA's store for every memory and value if and only if the address is aligned. |
| ByteMemory.WordLoadExactly | sim/functional_core.cpp:105-109 | LW loads the ISA's word from every memory if and only if the address is aligned. |
| FunctionalCore.ResultAgrees | sim/functional_core.cpp:142-199 | Shifts by a constant and by a register, arithmetic shifts and signed comparisons on the host are those of the ISA, where an arithmetic shift is so many shifts by one place. |
| FunctionalCore.LinkedTooEarly | sim/functional_core.cpp:63-66 | JALR x1, 0(x1): the core jumps to the link it has just written. |
| FunctionalCore.Core.Drive | sim/functional_core.cpp:28-234 | If the ISA lets the instruction complete, drive and its store, served by the memory, leave the registers and memory of the ISA, and its program counter if and only if a JALR keeps its target (even, or by chance when it overwrites its base); x0 is zero. The record of a retired instruction shows the ISA's: address and word, the value it computes, the address a load reads, and the word address, data and mask of a store. |
| RetirementRecords.ClassAgrees | sim/sim_concurrent.cpp:21-46 | For every word of RV32I the fields that the validator compares (load address, store, or result) are those that the kind of the instruction calls for. |
| RetirementRecords.ProducedIsWritten | sim/functional_core.cpp:218-226 | The value a record reports is the one the ISA writes to the instruction's register, and instructions that report none write none. |
| SingleExecution.SimSingle | sim/sim_single.cpp:14-38 | Any number of steps of the core, each served by the memory, with arbitrary system calls between, equal as many steps of an independently written RV32I over (pc, registers, byte memory), as long as the ISA lets each step complete and each JALR keeps its target; the run ends with the first instruction that is a system call that stops it or the last that max_insts allows, and with none before. |
| DualExecution.SimDual | sim/sim_concurrent.cpp:50-150 | The lockstep loop with the functional core in it, against the ISA alone. While the instructions are plain, the replica's record of each round shows the values of the ISA's instruction, except in the last if and only if a mismatch is reported; the loop ends exactly when comparing the replica with the ISA ends it; whatever the replica does, the core is left in the state of RV32I, system calls included but for one whose records disagree. If the replica also makes the ISA's stores, no mismatch is reported and both cores see the ISA's memory. |
| LabelCorrecting.NoneCheaper | benchmark/source/dijkstra/dijkstra_small.c:99-144 | When the queue is empty no path to a node is cheaper than its label, although items with outdated distances were processed. |
| PredecessorTree.TreeRelax | benchmark/source/dijkstra/dijkstra_small.c:99-144 | Relaxing an edge, even of cost zero and for an outdated item, keeps the iPrev pointers a tree rooted at the start. |
| ShortestPaths.Dijkstra | benchmark/source/dijkstra/dijkstra_small.c:99-144 | For non-negative costs with every simple path below 9999 the loop ends, the cost is that of a cheapest path, 9999 if and only if there is none, and the path printed is one of that cost; for equal end points the cost is zero and no path is printed. |
| ShortestPaths.Queue.Dequeue | benchmark/source/dijkstra/dijkstra_small.c:77-91 | The linked list is a FIFO queue: the oldest item leaves, the rest stays in order. |
| Horspool.Searcher.Search | benchmark/source/stringsearch/bmhsrch.c:45-70 | The leftmost occurrence, or none, for every non-empty pattern with patlen + stringlen below 32767; the sentinel tells a hit of the last character from the end of the text. Characters are unsigned, as in the RISC-V ABI. |
| Usqrt.RightExactly | benchmark/source/basicmath/isqrt.c:45-65 | For every 32-bit x, usqrt computes floor(sqrt(x) 2^16) if and only if the remainders of the roots of x 2^28 and x 2^30 lose nothing that matters when they are shifted. |
| Usqrt.RightBelow28 | benchmark/source/basicmath/isqrt.c:45-65 | In particular for every x below 2^28. |
| Usqrt.NothingWraps | benchmark/source/basicmath/isqrt.c:45-65 | Below 2^28 neither r nor e wraps in any turn, and prefix = a^2 + r with r <= 2a holds throughout. |
| Usqrt.WrongFor28Plus1 | benchmark/source/basicmath/isqrt.c:45-65 | It is wrong for 2^28 + 1. |

## Findings

Where the code and what it promises part, with the exact condition.

- Context rows: the group before the last iMCU row gets its context below before set_bottom_pointers repeats the last real row. The rows shown are the true ones if and only if there is one iMCU row or the last one has at least one whole row group of real rows (`ContextRows.ContextTrueExactly`); `ContextRows.BottomTakenEarly` is an image for which they are not. The nearest row is right in any case (`ContextRows.NearestRowsTrue`).
- `usqrt` is exact below 2^28 (`Usqrt.RightBelow28`, `Usqrt.NothingWraps`), wrong for 2^28 + 1 (`Usqrt.WrongFor28Plus1`), and beyond that right exactly under the condition of `Usqrt.RightExactly`.
- A range written for all cores that starts or ends within a word takes the rest of that word from the primary (`PrivateMemory.TornByte`); it is private exactly under the condition of `PrivateMemory.RangeIsPrivateExactly`.
- The validator compares masked data but not the masks: accepted stores have equal effect exactly when the masks are equal (`Lockstep.MasksMatterExactly`, `Lockstep.MasksMatter`).
- JALR writes its link before it reads its base and keeps bit 0 of its target: the program counter is the ISA's exactly under `FunctionalCore.JumpKept`; `FunctionalCore.LinkedTooEarly` is a case where it is not.
- Stores and word loads at addresses that are not aligned use other lanes than the ISA's bytes, for exactly those addresses (`ByteMemory.StoreExactly`, `ByteMemory.WordLoadExactly`); byte and halfword loads are right at any address.
- Words that are not of RV32I but are executed all the same are listed by `RiscvDecoder.ExecutedAllTheSame` (`RiscvDecoder.UnknownExactly`); a multiplication is an addition (`RiscvDecoder.MultiplicationAdds`).
- A destination that accepts a buffer in the middle of an MCU and then refuses gets bytes twice: a suspended MCU leaves the stream as it was if and only if the first answer of the destination is a refusal, and an MCU is suspended exactly when its bytes meet one (`HuffEncoder.Encoder.EncodeMcu`); `EagerDestination.SentTwice` is a case where a byte is sent twice. libjpeg.doc asks for a destination that refuses.
- jpeg_write_scanlines reports more lines than it was offered, namely one, if and only if it is offered none, the writer is suspended, and the compressor now takes the row (`ScanlineWriter.Writer.WriteScanlines`, `ScanlineWriter.ReportedLate`); if the compressor refuses again it reports none.

## Left out

- OptimalTable.GenOptimalTable: entries of huffval beyond the list are arbitrary.
- TwoPass.OptimizeCodeDecode: is for DC differences of at most fifteen bits and at most 10^9 symbols to a table: jpeg_gen_optimal_table takes no frequency above 10^9 for a symbol in use, and sixteen-bit differences have codes that the decoder cannot extend.
- AcCoder.Coder.EncodeMcu: records symbols and bits; their packing into bytes is that of the sequential coder (AcStreams), so the byte routines of jcphuff.c, which error out instead of suspending, are not modelled a second time.
- AcStreams.OneScan: for data that arrive in pieces it is for orders whose spare entries repeat the last place, as those of jpeg_natural_order do. AcStreams.SuccessiveApproximation takes its data all at once.
- Lockstep.SimConcurrent: is for one replica, as the source's loop is; the memory results are for any number.
- FunctionalCore.Core.Drive: a shift to the left by 32 or more, undefined in C and only reached by reserved encodings, is taken modulo 32.
- ImageRoundTrip.CodeImage: is for a destination whose empty_output_buffer always refuses, as libjpeg.doc asks of one that suspends; a flush that does not fit, an error exit in the source, counts as want of room. The blocks given for an iMCU row stand for what downsampling and forward_DCT make of its rows.
- DualExecution.SimDual: the ring of recent records is left to Lockstep.SimConcurrent, where the primary is any core that reports its stores truthfully.
- Horspool.Searcher.Search: does not cover a signed char, with which the comparison of a text character with a pattern byte of 128 or more fails.
- SingleExecution.SimSingle: system calls are arbitrary writes for all cores and a value for A0; the log is not modelled.
- ImageLayout.InitialSetup: the checks of input_components, of the length of an input scanline and of data_precision are not modelled.
- Resynchronization after a wrong restart marker (jpeg_resync_to_restart).
- Progressive DC scans, the statistics pass of the progressive coder, and the scan setup of jcphuff.c and jdphuff.c.
- The pass state machine of jcmaster.c (prepare_for_pass, finish_pass_master) and select_scan_parameters.
- DCT, quantization, sampling and color conversion: a component is the blocks, or the row numbers, that they deliver. Virtual-array paging and allocation.
- Wrap-around of last_dc_val beyond 16 bits and of the unsigned counters: predictions are 16-bit, cycle and instruction counts unbounded.
- Addresses of the shared memory are numbers without an upper bound; the core's are 32-bit words.
- Control and status registers, machine-mode returns and interrupts; get_log's re-simulation of loads for the log; all printing.
- The replica cores: arbitrary sources of memory requests and retirement records.
- The patricia trie, the floating-point kernels, hashes, sorting and image benchmarks.
