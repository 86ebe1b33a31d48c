# Verified model of the EKA2L1 codecs, allocators and code emitter

The project models, in Dafny, the data-transforming parts of the emulator's common library and of the DEFLATE library it
ships, and proves what these parts are for.

* **DEFLATE** (`miniz.c`): the lazy LZ77 parser on its ring buffer and hash chains, the flag-byte code buffer, the radix
  sort, in-place minimum-redundancy coding, the length limiter, canonical codes, run-length packing of code lengths, the
  three kinds of blocks, flushing, and the decoder with its 10-bit lookup table and overflow tree. The end-to-end result is
  that compressing a buffer always succeeds and decompressing what it made gives that buffer, for every buffer and every
  option. What is written is fixed further: every decision of the parser takes the longest match that the search offers,
  every block ends as soon as it is worth one, and each has the form and the header that the code chooses. On the way it is settled that a block never reaches the end of the output buffer: the code's own assertion about
  that holds, and its fallback for a dynamic block that does not fit is never taken. The decompressor is given arbitrary
  bytes: it yields data if and only if the bytes begin with a stream of the format's grammar for that data, with the model
  stopping where it comes to bits that mean nothing in the format. Compressor and decompressor share nothing but the format: streams are fields of bits (RFC 1951, section 3.1.1), and both sides are proved
  against the canonical codes of section 3.2.2. The Adler-32 checksum and the sorted name index of archives are modelled,
  too.
* **SCSU** (`unicode.cpp`): compressor and expander of Unicode Technical Standard #6 as two machines that are kept in
  lockstep.
* **ARM immediates** (`armemitter.cpp`): the instruction sequences for constants, proved from every register state.
* **Code-length coder** (`flate.cpp`), **byte-pair decoder** (`bytepair.cpp`), **bitmap and block allocators**
  (`allocator.cpp`) and **run-length coder** (`runlen.cpp`).

Stateful code is modelled as classes and methods over arrays and fields; each method is proved against a specification
function or relation, and the promised properties are lemmas about those.

## Where the code does not do what is meant

The model follows the code. Each of these is stated exactly, with a concrete input where that helps.

* SCSU: Unicode mode is announced before every run of two or more plain-Unicode codes, also when it is on already
  (`unicode.cpp:461-467`); the expander takes the second announcement for a private-use character. Round trip holds if and only if this
  does not happen.
* SCSU: extended windows start at 0x1000 plus the offset (`unicode.cpp:200-226`) where Unicode Technical Standard #6 has
  0x10000, so no character of any extended window is expanded to what the standard says. The compressed form of a text
  that is restored defines no such window, so the round trip is not affected.
* DEFLATE: the decoder looks up a code of one symbol also for bits that it does not contain (`miniz.c:2048-2073`), and
  finds symbol 0 without any bits; the grammar has no such code.
* Run lengths: a source whose last element follows a run alone loses it (`runlen.cpp:53-56`). The decoder writes one
  element too many of a run that the room does not hold (`runlen.cpp:136-142`), and goes beyond the room exactly then.
* Byte pairs: room is checked between two bytes of the data only (`bytepair.cpp:110-153`), so the output goes beyond the
  room if and only if the expansion of some byte of the data starts inside the room and ends behind it.
* Bitmap allocator: a free range that starts at the last cell of a word is not found, so an allocation fails exactly
  if all long enough ranges are of that kind; and the number returned by `force_fill` counts from the start of the first word.
* Block allocator: `next_power_of_two` goes to the next larger power also for an exact one, so an extent may end behind
  the space it was checked against: four bytes of a space of four end at eight.
* ARM immediates: with the source register as scratch register, a constant that needs the scratch register replaces the
  source first. The result is the intended one from every state if and only if the constant does not need the scratch
  register or the two registers differ (or, setting bits, the constant has them all); what it is otherwise, is stated, too.
* `try_set_value_two_op` emits nothing for zero.

## Reading order

| files | subject |
|---|---|
| `powers`, `bits`, `byte_values`, `word_bits`, `bit_stream` | numbers, bits and streams of fields |
| `radix_sort`, `prefix_code`, `huffman_forest`, `huffman_depths`, `minimum_redundancy`, `length_counts`, `length_limit`, `limited_cost`, `used_symbols`, `canonical_code`, `huffman_table` | building codes and what they cost |
| `inflate_table`, `inflate_budget`, `inflate_decoder` | the decoder's table |
| `lz_codes`, `lz_buffer`, `lz_window`, `lz_chains`, `lz_parse`, `lz_parser` | the hash chains, lazy parsing as a relation, the parser and its code buffer |
| `deflate_symbols`, `code_length_packing`, `deflate_codes`, `deflate_header`, `deflate_block`, `deflate_stream`, `deflate_marker`, `dynamic_size`, `deflate_choice`, `deflate_compress` | writing blocks, why they fit, and which are written |
| `deflate_format`, `deflate_readable` | the grammar of streams, and that the compressor keeps to it |
| `inflate_reader`, `inflate_exact` | reading bit by bit, and that it agrees with the grammar |
| `inflate_symbols`, `inflate_compressed`, `inflate_stream`, `deflate_round_trip`, `deflate_example` | the decompressor, and both ways together |
| `adler32`, `zip_index` | checksum and name index |
| `scsu`, `scsu_round_trip`, `scsu_stream`, `scsu_expander`, `scsu_compressor`, `scsu_examples` | SCSU |
| `arm_operands`, `arm_machine`, `arm_effects`, `arm_windows`, `arm_emitter` | ARM immediates |
| `move_to_front`, `byte_pair`, `bitmap_allocator`, `block_allocator`, `run_length` | the other coders and the allocators |

`dafny verify dfyconfig.toml` checks everything.

## Model

| member | source | states |
|---|---|---|
| `RadixSort.RadixSortSyms` | src/external/miniz/miniz.c:652-679 | the sorted array is a stable, ascending permutation of the first `n` entries, in whichever of the two arrays the passes end, also when the pass over the high byte is skipped |
| `RadixSort.TwoPasses` | src/external/miniz/miniz.c:663-676 | bucketing by the low byte and then by the high byte is a stable sort by the 16-bit key |
| `RadixSort.OnePass` | src/external/miniz/miniz.c:661-662 | if every high byte is zero the first pass alone is already the stable sort |
| `MinimumRedundancy.CalculateMinimumRedundancy` | src/external/miniz/miniz.c:682-725 | in place, sorted positive frequencies with sum below 2^16 become lengths that are non-increasing, at most 22, with Kraft sum exactly 1, and of minimum weighted total among all prefix codes; a symbol with a long code is rare, by the Fibonacci numbers; symbols stay where they are; one symbol gets length 1 |
| `PrefixCode.GreedyIsLowerBound` | src/external/miniz/miniz.c:682-725 | no prefix code for the weights has a smaller weighted total than repeatedly merging two smallest weights |
| `HuffmanDepths.LeafDepthsOptimal` | src/external/miniz/miniz.c:689-701 | the leaf depths of the two-queue construction have Kraft sum 1 and reach that lower bound |
| `HuffmanDepths.ShallowBelow16Bits` | src/external/miniz/miniz.c:682-725 | with a sum below 2^16 no leaf lies deeper than 22 (Fibonacci bound), so the 33 length counters of line 753 suffice |
| `LengthLimit.EnforceMaxCodeSize` | src/external/miniz/miniz.c:731-750 | from a complete code of at most 2^max symbols the loop ends with counts that are non-negative, as many codes as before, none longer than `max`, and Kraft sum exactly 1; unchanged if no code was too long; the counts are those after folding and exactly one turn for each unit of surplus |
| `LengthLimit.RemoveSurplus` | src/external/miniz/miniz.c:740-749 | one turn keeps the number of codes, drives no count negative and lowers the Kraft total by exactly one, which bounds the loop |
| `LengthCounts.OneMoreTurn` | src/external/miniz/miniz.c:740-749 | the turns of the loop lengthen codes from the longest on: at every time there is one code that is being lengthened, all longer ones are at the limit, and all shorter ones are as they were |
| `LimitedCost.LimitIsCheap` | src/external/miniz/miniz.c:731-750 | limiting a minimum-redundancy code to 15 bits costs at most 0.91 bits for each symbol coded, and at most 0.09 with up to 30 symbols |
| `HuffmanTable.OptimizeHuffmanTable` | src/external/miniz/miniz.c:752-797 | exactly the symbols that occur get a code; two or more used symbols give a complete code within the limit, which the decoder accepts; the lengths are those of a minimum-redundancy code for the symbols in stable order, limited turn by turn and dealt out again, the longest to the least frequent; a more frequent symbol never has a longer code; no prefix code of at most 15 bits is better by more than 0.91 bits for each symbol coded; every transmitted code is the bit-reversed canonical code |
| `HuffmanTable.OptimalWithinLimit` | src/external/miniz/miniz.c:752-797 | if the minimum-redundancy code is within the limit, no prefix code of any depth costs less than the lengths of the table |
| `HuffmanTable.CodeStartsStream` | src/external/miniz/miniz.c:788-796 | a bit stream that begins with the transmitted code of a symbol starts with that symbol in the sense the decoder uses |
| `CanonicalCode.PrefixFree` | src/external/miniz/miniz.c:784-787 | with a code that is not oversubscribed no two symbols start the same bit stream |
| `CanonicalCode.SomeSymbolStarts` | src/external/miniz/miniz.c:2195-2201 | with a complete code every bit stream starts with some symbol |
| `InflateDecoder.HuffTable.Build` | src/external/miniz/miniz.c:2183-2234 | accepts lengths exactly if they are complete or use at most one symbol, never runs out of tree nodes, and leaves a lookup table with overflow tree that represents the code |
| `InflateDecoder.HuffTable.Decode` | src/external/miniz/miniz.c:2048-2073 | returns the unique symbol whose code starts the stream, and consumes exactly its length, through the table or through the tree |
| `InflateDecoder.HuffTable.DecodeAny` | src/external/miniz/miniz.c:2048-2073 | with a complete code every stream of bits is decoded, and in one way only |
| `InflateDecoder.HuffTable.StrayEntry` | src/external/miniz/miniz.c:2048-2073 | with codes of at most ten bits, the lookup entry for bits that no code contains is zero: symbol 0 and no bits |
| `InflateDecoder.OneSymbolCode` | src/external/miniz/miniz.c:2183-2234 | the code of one symbol, a zero, is accepted, and a one is found to be symbol 0 |
| `InflateDecoder.ReverseBits` | src/external/miniz/miniz.c:2207-2208 | the accumulator loop yields the bits of the code in opposite order |
| `InflateBudget.NodesFit` | src/external/miniz/miniz.c:2217-2231 | however far the build has come, the nodes made fit the 288 pairs of tree slots |
| `LzBuffers.LzBuffer.RecordLiteral` | src/external/miniz/miniz.c:1452-1461 | the flag-byte buffer then holds the codes recorded before and the literal |
| `LzBuffers.LzBuffer.RecordMatch` | src/external/miniz/miniz.c:1463-1489 | the flag-byte buffer then holds the codes recorded before and the match |
| `LzBuffers.LzBuffer.Finish` | src/external/miniz/miniz.c:1099-1100 | after the final shift of the flags, or dropping the unused flag byte, the buffer is exactly the serialization of all recorded codes |
| `LzCodeBuffer.NextItem` | src/external/miniz/miniz.c:1037-1069 | at every step of the reader the bytes at its place are those of the next recorded code |
| `LzCodeBuffer.ReadingEnd` | src/external/miniz/miniz.c:1041-1044 | the reader reaches the end of the buffer exactly after the last code |
| `LzCodes.CopyRepeat` | src/external/miniz/miniz.c:2353-2395 | copying back over a true repeat, overlapping or not, reproduces the data |
| `DeflateSymbols.LengthRoundTrip` | src/external/miniz/miniz.c:2331-2337 | the decoder's length base plus the extra bits sent is the match length, for all 256 values |
| `DeflateSymbols.DistRoundTrip` | src/external/miniz/miniz.c:2340-2346 | the decoder's distance base plus the extra bits sent is the distance, for all 32768 values |
| `DeflateSymbols.LengthTable` | src/external/miniz/miniz.c:2076-2077 | base and extra bits of every length symbol, in numbers: they double every four symbols |
| `DeflateSymbols.LastLengthSymbol` | src/external/miniz/miniz.c:2076-2077 | 258, and only that, is sent as symbol 285 |
| `DeflateSymbols.DistTable` | src/external/miniz/miniz.c:2078-2079 | base and extra bits of every distance symbol, in numbers: they double every two symbols |
| `DeflateHeader.SwizzleOrder` | src/external/miniz/miniz.c:2080-2080 | the order in which the lengths of the code-length code are sent, in numbers |
| `DeflateBlock.FixedCodes` | src/external/miniz/miniz.c:2156-2169 | the codes of a static block, in numbers, for all literal/length and distance symbols |
| `LzParser.Compressor.FindMatch` | src/external/miniz/miniz.c:1257-1295 | a match is longer than asked for and a true repeat inside the dictionary; of the links of the chain that the budget of probes reaches, none repeats the lookahead further than the match found, and one is found if one of them repeats it for more than was asked for |
| `LzChains.ChainedOne` | src/external/miniz/miniz.c:1511-1513 | putting a position at the head of its chain keeps every link leading to the latest earlier position of the same hash |
| `LzChains.OnTheChain` | src/external/miniz/miniz.c:1257-1295 | every earlier position of the same hash is some link of the chain |
| `LzChains.RepeatsSameHash` | src/external/miniz/miniz.c:1257-1295 | a repeat of three bytes or more has the same hash, so it is on the chain |
| `LzParser.Compressor.FillLookahead` | src/external/miniz/miniz.c:1498-1533 | takes exactly as much input as the lookahead may hold, keeps the ring and its mirrored start, puts every position known by three bytes into the chains, and gives up the oldest bytes |
| `LzParser.Compressor.Decide` | src/external/miniz/miniz.c:1537-1588 | one decision of the lazy parser is the turn of the parse: on the match that the search offers, if it is worth its price, it records, saves or replaces exactly as stated; the recorded codes keep expanding to the input up to the coded position, also by themselves from the last full flush on |
| `LzParser.Compressor.ResolveSaved` | src/external/miniz/miniz.c:1562-1578 | with a match saved: the codes recorded, the move and what is saved then, case by case |
| `LzParser.Compressor.StartAfresh` | src/external/miniz/miniz.c:1579-1588 | with none saved: a literal, a match at once, or a match saved, case by case |
| `LzParse.ParseGrows` | src/external/miniz/miniz.c:1491-1607 | what was decided stays the parse of any longer input |
| `LzParser.Compressor.Advance` | src/external/miniz/miniz.c:1589-1593 | the lookahead moves on by the decided number of bytes and everything is consistent again |
| `LzParser.Compressor.Accounting` | src/external/miniz/miniz.c:1491-1607 | after every step the expansion of all codes is the input up to the coded position, which is one byte behind the lookahead if a match is saved; block start plus block bytes is that position; a saved match is at most one longer than the lookahead |
| `LzParser.Compressor.NothingSavedAtTheEnd` | src/external/miniz/miniz.c:1491-1607 | when the lookahead is used up nothing is saved and the whole input is coded |
| `CodeLengthPacking.PackCodeSizes` | src/external/miniz/miniz.c:872-901 | the run codes written are exactly those of the maximal runs of the lengths, cut at 138 zeros and 6 repetitions, with runs too short to pay written out; they stand for the lengths, the first of them is no repetition, and the symbol counts are right |
| `CodeLengthPacking.PackedNoLonger` | src/external/miniz/miniz.c:815-849 | any sequence of run codes takes at most as many bytes as the lengths it stands for |
| `InflateCompressedBlock.ReadCodeSizes` | src/external/miniz/miniz.c:2235-2252 | from arbitrary bits, expanding the run codes in the array gives the lengths that reading bit by bit gives; it is rejected if a repetition comes first, the last run goes beyond the total, or the input ends |
| `BitStream.BitWriter.PutBits` | src/external/miniz/miniz.c:799-813 | the bits written so far, in output and bit buffer together, are the fields put so far, also after the end of the output was reached |
| `DeflateCodes.CompressLzCodes` | src/external/miniz/miniz.c:1037-1074 | the fields written are the codes, extra bits included, and the end-of-block symbol; success exactly if the output is not full |
| `InflateSymbols.HuffDecode` | src/external/miniz/miniz.c:2048-2073 | from arbitrary bits, gives the one symbol whose code comes next and takes exactly its bits; fails if the input ends before |
| `InflateSymbols.CopyMatch` | src/external/miniz/miniz.c:2383-2395 | copying three bytes at a time gives the same bytes as copying one by one |
| `InflateSymbols.InflateMatch` | src/external/miniz/miniz.c:2331-2363 | from arbitrary bits, reads length and distance and copies; rejected if the match reaches back before the output or the input ends |
| `InflateSymbols.InflateCodes` | src/external/miniz/miniz.c:2259-2397 | from arbitrary bits, the loop over the tables gives the output that reading code by code gives |
| `InflateExact.CodesSound` | src/external/miniz/miniz.c:2259-2397 | whatever is read as the codes of a block is spelled by the bits, and the output is what these codes stand for |
| `InflateExact.CodesComplete` | src/external/miniz/miniz.c:2259-2397 | any codes that the bits spell are read, if no match reaches back before the output |
| `InflateExact.NeverUnknown` | src/external/miniz/miniz.c:2259-2397 | with complete codes over the symbols that have a meaning every stream is decoded or rejected |
| `DeflateBlock.StartDynamicBlock` | src/external/miniz/miniz.c:853-925 | the header written describes exactly the two tables that will be used, without the zeros at their ends, packed run by run and coded with a code for just these runs, whose lengths are sent up to the last that is not zero |
| `DeflateBlock.CompressBlock` | src/external/miniz/miniz.c:1077-1083 | the fields written are a static block of the recorded codes, or a dynamic one with that header, whose codes are the limited minimum-redundancy ones for the symbols it holds |
| `InflateCompressedBlock.ReadHeader` | src/external/miniz/miniz.c:2171-2257 | from arbitrary bits, gives the two codes that reading field by field gives, and rejects codes that are neither complete nor of a single symbol |
| `InflateExact.HeaderSound` | src/external/miniz/miniz.c:2171-2257 | whatever is read as a header is spelled by the bits as one |
| `InflateExact.HeaderComplete` | src/external/miniz/miniz.c:2171-2257 | any header that the bits spell, of any sizes that the fields can express, is read |
| `InflateCompressedBlock.InflateCompressed` | src/external/miniz/miniz.c:2155-2397 | from arbitrary bits, reads a whole static or dynamic block |
| `DeflateStream.StaticFits` | src/external/miniz/miniz.c:1132-1137 | a static block of any full code buffer fits the output buffer with 64 bits to spare |
| `DynamicSize.CloseToStatic` | src/external/miniz/miniz.c:1081-1082 | with the codes made for a block its recorded codes take at most one bit each more than with the static codes |
| `DynamicSize.ThriftyFits` | src/external/miniz/miniz.c:1093-1093 | a dynamic block of any full code buffer, header included, fits the output buffer with 64 bits to spare, so the static fallback of lines 1133-1137 is never needed |
| `InflateStream.InflateStored` | src/external/miniz/miniz.c:2120-2152 | from arbitrary bits, skips to a byte, checks the length against its complement, and gives the bytes |
| `DeflateCompress.Deflater.WriteBody` | src/external/miniz/miniz.c:1109-1137 | static codes are chosen exactly if asked for or for fewer than 48 bytes, the bytes themselves exactly if they are in the window and asked for or no longer than the codes; whichever form it is, the block stands for the recorded codes or the bytes they code, and fits the output buffer; the static fallback is never taken |
| `DeflateCompress.Deflater.FlushBlock` | src/external/miniz/miniz.c:1085-1195 | appends one block, in the chosen form, to the stream, loses no bit, and leaves an empty code buffer whose block starts at the coded position; a sync or full flush adds an empty stored block, after which all bits are in the output, which ends with the bytes 0, 0, 255, 255; the assertion of line 1163, that the output is not full, holds after every flush |
| `DeflateMarker.MarkerBytes` | src/external/miniz/miniz.c:1151-1160 | bytes that spell fields which end with the lengths 0 and 65535 end with 0, 0, 255, 255 |
| `DeflateCompress.Deflater.WindowByTurns` | src/external/miniz/miniz.c:1116-1117 | whether the bytes of a block are still in the dictionary depends on its decisions alone: all bytes known since it began fit the window |
| `DeflateCompress.Deflater.FullIsWorth` | src/external/miniz/miniz.c:1595-1595 | the test of the buffer fill is a property of the recorded codes |
| `DeflateChoice.WorthIsEnough` | src/external/miniz/miniz.c:1595-1595 | a block that is closed on its own stands for more than 31 KiB, also if the code buffer ran full |
| `DeflateCompress.Deflater.CompressNormal` | src/external/miniz/miniz.c:1491-1607 | takes input in any portions; every byte taken is in the history, which the blocks and codes stand for; every decision has 258 bytes to look at or all there are, and every block is closed by the first decision that makes it worth one |
| `DeflateCompress.Deflater.Compress` | src/external/miniz/miniz.c:1627-1683 | a completed flush leaves blocks that expand to the whole input, the last of them cut and formed as it should be; a sync or full flush delivers every bit and ends with its marker; after a full flush the dictionary is empty and the blocks to come expand by themselves; a completed finish leaves a deflate stream; nothing but a destination that does not take everything keeps it from completing |
| `DeflateCompress.CompressMemory` | src/external/miniz/miniz.c:1732-1787 | for every data, options and probe count, gives a deflate stream of the data which is their lazy parse: every turn takes what the search offers with the budgets of the probe count, every block but the last is cut at the first turn that makes it worth one, and each has the chosen form |
| `InflateStream.InflateBlock` | src/external/miniz/miniz.c:2117-2398 | from arbitrary bits, gives the output of a block and whether it is the last if and only if the bits begin with a block of the grammar none of whose matches reaches back before the output |
| `InflateStream.Inflate` | src/external/miniz/miniz.c:2117-2402 | from arbitrary bits, gives the output of all blocks if and only if the bits begin with a stream of the grammar that makes sense |
| `InflateStream.DecompressMemory` | src/external/miniz/miniz.c:2506-2512 | for arbitrary bytes, yields `data` if and only if the bytes begin with a deflate stream of `data` |
| `InflateExact.TakenExactly` | src/external/miniz/miniz.c:2117-2402 | reading bit by bit gives `data` if and only if the bytes begin with a stream of the grammar for `data` |
| `InflateExact.OneMeaning` | src/external/miniz/miniz.c:2506-2512 | no bytes begin with deflate streams of two different buffers |
| `DeflateReadable.DeflatedReadable` | src/external/miniz/miniz.c:1732-1787 | every stream the compressor writes is one of the grammar |
| `DeflateRoundTrip.ThereAndBack` | src/external/miniz/miniz.c:1732-1787 | every buffer comes back after compressing and decompressing it, for every option and probe count |
| `DeflateExample.Example` | src/external/miniz/miniz.c:2117-2402 | 23 bytes with a dynamic block, in numbers, are decompressed to the 39 bytes they mean |
| `DeflateExample.SecondExample` | src/external/miniz/miniz.c:2117-2402 | so are the bytes of a stored and a static block |
| `Adler32.Update` | src/external/miniz/miniz.c:39-62 | for every starting checksum, reduced or not, and every buffer, the deferred reduction gives the same as reducing both sums for every byte |
| `Adler32.NeverWraps` | src/external/miniz/miniz.c:39-62 | no 32-bit sum wraps around inside a block of 5552 bytes from reduced sums, nor in the shorter first block from any 16-bit sums |
| `Adler32.BlockIsLargest` | src/external/miniz/miniz.c:41-41 | 5552 is the largest block length with that bound |
| `Adler32.Continued` | src/external/miniz/miniz.c:39-62 | the checksum of a concatenation is the second part's, continued from the packed checksum of the first |
| `Adler32.Examples` | src/external/miniz/miniz.c:39-62 | the checksum of a word and that of sums at the edge of the modulus, in numbers |
| `ZipIndex.SortByFilename` | src/external/miniz/miniz.c:3021-3066 | heap sort in place leaves a permutation of the indices that is ascending in the case-folded order |
| `ZipIndex.FilenameLess` | src/external/miniz/miniz.c:2995-3011 | the byte-wise comparison is the dictionary order of the folded names |
| `ZipIndex.NotAfterTransitive` | src/external/miniz/miniz.c:2995-3011 | not being after is transitive, so the order of names is a weak order |
| `ZipIndex.SameUpToCase` | src/external/miniz/miniz.c:2995-3011 | two bytes fold to the same exactly if they are equal or the same letter A to Z in two cases |
| `ZipIndex.FoldedText` | src/external/miniz/miniz.c:2995-3011 | a name is folded as it reads |
| `ZipIndex.SiftStep` | src/external/miniz/miniz.c:3037-3047 | moving the larger child up keeps the heap except at the hole and the bridge over the hole |
| `ZipIndex.TopMovesBack` | src/external/miniz/miniz.c:3054-3056 | exchanging the top with the last node settles one more place of the sorted tail |
| `ZipIndex.LocateByBinarySearch` | src/external/miniz/miniz.c:3739-3774 | finds some file whose name matches up to case, and fails only if there is none |
| `ZipIndex.LocateByScan` | src/external/miniz/miniz.c:3797-3833 | finds the first such file, and rejects exactly names of more than 65535 bytes |
| `ZipIndex.BothWays` | src/external/miniz/miniz.c:3791-3833 | index and scan agree on success, and on the file if no two names differ only in case |
| `Scsu.OffsetFits` | src/emu/common/src/unicode.cpp:64-102 | a code's offset byte stands for a window that contains the code; there is none exactly below 0x80 and from 0x3400 to 0xDFFF |
| `Scsu.Treatments` | src/emu/common/include/common/unicode.h:99-106 | plain, dynamic and static treatments are disjoint and cover all codes |
| `Scsu.ExtensionTooLow` | src/emu/common/src/unicode.cpp:200-226 | whatever the two bytes, the window of SDX or UDX starts 0xF000 below the place that the standard gives it |
| `Scsu.ExtensionNeverConforms` | src/emu/common/src/unicode.cpp:200-226 | whatever the window, no character of it is expanded to the units that the standard asks for |
| `Scsu.FirstExtension` | src/emu/common/src/unicode.cpp:200-226 | the first character of the first extended window becomes U+1000 instead of the two units of U+10000 |
| `ScsuRoundTrip.ReadsSelection` | src/emu/common/src/unicode.cpp:460-532 | after the bytes before a run, expander and compressor agree on mode, active base and all windows |
| `ScsuRoundTrip.ReadsRun` | src/emu/common/src/unicode.cpp:534-576 | a run is read back and both machines agree after it, unless it announces Unicode mode while it is on |
| `ScsuRoundTrip.SecondAnnouncement` | src/emu/common/src/unicode.cpp:461-467 | a second announcement of Unicode mode makes the expansion differ from the run, whatever follows |
| `ScsuRoundTrip.RoundTrip` | src/emu/common/src/unicode.cpp:373-611 | expanding what was compressed restores the text if and only if no run of two or more plain-Unicode codes starts in Unicode mode; then both machines end in the same state |
| `ScsuRoundTrip.IdeographsGoWrong` | src/emu/common/src/unicode.cpp:461-467 | eight ideographs in a row are not restored |
| `ScsuRoundTrip.NeverExtends` | src/emu/common/src/unicode.cpp:373-611 | the compressed form of a text that is restored defines no extended window |
| `ScsuRoundTrip.AtMostThreeBytesEach` | src/emu/common/src/unicode.cpp:534-611 | at most three bytes are written for each unit, and the active base is that of the active window afterwards |
| `ScsuExpander.Expander.Expand` | src/emu/common/src/unicode.cpp:343-371 | the expansion from the present windows, cut off where the destination ends |
| `ScsuExpander.Expander.HandleSByte` | src/emu/common/src/unicode.cpp:285-341 | one byte of single-byte mode does what its tag says to mode, windows and output |
| `ScsuExpander.Expander.HandleUByte` | src/emu/common/src/unicode.cpp:245-278 | one byte of Unicode mode does what its tag says to mode, windows and output |
| `ScsuExamples.SelectedWindow` | src/emu/common/src/unicode.cpp:29-38 | every window at the start, selected by its tag, in numbers |
| `ScsuExamples.QuotedWindow` | src/emu/common/src/unicode.cpp:304-325 | a byte of every window at the start, quoted by its tag, in numbers |
| `ScsuExamples.QuotedStatic` | src/emu/common/src/unicode.cpp:46-53 | a byte of every static window, quoted by its tag, in numbers |
| `ScsuExamples.DefinedWindow` | src/emu/common/src/unicode.cpp:64-84 | a window defined with any offset byte, the special ones included, starts where the numbers say, is selected at once and kept |
| `ScsuExamples.ExtendedWindow` | src/emu/common/src/unicode.cpp:200-213 | an extended window, defined by either tag, gives the code points from 0x1000 on in UTF-16, and is kept under its number |
| `ScsuExamples.Itself` | src/emu/common/src/unicode.cpp:280-288 | the bytes that stand for themselves |
| `ScsuExamples.QuotedUnit` | src/emu/common/src/unicode.cpp:228-243 | a unit quoted in either mode |
| `ScsuExamples.PlainUnit` | src/emu/common/src/unicode.cpp:245-255 | two bytes of Unicode mode |
| `ScsuExamples.BackFromUnicode` | src/emu/common/src/unicode.cpp:262-271 | the tags that change back from Unicode mode, selecting or defining a window |
| `ScsuCompressor.Compressor.WriteTreatmentSelection` | src/emu/common/src/unicode.cpp:460-532 | writes the bytes of the selection and takes over the state it announces |
| `ScsuCompressor.Compressor.WriteRun` | src/emu/common/src/unicode.cpp:534-576 | writes the collected actions run by run; a full destination stops it |
| `ScsuCompressor.Compressor.Compress` | src/emu/common/src/unicode.cpp:578-611 | the output is the compressed form of the source, cut off where the destination ends; with room, nothing is left over |
| `ScsuExamples.Latin` | src/emu/common/src/unicode.cpp:578-611 | Latin-1 text without control characters is left as it is |
| `ScsuExamples.Alphabet` | src/emu/common/src/unicode.cpp:578-611 | text in one alphabet of the start takes one tag and one byte for each letter |
| `ScsuExamples.Moscow` | src/emu/common/src/unicode.cpp:578-611 | the Russian word for Moscow is compressed to seven bytes in numbers, and they are expanded to its letters |
| `ArmOperands.TryMakeOperand2` | src/emu/common/src/armemitter.cpp:51-61 | succeeds exactly if some byte rotated right by an even amount is the constant, and returns such a byte with the smallest such rotation |
| `ArmOperands.Rotations` | src/emu/common/src/armemitter.cpp:51-61 | a byte rotated right, in numbers |
| `ArmMachine.CmnOfNegation` | src/emu/common/src/armemitter.cpp:318-330 | adding the negated constant sets the same four flags as comparing, except for the two constants that are their own negation |
| `ArmMachine.CmnDiffers` | src/emu/common/src/armemitter.cpp:73-81 | for those two constants the flags do differ; both are encodable, so the negated form is never used for them |
| `ArmMachine.ComparedExamples` | src/emu/common/src/armemitter.cpp:311-330 | the four flags after comparisons of concrete numbers |
| `ArmMachine.ComputedExamples` | src/emu/common/src/armemitter.cpp:182-485 | what moving, adding and subtracting leave in the register, in numbers |
| `ArmMachine.ComputedBits` | src/emu/common/src/armemitter.cpp:234-403 | what masking, clearing and setting bits leave, in numbers |
| `ArmMachine.ComputedHalves` | src/emu/common/src/armemitter.cpp:257-485 | what the instructions on bit fields, halves and literals leave, in numbers |
| `ArmWindows.GreedyIsBest` | src/emu/common/src/armemitter.cpp:94-103 | the greedy count of bytes is at most two exactly if two bytes at even positions make up the constant |
| `ArmWindows.TakeByte` | src/emu/common/src/armemitter.cpp:386-399 | a byte taken at an even position stays a part of the constant even where it wraps past bit 31, and covers eight more bits |
| `ArmEmitter.Emitter.TrySetValueTwoOp` | src/emu/common/src/armemitter.cpp:94-116 | succeeds exactly for constants of two such bytes, with at most two instructions; for every other than zero the register then holds the constant, for zero nothing is emitted |
| `ArmEmitter.Emitter.MovImmediate` | src/emu/common/src/armemitter.cpp:459-485 | from every state the register ends up with the constant, for every architecture and option, and nothing else changes; which instructions are used, and how many, is stated; without ARMv7 no instruction of that architecture is used |
| `ArmEmitter.Emitter.TryAddImmediate` | src/emu/common/src/armemitter.cpp:189-220 | succeeds exactly if the constant or its negation is encodable or short; the code leaves `rs` plus the constant in `rd` from every state; the number of instructions is stated exactly |
| `ArmEmitter.Emitter.AddImmediate` | src/emu/common/src/armemitter.cpp:182-187 | adds any constant from every state if and only if the constant does not need the scratch register or that is not the source; if it is, the result is twice the constant; the scratch register is used exactly if the constant needs it, and the number of instructions is stated |
| `ArmEmitter.Emitter.TrySubImmediate` | src/emu/common/src/armemitter.cpp:229-232 | adding the negation leaves `rs` minus the constant; the number of instructions is stated exactly |
| `ArmEmitter.Emitter.SubImmediate` | src/emu/common/src/armemitter.cpp:222-227 | subtracts any constant from every state if and only if the constant does not need the scratch register or that is not the source; if it is, the result is zero; the scratch register is used exactly if the constant needs it, and the number of instructions is stated |
| `ArmEmitter.Emitter.TryAndImmediate` | src/emu/common/src/armemitter.cpp:241-309 | the code leaves `rs` and the constant, by one instruction, a bit field, or up to four bit clears; it gives up exactly on ARMv7 for constants that need four; the number of instructions is stated exactly |
| `ArmEmitter.Emitter.AndImmediate` | src/emu/common/src/armemitter.cpp:234-239 | masks with any constant from every state if and only if the constant does not need the scratch register or that is not the source; if it is, the result is the constant; the scratch register is used exactly if the constant needs it, and the number of instructions is stated |
| `ArmEmitter.Emitter.FindLowOnes` | src/emu/common/src/armemitter.cpp:257-271 | the scan finds a positive width exactly for a run of ones from bit 0 |
| `ArmEmitter.Emitter.EmitBics` | src/emu/common/src/armemitter.cpp:292-307 | one instruction for each byte of the complement, together masking with exactly the constant |
| `ArmEmitter.Emitter.TryOrImmediate` | src/emu/common/src/armemitter.cpp:356-403 | the code leaves `rs` or the constant; when it gives up is stated exactly; the number of instructions is stated exactly |
| `ArmEmitter.Emitter.OrImmediate` | src/emu/common/src/armemitter.cpp:349-354 | sets the bits of any constant from every state if and only if the constant does not need the scratch register, or that is not the source, or all bits are to be set; otherwise the result is the constant; the scratch register is used exactly if the constant needs it, and the number of instructions is stated |
| `ArmEmitter.Emitter.EmitOrs` | src/emu/common/src/armemitter.cpp:386-400 | one instruction for each byte, together setting exactly the bits of the constant |
| `ArmEmitter.Emitter.TryCmpImmediate` | src/emu/common/src/armemitter.cpp:318-330 | sets the flags of the comparison from every state, whether CMP or CMN was chosen; the number of instructions is stated exactly |
| `ArmEmitter.Emitter.CmpImmediate` | src/emu/common/src/armemitter.cpp:311-316 | compares with any constant from every state if and only if the constant does not need the scratch register or that is not the one compared; if it is, the outcome is always equal; the scratch register is used exactly if the constant needs it, and the number of instructions is stated |
| `ArmEmitter.StubbornConstant` | src/emu/common/src/armemitter.cpp:182-187 | 0x12345678 does need the scratch register in every one of these operations |
| `MoveToFront.Externalize` | src/emu/common/src/flate.cpp:290-330 | writes, for each change of code, the run before it and its place in the list, and moves it to the front |
| `MoveToFront.Internalize` | src/emu/common/src/flate.cpp:405-460 | from a stream that begins with the metacodes of any codes it restores the codes and stops exactly behind their last symbol |
| `MoveToFront.Example` | src/emu/common/src/flate.cpp:290-460 | seven codes and their metacodes in numbers, there and back |
| `MoveToFront.MovedKeepsOrder` | src/emu/common/src/flate.cpp:319-324 | the last code and the list positions from 1 on remain a permutation of all codes |
| `BijectiveRuns.ValueOfSymbols` | src/emu/common/src/flate.cpp:282-288 | the digits of a run length stand for it |
| `BijectiveRuns.SymbolsOfValue` | src/emu/common/src/flate.cpp:421-423 | every digit sequence is the one of its value |
| `BijectiveRuns.PrefixValue` | src/emu/common/src/flate.cpp:418-423 | a beginning of the digits stands for less, so the reader cannot stop inside a run |
| `BytePair.DecodeData` | src/emu/common/src/bytepair.cpp:103-164 | for every acyclic table the stack machine terminates and its output is the concatenation of the recursive expansions of the shortest beginning of the data that fills the room, escapes literal; it goes beyond the room if and only if the expansion of some byte straddles the end of the room |
| `BytePair.FillingIsAll` | src/emu/common/src/bytepair.cpp:110-153 | that output is a beginning of the whole expansion, and all of it unless the room is used up |
| `BytePair.OutsideExactly` | src/emu/common/src/bytepair.cpp:110-153 | that output is longer than the room if and only if some byte of the data starts inside the room and its expansion ends behind it |
| `BytePair.OneByteOver` | src/emu/common/src/bytepair.cpp:110-153 | one byte that stands for two is expanded to two bytes where there is room for one |
| `BytePair.CutWithoutStraddling` | src/emu/common/src/bytepair.cpp:110-153 | data that mean three bytes fill a room of one exactly |
| `BytePair.ReadTable` | src/emu/common/src/bytepair.cpp:55-101 | list form and mask form of the same pairs give the same table; the mask form is rejected exactly if its count is wrong |
| `BytePair.MaskedTable` | src/emu/common/src/bytepair.cpp:69-101 | a table in mask form, in numbers: the lowest bit of a mask byte is the first pair |
| `BytePair.Decompress` | src/emu/common/src/bytepair.cpp:32-166 | table and data together: the output is the meaning, in the grammar of the pairs, of the shortest beginning of the data that fills the room, and goes beyond it if and only if an expansion straddles its end |
| `BytePair.Example` | src/emu/common/src/bytepair.cpp:32-166 | a pair, a byte by itself and an escaped byte, in numbers, and their expansion |
| `BitmapAllocator.Bitmap.ForceFill` | src/emu/common/src/allocator.cpp:132-177 | masking word by word sets exactly the existing cells of the range and no other; the returned count is stated exactly, and when it is the number of existing cells |
| `BitmapAllocator.OvercountedFill` | src/emu/common/src/allocator.cpp:132-177 | a range of 33 cells of which 32 exist is reported as 33 |
| `BitmapAllocator.Bitmap.AllocateFrom` | src/emu/common/src/allocator.cpp:183-258 | takes the first range that is wholly free and long enough and does not start at the last cell of a word; -1 exactly if all long enough free ranges start at the last cell of a word, and then nothing changes |
| `BitmapAllocator.LastCellUnseen` | src/emu/common/src/allocator.cpp:201-215 | the only free cell of a bitmap, the last of its word, is not found |
| `BitmapAllocator.CrossingUnseen` | src/emu/common/src/allocator.cpp:201-215 | two free cells across the end of a word are not found |
| `BitmapAllocator.Bitmap.Free` | src/emu/common/src/allocator.cpp:179-181 | frees exactly the cells of the range |
| `BitmapAllocator.Bitmap.SetMaximum` | src/emu/common/src/allocator.cpp:119-130 | keeps the cells that remain and adds free ones |
| `BitmapAllocator.RunsAreSafe` | src/emu/common/src/allocator.cpp:179-258 | over every run of allocations, releases and failures live ranges exist, are taken and never overlap |
| `BitmapAllocator.StepKeeps` | src/emu/common/src/allocator.cpp:179-258 | a granted range is apart from every live one |
| `BitmapAllocator.Serve` | src/emu/common/src/allocator.cpp:179-258 | serving a request with the bitmap is a step of such a run, also for no cells at all, and keeps live ranges taken and apart |
| `BlockAllocator.Allocator.Allocate` | src/emu/common/src/allocator.cpp:43-95 | the first free extent that is large enough is reused from its start, and what is left of it stays free; otherwise the extent goes behind the last, and fails exactly if the request does not fit there and the space cannot be expanded; extents keep tiling the space without gap or overlap, exactly one live extent is added and it is apart from all others; the space is outgrown exactly if nothing was reusable and the request, but not its rounded size, fits |
| `BlockAllocator.Allocator.Free` | src/emu/common/src/allocator.cpp:97-113 | succeeds exactly for the start of a live extent, which alone is marked free |
| `BlockAllocator.FreedIsReused` | src/emu/common/src/allocator.cpp:43-113 | in a space of eight bytes that cannot grow, five bytes are granted at 0, refused while they are held, and granted at 0 again after freeing; then a smaller request gets the beginning of the free extent |
| `BlockAllocator.PowerOfTwoOutgrows` | src/emu/common/src/allocator.cpp:43-95 | an exact power of two is rounded up to the next one: four bytes of a space of four are granted and end behind it |
| `RunLength.RoundTrip` | src/emu/common/src/runlen.cpp:27-122 | the tokens stand for the source if and only if no run is cut so that exactly one element follows it |
| `RunLength.TwoAndOne` | src/emu/common/src/runlen.cpp:53-56 | two equal elements and a different one come back as three equal ones |
| `RunLength.TokensMean` | src/emu/common/src/runlen.cpp:27-122 | in general what is lost is the last element only, replaced by the one before it |
| `RunLength.Compress` | src/emu/common/src/runlen.cpp:27-122 | the measuring pass reports exactly the number of bytes that the writing pass gives a large enough destination; a smaller one gets exactly the whole segments that fit from the beginning |
| `RunLength.Decompress` | src/emu/common/src/runlen.cpp:124-162 | a well-formed source is expanded in order, as far as the room goes; the output goes beyond the room exactly if the first token that the room does not hold is a run, and then to the end of the element that straddles it |
| `RunLength.EqualElements` | src/emu/common/src/runlen.cpp:27-122 | equal elements take one element and one byte for every 128 of them or part of that |
| `RunLength.Example` | src/emu/common/src/runlen.cpp:27-162 | seven bytes in numbers, there and back |
| `RunLength.OneElementOver` | src/emu/common/src/runlen.cpp:136-142 | a run of two bytes straddles a room of one |
| `RunLength.ThereAndBack` | src/emu/common/src/runlen.cpp:27-162 | compressing and decompressing into the room of the source restores it exactly if no element is lost, for any element width |

## Left out

- DeflateCompress.Deflater.Compress: delivery to the caller is a nondeterministic choice unless the destination takes everything; calls after a pending flush, statuses of the callback, and the zlib header and trailer are not modelled.
- InflateStream.DecompressMemory: where the outcome is `Unknown`, no deflate stream is there, but what the source makes of the bytes is not modelled: bits that a code of one symbol does not contain, and the symbols 286 and 287 of a length and 30 and 31 of a distance.
- InflateStream.Inflate: the suspension and resumption of the decoder at every byte, the refilling of its bit buffer, and the ring form of its output are not modelled: a stream is the number its bits spell, and how many there are.
- LzParser.Compressor.FindMatch: positions are unbounded numbers, so the wrap-around of 32-bit positions after four gigabytes is not modelled; which links the budget reaches is stated for certain ones: all up to the budget, and three times as many until one agrees at the end of the match to beat.
- `tdefl_compress_fast` and the unaligned variants of the match finder and the code writer: duplicates of the portable logic.
- The smaller buffer sizes of the low-memory build.
- HuffmanTable.OptimizeHuffmanTable: the frequencies sum to less than 2^16, as 16-bit counters of one block do.
- ZipIndex.LocateByScan: the flags for case, paths and comments are not modelled.
- Reading and writing of archives, time conversion, PNG output, allocation callbacks: platform plumbing.
- ScsuCompressor.Compressor.Compress: a compressor that was stopped by a full destination keeps its unwritten actions; a further call with such a rest is not modelled.
- ScsuExpander.Expander.Expand: source and destination are byte sequences; the sizes that callers pass by reference are their lengths.
- ArmMachine.Step: instructions are executed unconditionally and on registers other than the program counter; their bit layout and the back-patching of the literal pool are not modelled, a load carries its literal.
- ArmEmitter.Emitter: exclusive or, test, and the constants of floating-point registers would only add easy members.
- MoveToFront.Internalize: metacodes are a sequence of numbers, so the Huffman bit coder around them is not modelled; neither are streams that are not the metacodes of any codes.
- Huffman tree construction and bit input and output of `flate.cpp`: they depend on pointer layout and unsigned wrap-around.
- BytePair.Decompress: tables in which a pair leads back to itself, and buffers that end inside the table or after a marker, are not modelled; the source would read on behind them.
- BitmapAllocator.Bitmap.AllocateFrom: a search starts at word 0 and takes the first fit; other start offsets and best fit are not modelled.
- `allocated_count`, `set_word` and `get_word` of the bitmap allocator, and locking in both allocators.
- BlockAllocator.Allocator.Allocate: whether the space can be expanded is a parameter; requests of no bytes, whose logarithm the source takes, are not modelled.
- RunLength.Compress: sources that end inside an element are not modelled; neither is a file stream whose end is not visible to `valid`.
- RunLength.Decompress: sources that end inside a token are not modelled; nor is the separate 12-bit decoder.
- Region arithmetic, dictionary decompression, configuration, paths, threads, virtual memory and logging.
