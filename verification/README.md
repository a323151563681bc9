# A verified model of crabz2

crabz2 is a bzip2 codec. This project models both halves of it, down to bits, and proves that they belong
together: compressing any byte string at any level and decompressing the result gives that byte string back, and
the four decoders (block at a time, pipelined in pairs, speculative in parallel, and push-streaming) compute the
same function of the input bytes, errors included.

The layers, from the bottom:

- **Bits.** `Sequences` holds facts about sequences. `Bits` views a byte slice as a bit sequence. `BitWriting` and
  `BitReading` prove the writer, the cursor and the zero-padded reservoir against that view.
- **Burrows-Wheeler.** `SuffixOrder`, `InducedOrder`, `InducedSort` and `SuffixArrays` prove induced suffix
  sorting in full. `Bwt` proves the transform, the counting inverse, and that any way of ordering equal rotations
  inverts.
- **Huffman.** `PackageMerge` and `CodeLengths` prove package-merge complete and optimal. `Canonical`,
  `HuffmanTables` and `TableBuilding` prove canonical codes, the limit/base/perm walk and the ten-bit fast table.
  `Grouping` and `HuffmanBuild` model the grouped coding; `Sizes` counts its bits.
- **Move-to-front and run lengths.** `MoveToFront`, `MtfArena` and `RunLength`; `Runs` proves that the runs are the
  longest possible and the coded form the shortest.
- **Checksums.** `Crc` is the table-driven CRC, `CrcBits` what it comes to bit by bit.
- **Blocks.** `BlockFormat` says what the bits of a block mean, as functions on the bits that are left.
  `BlockReading`, `BlockPreparing` and `Walking` are the decoder's loops, proved to compute those functions;
  `BlockWritten` and `BlockWriting` are the encoder's side and the block round trip. `Refusals` says, on the bits
  themselves, what malformed input is refused with.
- **Streams.** `Prefixes` proves that a parse reads no further than what it consumes. `StreamFormat` defines
  `DecodeAll`, the meaning of a whole input, with its first error. `Packing` defines the compressed form of a
  plaintext, and `Partition` proves which partition into blocks that is. `BlockDecoding`, `WholeBuffer`, `Scanning`,
  `Speculation`, `Streaming` and `Encoding` are the machines; `RoundTrips`, `Continuations` and `Integrity` hold the
  theorems about whole files, and `KnownAnswers` decodes one that is given byte by byte.

Mutable objects of the source are classes (`BitWriter`, `BitCursor`, `BitReservoir`, `Arena`, `WalkCursor`,
`Splitter`, `BlockDecoder`, `Bz2Decoder`, `Encoder`); loops that fill buffers are methods with loops. A growable
vector is a field or variable of type `seq`. Words are integers, with their width written out wherever the
source shifts, masks or wraps.

## What the code does where its comments say otherwise

The model follows the code.

- The comment on `lms_substr_eq` (src/encode/bwt.rs:222-223) says that the closing LMS position is compared as well.
  The loop returns before comparing the symbols there, so it equates substrings that differ in them:
  in the doubled block of `Bwt.ClosingSymbolsDiffer` it does. `InducedOrder.SubstringSameExactly` says for every string what is
  lost, which is those symbols and nothing else. The coarser names are harmless, because a closing symbol opens the
  next LMS substring, so the next symbol of the reduced string decides: `InducedOrder.ReducedOrder` asks of equal
  names only that the substrings agree before their closing symbols, and `SuffixArrays.ReducedText` proves that of the
  names given.
- The comment on the reservoir (src/lib.rs:329) relates its position to the next byte. A refill keeps that relation
  exactly when all the bytes it asks for exist (`BitReading.BitReservoir.Refill`), and a reservoir opened at an offset
  has it exactly when eight bytes are left there (`BitReading.BitReservoir.constructor`);
  `BitReading.BitReservoir.OpenShort` shows four bytes on which it fails. The decoder gets there: by
  `RoundTrips.CutBehindHeader` every compressed file, cut off behind its first block's header, opens a padded reservoir.
- The comment on `block_limit` (src/encode/mod.rs:55-56) says that the decoder rejects a block that reaches the
  nominal size. It rejects only a longer one: `BlockWritten.BlockAccepted` gives the exact condition.
- The comment in `arm_retry` (crabz2-wasm/src/lib.rs:249-250) says that the buffer is rebased to the last committed
  boundary. That branch does not compact. Committed bytes stay in the buffer exactly when whole framing stood in front
  of the attempt: between streams four bytes of valid header, inside one the end mark with the right combined CRC in
  the first 80 bits (`StreamFormat.FramingAhead`). `StreamFormat.HaltedCommits` proves it of one call,
  `Streaming.TruncatedAgain` of any number of attempts since the last compaction, and `Streaming.Bz2Decoder.Pump` of the
  decoder, over every run. `RoundTrips.HeaderAlone` is the smallest case. `Streaming.Bz2Decoder.Push` holds either way.

## Model

| member | source | states |
|---|---|---|
| `BitWriting.BitWriter.WriteBits` | src/encode/bitwriter.rs:33-47 | appends exactly the low n bits of the value, most significant first, to everything written so far, whatever was pending |
| `BitWriting.BitWriter.WriteMagic` | src/encode/bitwriter.rs:55-58 | two 24-bit writes append the 48-bit magic |
| `BitWriting.BitWriter.Drain` | src/encode/bitwriter.rs:73-75 | the drained bytes followed by what stays are what was written; only a partial byte stays |
| `BitWriting.BitWriter.Finish` | src/encode/bitwriter.rs:78-85 | the bytes are the written bits followed by fewer than eight zero bits |
| `BitReading.BitCursor.WordPath` | src/lib.rs:265-269 | the eight-byte word path returns the addressed window of the bit sequence, for every offset and width |
| `BitReading.BitCursor.TailPath` | src/lib.rs:270-279 | the tail path returns the same window |
| `BitReading.BitCursor.TailFits` | src/lib.rs:270-279 | at most five bytes span a read of up to 32 bits, so the tail word stays below 2^40 and its final shift below eight |
| `BitReading.BitCursor.Read` | src/lib.rs:256-283 | either path reads the next n bits, or fails with Truncated and does not move exactly when fewer are left |
| `BitReading.BitCursor.ReadBit` | src/lib.rs:286-294 | one bit, same result and same error as a one-bit read |
| `BitReading.BitCursor.ReadMagic` | src/lib.rs:298-302 | 48 bits in two reads, Truncated if either runs out |
| `BitReading.BitCursor.AlignToByte` | src/lib.rs:305-307 | moves to the next byte boundary, inside the input |
| `BitReading.BitReservoir.constructor` | src/lib.rs:338-352 | a reservoir opened at any bit offset stands at that offset; the position relation of the field comment holds from the start exactly when eight bytes are left at the offset's byte |
| `BitReading.BitReservoir.Refill` | src/lib.rs:355-367 | at least 57 bits are buffered, real ones and then zero bits, and the position is unchanged; the position relation survives exactly when all the bytes asked for exist |
| `BitReading.BitReservoir.Peek` | src/lib.rs:372-374 | the next n bits, zero bits standing in past the end |
| `BitReading.BitReservoir.Consume` | src/lib.rs:378-385 | moves on by n bits; an error exactly when that passes the real end of the input |
| `BitReading.BitReservoir.OpenShort` | src/lib.rs:328-333 | on a four-byte input the relation that the field comment gives between the position, the next byte and the buffered bits fails from the start |
| `RoundTrips.CutBehindHeader` | src/lib.rs:854-862 | every compressed file, cut off behind its first block's header, takes the decoder to the first symbol with fewer than eight bytes left |
| `BitReading.ReadBitsExtends` | src/lib.rs:256-283 | a read that succeeds is the same when more input follows |
| `SuffixOrder.SuffixArrayUnique` | src/encode/bwt.rs:59-141 | a terminated string has only one suffix array |
| `SuffixOrder.STypeMeansSmaller` | src/encode/bwt.rs:143-157 | a position is S-type exactly when its suffix is smaller than the next one |
| `SuffixArrays.Classify` | src/encode/bwt.rs:144-157 | the backward pass computes the S/L type of every position |
| `SuffixArrays.LmsSubstrEq` | src/encode/bwt.rs:224-247 | true exactly when two LMS substrings agree up to their closing positions |
| `InducedOrder.SubstringSameExactly` | src/encode/bwt.rs:222-247 | leaving out the closing symbols loses those symbols and nothing else: full equality is the comparison made together with equal symbols at the next LMS positions |
| `Bwt.ClosingSymbolsDiffer` | src/encode/bwt.rs:222-247 | a block whose doubled text, as the transform hands it over, has two LMS substrings that compare equal although their closing symbols differ |
| `InducedSort.PlaceSeeds` | src/encode/bwt.rs:70-79 | placing LMS positions from the back gives every bucket its seeds at its end, in the given order |
| `InducedSort.LeftToRight` | src/encode/bwt.rs:192-207 | the forward pass puts every L-type suffix where the induced order has it |
| `InducedSort.RightToLeft` | src/encode/bwt.rs:208-220 | the backward pass puts every S-type suffix where the induced order has it |
| `InducedSort.Induce` | src/encode/bwt.rs:192-220 | the two passes leave the positions sorted by the induced order, each exactly once |
| `InducedOrder.InducedIsSuffixOrder` | src/encode/bwt.rs:127-138 | seeded with the true order of the LMS suffixes, the induced order is the suffix order |
| `InducedOrder.SubstringDecides` | src/encode/bwt.rs:70-80 | where two LMS substrings differ, the induced order of the first pass already orders their suffixes |
| `SuffixArrays.NameSubstrings` | src/encode/bwt.rs:82-104 | equal names mean equal substrings and names ascend with the order; the halved index never collides |
| `SuffixArrays.ReducedText` | src/encode/bwt.rs:106-114 | the reduced string keeps the unique smallest sentinel and is at most half as long |
| `InducedOrder.ReducedOrder` | src/encode/bwt.rs:106-125 | the suffix order of the reduced string is the order of the LMS suffixes |
| `SuffixArrays.Reduce` | src/encode/bwt.rs:66-114 | sorts and names the LMS substrings, and forms the reduced string of the names in order of position |
| `SuffixArrays.InvertNames` | src/encode/bwt.rs:118-125 | when all names differ, their inverse permutation is the suffix array of the reduced string |
| `SuffixArrays.SubOrder` | src/encode/bwt.rs:116-138 | through the suffix array of the reduced string, the LMS positions are all listed once and in true suffix order |
| `SuffixArrays.Sais` | src/encode/bwt.rs:59-141 | returns the suffix array of every string that ends in a unique smallest 0; the recursion terminates |
| `Bwt.SortedRowsUnique` | src/encode/bwt.rs:1-11 | two sorted arrangements of the same rotations are the same strings, whatever way ties are broken |
| `Bwt.ColumnIsUnique` | src/encode/bwt.rs:3-11 | the last column, and the rows as strings, do not depend on how equal rotations are ordered |
| `Bwt.Transform` | src/encode/bwt.rs:23-55 | computes the last column and the row of the unrotated block |
| `Bwt.TransformIsTransform` | src/encode/bwt.rs:23-55 | the rows are the sorted rotations, each once, and the column holds the byte before each |
| `Bwt.InverseTransform` | src/lib.rs:968-1007 | for any sorted arrangement of the rotations, walking from the block's row emits the block |
| `Bwt.RoundTrip` | src/encode/bwt.rs:23-55 | transforming and inverting gives back every non-empty block, periodic ones included |
| `Bwt.Thread` | src/lib.rs:968-1007 | counting and threading write every cell once, with the row it leads to and that row's byte |
| `PackageMerge.NestedLeaf` | src/encode/huffman.rs:212-213 | a leaf inside a chosen package is itself chosen: leaves go first on ties |
| `PackageMerge.EnoughCoins` | src/encode/huffman.rs:225-229 | whenever 2^limit is at least the number of symbols the final list holds 2m - 2 coins |
| `PackageMerge.Cheapest` | src/encode/huffman.rs:195-229 | no other purchase of that total width is cheaper |
| `CodeLengths.KraftIsOne` | src/encode/huffman.rs:168-243 | the Kraft sum of the lengths is exactly one |
| `CodeLengths.LengthsInRange` | src/encode/huffman.rs:168-243 | every length is between 1 and the limit |
| `CodeLengths.Optimal` | src/encode/huffman.rs:164-243 | no length vector within the limit that satisfies the Kraft inequality has a smaller total of weight times length |
| `CodeLengths.MergeLevel` | src/encode/huffman.rs:208-222 | merging keeps order and takes the leaf on equal weights |
| `CodeLengths.CountLeaves` | src/encode/huffman.rs:227-239 | draining the stack counts every occurrence of every symbol in a coin |
| `CodeLengths.PackageMergeLengths` | src/encode/huffman.rs:168-243 | the arena computes exactly those lengths |
| `Canonical.CodeDecodes` | src/encode/huffman.rs:245-263 | under the Kraft inequality the walk reads a code back to its symbol and length, whatever follows |
| `Canonical.PrefixFree` | src/encode/huffman.rs:245-263 | canonical codes are prefix-free |
| `Canonical.CodesAscend` | src/encode/huffman.rs:245-263 | on every length vector, codes as numbers go up by length and, within a length, by symbol, and only so |
| `Canonical.EndCodeBound` | src/lib.rs:431-440 | for alphabets up to 258 and lengths up to 20, over-subscribed ones included, code limits fit 32 signed bits |
| `Canonical.WalkExtends` | src/lib.rs:487-503 | a symbol found inside the input, or none at all, is the same on every extension, though zero bits stood in past the end |
| `TableBuilding.CanonicalCodes` | src/encode/huffman.rs:248-263 | every symbol gets its canonical code |
| `TableBuilding.BuildPerm` | src/lib.rs:408-417 | symbols by length and then by number; every index is inside the list |
| `TableBuilding.BuildCounts` | src/lib.rs:419-428 | entry l is how many symbols are shorter than l |
| `TableBuilding.BuildLimit` | src/lib.rs:431-437 | the last code of each length |
| `TableBuilding.BuildBase` | src/lib.rs:438-440 | the offset from a code to its place in the symbol list |
| `TableBuilding.StampCode` | src/lib.rs:458-463 | stamps exactly the slots that share the code's prefix |
| `TableBuilding.BuildFast` | src/lib.rs:442-465 | every one of the 1024 entries is what the walk finds within ten bits, or zero |
| `TableBuilding.Build` | src/lib.rs:400-475 | the table stands for its lengths; refused exactly when a length is outside 1..23 |
| `HuffmanTables.FastAgrees` | src/lib.rs:478-504 | on every window of every length vector a fast entry is the walk's symbol and length, and no entry means the walk goes past ten bits or fails |
| `HuffmanTables.TableHit` | src/lib.rs:491-499 | where the walk stops, the index is inside the symbol list and gives the walk's symbol |
| `HuffmanTables.Decode` | src/lib.rs:478-504 | reads the symbol that the bits left determine, consuming its length; InvalidHuffman exactly when no code matches, Truncated exactly when the code passes the end |
| `HuffmanTables.DecodeSymbolExtends` | src/lib.rs:478-504 | a symbol or an invalid code is settled by the bits at hand |
| `Grouping.AssignSelectors` | src/encode/huffman.rs:99-121 | each group gets the first of its cheapest tables |
| `Grouping.SelectorsOptimal` | src/encode/huffman.rs:81-84 | for fixed tables no other choice of selectors makes the stream shorter |
| `Sizes.StreamCostIsBits` | src/encode/huffman.rs:107-113 | the cost that tables and selectors are compared by is the number of bits the coded symbols take up |
| `Sizes.SelectorsShortest` | src/encode/huffman.rs:81-84 | for fixed tables no other selectors make the coded symbols take up fewer bits |
| `HuffmanBuild.InitialLengths` | src/encode/huffman.rs:124-162 | the seed tables of the frequency split; every symbol that occurs has length 1 in exactly one of them and 15 in the others |
| `HuffmanBuild.SeedsLast` | src/encode/huffman.rs:135-158 | what one part takes never exceeds the remaining total, and leaves the total of the symbols behind it |
| `HuffmanBuild.PartEnds` | src/encode/huffman.rs:135-149 | a part ends where its symbols first reach their share of the remaining total, less the last of them in every other inner part that has more than one |
| `HuffmanBuild.CountFrequencies` | src/encode/huffman.rs:67-74 | how often each symbol is coded with each table |
| `HuffmanBuild.Refine` | src/encode/huffman.rs:66-80 | each table becomes the optimal one for the counts, floored at one, of the groups that chose it |
| `Sizes.RefinedShortest` | src/encode/huffman.rs:66-80 | a refined table codes the groups that chose it, with one use of each symbol absent from them, in the fewest bits any table within the limit can |
| `HuffmanBuild.FourPasses` | src/encode/huffman.rs:63-80 | the tables written are the seed tables refined four times |
| `HuffmanBuild.CodingComplete` | src/encode/huffman.rs:59-96 | every table written is complete, with lengths from 1 to 17 |
| `HuffmanBuild.BuildCoding` | src/encode/huffman.rs:59-96 | group count, final selectors, final lengths and their canonical codes |
| `MoveToFront.FindInUse` | src/encode/mtf.rs:33-42 | exactly the byte values that occur, by `InUseAscends` in ascending order |
| `MoveToFront.InUseAscends` | src/encode/mtf.rs:33-42 | the list of values in use strictly ascends, and holds a value exactly when it occurs |
| `MoveToFront.Encode` | src/encode/mtf.rs:45-72 | the list of values in use and the symbol stream |
| `MoveToFront.FlushZeroRun` | src/encode/mtf.rs:75-87 | a run's bijective base-two digits, least significant first |
| `MoveToFront.DigitsDecode` | src/lib.rs:876-890 | the digits of a run sum back to it from any digit place, and no legal run is refused |
| `MoveToFront.EncodeBounds` | src/encode/mtf.rs:45-72 | at most one symbol a byte and the end mark, all inside the alphabet |
| `MoveToFront.BlockDecodes` | src/lib.rs:864-959 | decoding the symbols of a block under any size that admits it gives the block |
| `MoveToFront.SymbolSize` | src/lib.rs:876-959 | one symbol under a smaller declared size does the same, or is refused because the bytes do not fit |
| `MoveToFront.SymbolFitsWords` | src/lib.rs:876-890 | as long as symbols are accepted the run's digit place stays below 32 and the run within the size, and the sum checked fits 33 bits |
| `MtfArena.Arena.constructor` | src/lib.rs:839-853 | the windows hold the bytes in use, then zeros |
| `MtfArena.Arena.ShortMove` | src/lib.rs:916-921 | a move within the front window is a list front move |
| `MtfArena.Arena.LongMove` | src/lib.rs:922-952 | a cascade through the windows is a list front move; windows stay disjoint, ascending and inside the arena |
| `MtfArena.Arena.Repack` | src/lib.rs:941-951 | repacking at the top keeps the list: no cell is overwritten before it is read |
| `MtfArena.Arena.Front` | src/lib.rs:910-952 | the arena refines a 256-entry move-to-front list |
| `RunLength.GroupExpands` | src/encode/rle1.rs:33-43 | a group decodes to its run wherever the byte before it differs or was forgotten |
| `RunLength.GroupsExpand` | src/encode/rle1.rs:3-8 | a block of separated groups decodes on its own to the runs they stand for |
| `RunLength.FeedGroups` | src/encode/rle1.rs:46-89 | splitting loses nothing, and neighbouring groups of one byte only meet behind a count |
| `RunLength.FeedAppend` | src/encode/rle1.rs:46-51 | where the input is cut does not matter to the groups |
| `RunLength.Splitter.Push` | src/encode/rle1.rs:62-71 | one byte closes at most one group, the one that `Runs.GroupsAre` determines |
| `RunLength.Splitter.Take` | src/encode/rle1.rs:74-88 | hands back the group still open |
| `Runs.GroupsAre` | src/encode/rle1.rs:46-89 | the groups of a plaintext are the one list that spells it out with every run taken as far as 259 bytes allow |
| `Runs.NoCodingIsShorter` | src/encode/rle1.rs:3-8 | no byte string that the decoder expands to the plaintext, ending outside a run of four, is shorter than its coded groups |
| `RunLength.ExpandPotential` | src/lib.rs:1182-1205 | 5 times the output plus 254 times the run count grows by at most 259 a step |
| `RunLength.ExpandBound` | src/lib.rs:1182-1205 | n cells give at most 259n/5 bytes |
| `RunLength.ExpandMost` | src/lib.rs:1182-1205 | the exact maximum for every n: no n cells give more than n + 254 * (n / 5) bytes, and some give as many, which for multiples of five is 259n/5 |
| `Walking.WalkCursor.Step` | src/lib.rs:1182-1205 | one step moves one cell's worth of plaintext into the output and the CRC |
| `Walking.WalkCursor.Finish` | src/lib.rs:1208-1219 | the rest of the plaintext, and its CRC |
| `Walking.WalkPair` | src/lib.rs:1224-1234 | two interleaved walks end as each would alone |
| `Walking.PlainBound` | src/lib.rs:1182-1205 | a block of n cells expands to at most 259n/5 bytes, and to at most n + 254 * (n / 5) |
| `Walking.CellFits` | src/lib.rs:1001-1006 | source row and byte fit one 32-bit cell, the row in 24 bits |
| `Crc.FoldAppend` | src/encode/crc.rs:35-61 | the CRC is a left fold, so pieces may be fed one after the other |
| `CrcBits.UpdateDivides` | src/encode/crc.rs:5-61 | one table lookup is dividing the byte in bit by bit, by the generator polynomial |
| `CrcBits.ChecksumDivides` | src/encode/crc.rs:27-74 | the checksum is the complement of the remainder of that division, started from all ones |
| `CrcBits.CombineRotates` | src/encode/crc.rs:76-78 | counted from the lowest, bit i of the new combined CRC is bit (i + 31) mod 32 of the old one xor bit i of the block's |
| `BlockFormat.ParseHeaderExtends` | src/lib.rs:749-824 | a header, or an error in it other than Truncated, is the same on every extension |
| `Refusals.HeaderFields` | src/lib.rs:749-800 | a block's header field by field: which malformed value gets which error and in which order, and what an accepted header's CRC, starting row, byte values and counts are |
| `Refusals.UnaryField` | src/lib.rs:787-797 | a selector is a count of ones ended by a zero; as many ones as there are tables are InvalidBlock at once |
| `Refusals.LengthField` | src/lib.rs:808-820 | a code length is a walk of single steps, `10` up and `11` down, refused exactly when it leaves 1..20, also on the way |
| `Refusals.FiftySymbols` | src/lib.rs:864-875 | symbol k is read with selector number k / 50, and InvalidBlock where there is none |
| `Refusals.PointerOutside` | src/lib.rs:960-967 | a starting row that the block does not have is InvalidBlock |
| `BlockFormat.ListedAscends` | src/lib.rs:755-768 | the byte values read from the map strictly ascend, and are exactly those whose flag is set |
| `BlockFormat.ParseSymbolsExtends` | src/lib.rs:864-959 | so are the symbols after it |
| `BlockFormat.ParseBlockExtends` | src/lib.rs:746-1012 | a block or a hard error is the answer on every extension |
| `Prefixes.BlockIsThere` | src/lib.rs:746-1012 | on part of the input a block is there exactly when all the bits it takes on the whole input are, and it is the same block |
| `BlockFormat.ParseBlockFits` | src/lib.rs:884-902 | a prepared block never exceeds the declared size |
| `BlockFormat.ParseBlockUnderSize` | src/parallel.rs:47-51 | under a smaller size a block succeeds, with the same result, exactly when it does under the larger one and its length fits |
| `BlockFormat.ParseBlockOverflows` | src/lib.rs:884-902 | a block that the smaller size does not admit is BlockOverflow under it |
| `BlockWritten.FlagsParse` | src/encode/mod.rs:186-209 | the two-level symbol map reads back |
| `BlockWritten.SelectorsParse` | src/encode/huffman.rs:267-282 | unary move-to-front selectors read back |
| `BlockWritten.TablesParse` | src/encode/huffman.rs:285-302 | delta-coded lengths read back, every intermediate length staying in 1..20 |
| `BlockWritten.SymbolsParse` | src/encode/mod.rs:174-183 | the coded symbols read back, consuming exactly the written bits |
| `BlockWritten.HeadParses` | src/encode/mod.rs:163-172 | a whole written header reads back |
| `BlockWritten.BlockWritable` | src/encode/mod.rs:158-172 | for every block within the limit all fields fit: the selector count 15 bits, the pointer 24, the group count 3 |
| `BlockWritten.BlockParses` | src/encode/mod.rs:158-184 | a written block parses, under every size that admits it, to its CRC and its transform |
| `BlockWritten.BlockAccepted` | src/lib.rs:884-902 | a written block is accepted exactly when it is no longer than the declared size |
| `BlockWritten.PlainOfBlock` | src/lib.rs:673-683 | its plaintext is the RLE1 expansion of the block |
| `BlockWritten.PlainReaches` | src/lib.rs:1182-1205 | for every block size up to 900000 some prepared block attains that bound |
| `BlockWriting.WriteSymbolMap` | src/encode/mod.rs:186-209 | writes the two-level map |
| `BlockWriting.WriteSelectors` | src/encode/huffman.rs:267-282 | writes each selector's place in the list in unary |
| `BlockWriting.WriteTables` | src/encode/huffman.rs:285-302 | writes each table as a walk from its first length |
| `BlockWriting.WriteSymbols` | src/encode/mod.rs:174-183 | writes every symbol in the code of its group's table |
| `BlockWriting.WriteBlock` | src/encode/mod.rs:158-184 | appends the block's bits and nothing else |
| `BlockReading.ReadInUse` | src/lib.rs:755-768 | the byte values in use, by `BlockFormat.ListedAscends` in ascending order, with the error and the position of the parse |
| `BlockReading.ReadSelectors` | src/lib.rs:785-800 | selectors with the move-to-front undone; InvalidBlock on an index out of range |
| `BlockReading.ReadLength` | src/lib.rs:808-820 | one delta-coded length; InvalidHuffman exactly when it leaves 1..20 |
| `BlockReading.ReadTables` | src/lib.rs:802-824 | every table's lengths, each built into a decode table |
| `BlockPreparing.ReadHeader` | src/lib.rs:749-824 | all header fields, or the first error of the parse |
| `BlockPreparing.ApplySymbol` | src/lib.rs:876-958 | one symbol changes run, list, bytes and counts as specified, or is refused with that error |
| `BlockPreparing.ReadSymbols` | src/lib.rs:854-959 | the whole symbol loop, its errors, the byte counts and the position handed back |
| `StreamFormat.DecodeByBlocks` | src/lib.rs:622-671 | decoding everything is decoding one block and then the rest from the committed position |
| `StreamFormat.NextBlockExtends` | src/lib.rs:532-539 | a block or a hard error on a prefix is also the answer on every extension; after Truncated, and at a clean end, decoding may go on from the committed position |
| `StreamFormat.HaltedCommits` | src/lib.rs:622-671 | a call that ends in an error has committed past something exactly when a valid header, or an end mark with the right CRC, stood in front of it |
| `Refusals.StreamHeader` | src/lib.rs:626-650 | between streams: nothing is a clean end; then Truncated, InvalidMagic and InvalidLevel in this order, or the blocks under 100000 bytes times the level digit |
| `Refusals.UnknownMagic` | src/lib.rs:651-671 | inside a stream anything but the two magic numbers is InvalidMagic, and fewer than 48 bits Truncated |
| `Integrity.BlockChecked` | src/lib.rs:673-684 | at a block that parses, decoding goes on exactly when the CRC of its plaintext is the one stored with it, and is CrcMismatch otherwise |
| `Integrity.EndChecked` | src/lib.rs:651-671 | at an end mark, decoding goes on exactly when the combined CRC is the one stored there |
| `Integrity.WrongBlockCrc` | src/lib.rs:673-684 | every written block with any stored CRC but its plaintext's is CrcMismatch, whatever follows |
| `Integrity.WrongCombinedCrc` | src/lib.rs:651-671 | every written stream with any other combined CRC in its end mark is CrcMismatch, whatever follows |
| `BlockDecoding.BlockDecoder.PrepareBlock` | src/lib.rs:746-1012 | parses one block and leaves its successor vector, or the error of the parse |
| `BlockDecoding.BlockDecoder.DecodeBlock` | src/lib.rs:673-684 | appends the plaintext, or CrcMismatch exactly when its CRC is not the stored one, by `Integrity.BlockChecked`; the combined CRC only moves on success |
| `BlockDecoding.BlockDecoder.Run` | src/lib.rs:622-671 | one block's plaintext, a clean end, or the error; position and state are committed at the last boundary |
| `BlockDecoding.BlockDecoder.NextBlockInto` | src/lib.rs:611-620 | the same, and an error leaves the output as it was |
| `BlockDecoding.BlockDecoder.PrepareNext` | src/lib.rs:690-741 | headers and end marks as in Run, the block prepared but not folded in |
| `BlockDecoding.BlockDecoder.Rebase` | src/lib.rs:594-607 | dropping consumed bytes leaves what is left to decode unchanged |
| `BlockDecoding.DecodeByPreparing` | src/lib.rs:690-741 | preparing, checking and folding one block and then decoding the rest is decoding everything |
| `WholeBuffer.FinishSerially` | src/parallel.rs:228-247 | the serial loop computes DecodeAll from any boundary, errors included |
| `WholeBuffer.DecompressToVecWith` | src/lib.rs:1255-1330 | the pipelined decoder returns the same bytes or the same error as serial decoding, for every input |
| `Walking.Walk` | src/lib.rs:676-677 | one walk appends the plaintext and returns its CRC |
| `Continuations.Concatenation` | src/lib.rs:519-527 | concatenated files decode to concatenated plaintexts, or to the second one's error |
| `Continuations.ErrorsStay` | src/lib.rs:532-539 | every error but Truncated is final |
| `Continuations.PrefixIsShortOrWhole` | src/lib.rs:163-165 | a cut-off input is never taken for a corrupt one |
| `Continuations.FilesConcatenate` | src/lib.rs:1240-1243 | compressed files of any levels may be concatenated |
| `Scanning.MatchesAre` | src/parallel.rs:84-88 | the list holds exactly the offsets at which the magic lies wholly inside the input |
| `Scanning.MatchesAscend` | src/parallel.rs:112 | the list ascends |
| `Scanning.MatchesSplit` | src/parallel.rs:121-137 | splitting the range splits the list |
| `Scanning.PrefixEntry` | src/parallel.rs:55-73 | bit k is set exactly for bytes whose low 8 - k bits begin the magic |
| `Scanning.PrefixFindsAll` | src/parallel.rs:51-54 | the filter loses no magic |
| `Scanning.Roll` | src/parallel.rs:91-96 | the rolling register holds the eight bytes from the current one, zero-padded |
| `Scanning.ScanByte` | src/parallel.rs:97-108 | all offsets inside one byte, once each, in order |
| `Scanning.ScanRange` | src/parallel.rs:88-110 | appends exactly the offsets that begin in the range, those straddling its end included |
| `Scanning.ScanCandidates` | src/parallel.rs:113-137 | all offsets in the input, whatever the chunk size |
| `Speculation.PrepareSpeculative` | src/parallel.rs:156-174 | a guess is prepared exactly when a block parses there under the largest size |
| `Speculation.SpeculatePair` | src/parallel.rs:199-222 | both results are what each candidate alone decodes to, or none |
| `Speculation.SpeculateAll` | src/parallel.rs:580-599 | the map holds exactly the candidates that decode, each with the genuine decode at its offset |
| `Speculation.StartsDecode` | src/parallel.rs:113-137 | every block that serial decoding hands out begins at a magic and decodes under the largest size |
| `Speculation.AcceptStep` | src/parallel.rs:396-407 | accepting a genuine decode whose length fits the declared size is what serial decoding does there |
| `Speculation.Stitch` | src/parallel.rs:268-320 | the segments one after the other |
| `Speculation.Assemble` | src/parallel.rs:328-441 | for every map of genuine decodes, the bytes and the error are those of serial decoding; the chain takes every block that serial decoding hands out up to the first one missing from the map, and counts them |
| `Speculation.DecodeParallel` | src/parallel.rs:541-602 | scan, speculate and chain equal serial decoding, whatever the thresholds, pairing and chunk size; when it speculates, every block that serial decoding hands out is taken by the chain, none by the fallback |
| `Streaming.TrackStep` | crabz2-wasm/src/lib.rs:210-245 | after every step the decoder is in step with decoding any completion of the input, or the error is that of every completion |
| `Streaming.TrackPush` | crabz2-wasm/src/lib.rs:174-182 | pushing keeps it in step |
| `Streaming.TruncatedAgain` | crabz2-wasm/src/lib.rs:235-238 | however many truncated attempts since the last compaction, the decoder stands past whole framing exactly when the bits they saw begin with it, and otherwise where the compaction left it |
| `Streaming.BlockNeedsMore` | crabz2-wasm/src/lib.rs:235-238 | where an attempt ran out of input, a block found with more of it ends in bits that were not there |
| `Streaming.Bz2Decoder.Compact` | crabz2-wasm/src/lib.rs:268-274 | drops committed bytes and leaves what is left unchanged; less than a byte of the buffer is committed afterwards |
| `Streaming.Bz2Decoder.ArmRetry` | crabz2-wasm/src/lib.rs:253-265 | the next threshold is above the buffer: the previous block's size plus slack or 64 KiB when the buffer is below that, else 64 KiB more or double |
| `Streaming.Bz2Decoder.Await` | crabz2-wasm/src/lib.rs:84-89 | the retry rule keeps the cost of a block's truncated attempts within twice the last one, and within what the buffer must reach for the next |
| `Streaming.Bz2Decoder.Turn` | crabz2-wasm/src/lib.rs:216-241 | one attempt: behind a block the size recorded is the whole bytes of the buffer that it took, and behind a truncated attempt the threshold is the one for that size |
| `Streaming.Bz2Decoder.Pump` | crabz2-wasm/src/lib.rs:210-245 | hands out plaintext and stays in step, or reports an error that is final; the size recorded is that of the last block handed out and 0 exactly before the first; after an attempt no further block is in the buffer, the threshold is the one for that size, and committed bytes are still there exactly when whole framing stood in front of the attempt |
| `Streaming.Bz2Decoder.Push` | crabz2-wasm/src/lib.rs:174-182 | an error is reported only when every continuation decodes to it; a finished or failed decoder refuses; a push below the threshold returns nothing, and any other hands out all the blocks there are; over every run the truncated attempts together go over at most twice the bytes pushed |
| `Streaming.Bz2Decoder.Finish` | crabz2-wasm/src/lib.rs:185-197 | everything handed out is what the whole input decodes to, or the error is the one decoding it gives; a second call returns nothing |
| `Streaming.DecodeInChunks` | crabz2-wasm/src/lib.rs:174-275 | for every chunking, pushes and finish come to decoding the concatenation |
| `Packing.PackFine` | src/encode/mod.rs:131-142 | no group is split or lost, no block is empty, and every block stays within the limit |
| `Packing.BlocksFine` | src/encode/mod.rs:131-142 | the blocks of a plaintext spell it out, each decodable on its own |
| `Packing.CompressedUnique` | src/encode/mod.rs:211-216 | a plaintext and a level determine the compressed bytes |
| `Partition.BlocksAre` | src/encode/mod.rs:131-142 | the blocks of a plaintext are the one way to cut its groups in which no block is above the limit and each begins with a group for which the one before had no room |
| `Partition.OneBlock` | src/encode/mod.rs:136-139 | a plaintext whose groups all fit is one block |
| `Partition.LevelBlocks` | src/encode/mod.rs:49-59 | a file has at most one block exactly when its coded form is at least 19 bytes below the declared size |
| `Partition.NoFewerBlocks` | src/encode/mod.rs:131-142 | no other way to cut the groups within the limit makes fewer blocks |
| `Encoding.Encoder.constructor` | src/encode/mod.rs:87-101 | writes the header |
| `Encoding.Encoder.Push` | src/encode/mod.rs:104-110 | the state depends only on the concatenation of what was pushed |
| `Encoding.Encoder.Commit` | src/encode/mod.rs:136-142 | places the group in the block being built, or in the next one exactly when it would not fit, by `Partition.BlocksAre` |
| `Encoding.Encoder.FlushBlock` | src/encode/mod.rs:145-155 | writes the block and folds its CRC; does nothing when it is empty |
| `Encoding.Encoder.Drain` | src/encode/mod.rs:127-129 | hands over bytes without changing what the file will be; less than a byte stays |
| `Encoding.Encoder.Finish` | src/encode/mod.rs:113-121 | drained bytes and the last ones together are the compressed form of everything pushed |
| `Encoding.CompressInCalls` | src/encode/mod.rs:71-75 | any pushes and drains in any order give the bytes of one push |
| `Encoding.Compress` | src/encode/mod.rs:212-216 | the compressed file decodes to the plaintext |
| `RoundTrips.HeaderAlone` | src/lib.rs:622-671 | a header alone is committed although decoding halts as truncated |
| `RoundTrips.OneBlockDecodes` | src/encode/mod.rs:158-184 | decoding over a written block appends its plaintext and folds its CRC |
| `RoundTrips.BlocksDecode` | src/encode/mod.rs:145-155 | so over all blocks of a stream |
| `RoundTrips.FileDecodes` | src/encode/mod.rs:211-216 | for every byte string and every level, decoding the compressed form succeeds and returns exactly that string |
| `RoundTrips.FileBlocks` | src/encode/mod.rs:131-155 | decoding a compressed file hands out as many blocks as the encoder made of the plaintext, so that many the parallel decoder takes |
| `KnownAnswers.FileDecodesTo` | src/lib.rs:622-671 | a 38-byte file given literally decodes to its four bytes: header, map, selector, two tables, codes, runs, starting row and both CRCs |

## Left out

- Rayon pools, thread-locals, core detection and the choice between one and two candidates per task: scheduling only; `Speculation.DecodeParallel` takes the threshold, the pairing and the chunk size as parameters and holds for all of them.
- The `unsafe-fast` variants, `phasetime`, capacity reservation and the output-size estimate: performance only.
- `Crabz2Reader`, `Crabz2Writer`, the wasm-bindgen glue, the demo, examples, benches and fuzz harnesses: adapters around the modelled machines.
- Compression ratio and the thresholds in `group_count`: tuning. `Grouping.GroupCount` follows the code, but nothing is claimed about the choice.
- The library sort in `package_merge` is modelled by an insertion function with the same key; the library search `position` is a loop.
- The first seeding loop of `sais` is modelled by collecting the LMS positions and then placing them from the back, which is also what the second seeding does.
- Wrap-around of `u32` and `u64` counters that only a plaintext of billions of bytes, or weights near 2^64, could reach: counts are unbounded integers. `SuffixArrays.Sais` requires positions below the `EMPTY` mark, and `CodeLengths.PackageMergeLengths` an arena below its `NONE` mark, as the source's own types do. Code numbers are unbounded too; under the Kraft inequality those of at most 32 bits fit the source's words.
- The mask arithmetic of the package-merge limit above 31 (`limit >= 32`): the only caller uses 17.
- Error detection by the CRC: that it is compared, and what it computes, is proved; nothing is claimed about which corruptions leave it unchanged.
- `assign_selectors` starts from the largest `u64` as the best cost; the model takes the first table unconditionally, which is the same for any cost below that value.
