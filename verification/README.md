# daqbuf: a verified model of the archive's critical paths

The daqbuf archive stores the readings of many channels in data files and reads them back. This
project models the three places in it where a mistake makes stored data unreadable, mixes it up,
or registers it under the wrong name, and proves what each of them promises. It is written for
Dafny 4.11; `dafny verify dfyconfig.toml` checks all of it.

**The compression stack** (`daqbuf-bitshuffle`).

- `Lz4Format` says what an LZ4 block means and which byte strings a decoder has to accept.
  `Lz4Parsing` proves that its reader accepts exactly the encodings of blocks that keep the
  end-of-block rules, `Lz4Layout` where every byte of a block stands. `Lz4Greedy` says which block
  the compressor is to find for an input, `Lz4Matches` and `Lz4Encoder` are the compressor (hash
  table, catch-up, word by word comparison, lengths in steps of 255, copies that overshoot),
  `Lz4Copy` and `Lz4Decoder` the safe decoder (overlapping matches through the two offset tables).
  `Lz4RoundTrip` joins them.
- `BitWords`, `Matrix` and `BitTranspose` say what shuffling bits means: the transposition of a
  matrix of bits, and its inverse. `BitshuffleScalar`, `BitshuffleSse` and `BitshuffleAvx` are the
  kernels, `Simd` the vector instructions they use. All kernels of a step are proved equal to the
  same function, so what one instruction set shuffles any other unshuffles.
- `IoChain` is the lock protocol of the pointer chain as a transition system over any number of
  threads, `IoChainRuns` what holds in all its runs. `SerialChain` is the chain without threads.
- `Blocks` and `BlockedWrap` put the pieces together: blocks with a length in front, whole
  buffers, and the theorem that decompressing undoes compressing. `ParallelBlocks` shows that runs
  by many threads put out the bytes of the serial run.

**The event file** (`daqbuf-disk`).

- `EventFormat` says what reading the frames of a data file one after the other means.
  `NeedMinBuffer` and `EventChunker` are the incremental parser, `EventReading` what a whole run of
  it gives, `EventFields` which events are given out in terms of their bytes, `EventFile` the writer, `EventRoundTrip` the theorem that reading undoes writing.
- `TimeSearch` has linear scans over lists of times, `IndexSearch` and `StaticSearch` the two binary
  searches that are to agree with them, `DataOpen` and `DataWalk` the walk over the files of a
  range. `GeneratedIndex` joins the writer's index to the search, `GeneratedStatic` the files of
  scalars to the search without one.
- `FileRead`, `FileContent` and `ReadWorkers` are the read jobs, the stream that reads ahead, and
  the threads that take the jobs. `ReadBack` goes the whole way: written, searched, read ahead, parsed.

**Series registration** (`daqbuf-dbpg`). `SeriesTable` is the table with its statements,
`SeriesDecide` the decision on a channel's rows, `SeriesByChannel` and `SeriesBatch` a batch as a
transaction.

`Bytes`, `BigEndian`, `Sequences` and `Netpod` hold what several parts share.

Code that works by changing things is a method with loops and a mutable buffer or a class with the
source's fields, proved against a function or relation; the properties are then proved of that
function or relation.

## Where the code and its promises differ

- The whole stack does not bring back every buffer. A block with more bytes than the compressor
  takes (2113929216) is written as an empty frame and reported as a success, and a block of
  2^32 bytes or more is cut to its size as an `int`; decompressing refuses both.
  `BlockedWrap.RoundTrip` has the exact condition, `TooLargeBlocks` two instances.
- The decoder accepts an offset of zero, which the format does not allow. It stays inside its
  buffers, but what it leaves is not determined; `Lz4RoundTrip.AcceptedHasMeaning` says exactly
  which accepted inputs have a meaning, `ZeroOffsetIsAccepted` has a family without.
- The errors for unordered data in both index searches are never reached, on any data
  (`IndexSearch.FindGe`). The two ways of searching differ on a reversed range only
  (`StaticSearch.AnswerIsScan`).
- What the parser makes of a stream depends on how it is cut, for exactly those streams that can
  be read in one piece and have an event shorter than 28 bytes or longer than the parser is ready
  to wait for (`EventFormat.RegularIffAnyCut`, `EventReading.CutMatters`). `EventReading.ReadFile`
  has the outcome for every stream and every cut.
- A read job writes every answer of the system to the start of its buffer. It is right on every
  file and memory if and only if the first answer has all there is (`FileRead.RightIffFull`);
  after a short answer the bytes are wrong at the start wherever the file differs from its end
  (`FileRead.WrongAnyhow`).
- Which series is the latest is open, and left to the order in which the database gives the rows,
  unless one row of the channel is last used later than all others
  (`SeriesBatch.SettledIffAloneLatest`). Two types of one channel registered in one batch are used
  at the same time (`SeriesBatch.TogetherIsOpen`).
- The replies of a batch are sent before its transaction commits. If the commit fails, the created
  series that were replied are not in the table (`SeriesBatch.WithoutCommit`).

## Model

| member | source | states |
|---|---|---|
| `Lz4Format.RepeatCopy` | daqbuf-bitshuffle/src/lz4.c:1246-1273 | the copy a match stands for, byte by byte, adds as many bytes as the match is long |
| `Lz4Parsing.ParseComplete` | daqbuf-bitshuffle/src/lz4.c:1150-1275 | every encoding of a block that keeps the end-of-block rules is read back as that block |
| `Lz4Parsing.ParseSound` | daqbuf-bitshuffle/src/lz4.c:1150-1275 | whatever the reader accepts is the encoding of the block it returns, and that block keeps the end-of-block rules |
| `Lz4Parsing.ParseExactly` | daqbuf-bitshuffle/src/lz4.c:1150-1275 | the reader accepts a byte string for an output size exactly if it is the encoding of a block that fits it |
| `Lz4Copy.RepeatCopyRepeats` | daqbuf-bitshuffle/src/lz4.c:1246-1273 | the copy is the only extension in which each new byte is the one `offset` places back |
| `Lz4Copy.LongerDistance` | daqbuf-bitshuffle/src/lz4.c:1136-1137 | a run that repeats at an offset also repeats at every multiple of it that is in reach |
| `Lz4Copy.WildCopyBack` | daqbuf-bitshuffle/src/lz4.c:207-213 | the copy by eights from 8 or more places back repeats at that distance, and writes at most 7 bytes beyond its end |
| `Lz4Copy.DistanceIsMultiple` | daqbuf-bitshuffle/src/lz4.c:1136-1137 | after the prologue the distance is a multiple of the offset, and at least 8 |
| `Lz4Copy.CopyMatch` | daqbuf-bitshuffle/src/lz4.c:1246-1274 | a match of any offset and length is copied as byte by byte, with nothing written at or beyond the output limit |
| `Lz4Decoder.ReadLiteralLength` | daqbuf-bitshuffle/src/lz4.c:1156-1168 | the literal length is the one the format has, or a run that leaves the input either way |
| `Lz4Decoder.ReadMatchLength` | daqbuf-bitshuffle/src/lz4.c:1198-1210 | the match length is the one the format has, or the input is refused where the format refuses it |
| `Lz4Decoder.Turn` | daqbuf-bitshuffle/src/lz4.c:1150-1274 | one turn of the loop takes what the format reader finds: a sequence whose bytes it appends, the closing literals, or an error |
| `Lz4Decoder.DecompressSafe` | daqbuf-bitshuffle/src/lz4.c:1110-1285 | for every input, well formed or not: the run ends, stays in both buffers, succeeds exactly on what the reader accepts, returns the block's length and leaves its meaning |
| `Lz4RoundTrip.AcceptedHasMeaning` | daqbuf-bitshuffle/src/lz4.c:1194-1196 | an accepted input has a meaning exactly if no offset in it is zero |
| `Lz4RoundTrip.ZeroOffsetIsAccepted` | daqbuf-bitshuffle/src/lz4.c:1194-1196 | every block that starts with a match of any length at an offset of zero and has 8 or more literals behind it is accepted, by every large enough buffer, and has no meaning |
| `Lz4RoundTrip.DecodeZeroOffset` | daqbuf-bitshuffle/src/lz4.c:1110-1285 | the decoder reports success on it |
| `Lz4Layout.SequenceLayout` | daqbuf-bitshuffle/src/lz4.c:536-596 | the bytes of a sequence, one by one: the number of literals in the upper half of the token and the match length less 4 in the lower, 15 standing for more, which follows in bytes of 255; the literals; `offset % 256` and then `offset / 256`; the rest of the match length |
| `Lz4Layout.LastLayout` | daqbuf-bitshuffle/src/lz4.c:631-653 | the bytes of the closing literals: token, the rest of their number, and the literals |
| `Lz4Layout.DecodeRun` | daqbuf-bitshuffle/src/lz4.c:1150-1275 | for every byte x and every run of 8 or more closing literals, the bytes 0x10, x, 1, 0 and the run decode to x five times and the run |
| `Lz4Layout.EndOfBlock` | daqbuf-bitshuffle/src/lz4.c:457-459 | in what the compressor puts out the last 5 bytes are literals and the last match starts at least 12 bytes before the end |
| `Lz4Layout.BoundNumbers` | daqbuf-bitshuffle/src/lz4.c:372-372 | the bound is n + n/255 + 16 up to 2113929216 bytes, and 0 beyond |
| `Lz4Matches.CommonPrefixIsLongest` | daqbuf-bitshuffle/src/lz4.c:315-331 | no longer run agrees than the common prefix that is counted |
| `Lz4Matches.TrailingZerosCounts` | daqbuf-bitshuffle/src/lz4.c:248-260 | the number of trailing zero bits is what counting them one by one gives |
| `Lz4Matches.ZeroBytes` | daqbuf-bitshuffle/src/lz4.c:248-260 | the number of trailing zero bits, shifted by 3, is the number of the lowest byte that is not zero |
| `Lz4Matches.CommonBytes` | daqbuf-bitshuffle/src/lz4.c:248-260 | of the exclusive or of two words this is the number of bytes they have in common |
| `Lz4Matches.Count` | daqbuf-bitshuffle/src/lz4.c:315-331 | counting by words, then 4, 2 and 1, gives exactly the common prefix up to the limit |
| `Lz4Matches.FindMatch` | daqbuf-bitshuffle/src/lz4.c:493-531 | the search gives what `Lz4Greedy.Search` does: each place tried goes into the table, the first 64 one by one and later ones in growing steps, and the first that has an earlier position near enough with the same 4 bytes is taken; none if the try after it would not leave the last 12 bytes alone |
| `Lz4Matches.CatchUp` | daqbuf-bitshuffle/src/lz4.c:533-534 | the match is extended to the front as far as the bytes agree and not beyond the anchor: the same as `Lz4Greedy.Back`, byte by byte |
| `Lz4Matches.PutPositionOnHash` | daqbuf-bitshuffle/src/lz4.c:406-414 | every position of an input of the table's size fits its entry, also in 16 bits |
| `Lz4Encoder.CoversMore` | daqbuf-bitshuffle/src/lz4.c:533-583 | a genuine match extends what the emitted sequences account for |
| `Lz4Encoder.SequencesSize` | daqbuf-bitshuffle/src/lz4.c:536-596 | the emitted sequences take at most n + n/255 bytes for n bytes of input |
| `Lz4Encoder.EmitLength` | daqbuf-bitshuffle/src/lz4.c:542-548 | a length is written in steps of 255 and a smaller last byte |
| `Lz4Encoder.EmitMatchLength` | daqbuf-bitshuffle/src/lz4.c:587-594 | a match length, written two 255 at a time, has the same bytes |
| `Lz4Encoder.EmitLiterals` | daqbuf-bitshuffle/src/lz4.c:536-554 | token, length and literals; the overshooting copy stays in the bound |
| `Lz4Encoder.EmitSequence` | daqbuf-bitshuffle/src/lz4.c:556-596 | the finished sequence extends the encoding by its own encoding, and the block by one genuine match, as long as the bytes agree before the last 5 |
| `Lz4Encoder.MatchRun` | daqbuf-bitshuffle/src/lz4.c:556-625 | every match of a run without literals is genuine, in reach, and keeps the end-of-block rules; the run is that of `Lz4Greedy.Follow`, with the table it leaves |
| `Lz4Encoder.DisciplineFits` | daqbuf-bitshuffle/src/lz4.c:457-459 | the compressor's margins of 12 and 5 bytes imply every end-of-block test of the decoder |
| `Lz4Encoder.LastLiterals` | daqbuf-bitshuffle/src/lz4.c:631-653 | what is left is written as literals, and the whole is the encoding of a block that means the input |
| `Lz4Encoder.CompressGeneric` | daqbuf-bitshuffle/src/lz4.c:435-654 | for any table and hash: at most n + n/255 + 2 bytes, the encoding of a block that means the input and of none but the block of `Lz4Greedy.GreedyBlock`, nothing written beyond it; 0 for inputs too large |
| `Lz4Encoder.Compress` | daqbuf-bitshuffle/src/lz4.c:657-701 | the entry the stack uses: the greedy block of a table of zeros, with 8192 places below 65547 bytes, else 4096 and matches at most 65535 bytes back |
| `Lz4Greedy.RunIsOneMatch` | daqbuf-bitshuffle/src/lz4.c:485-625 | from 14 equal bytes on the greedy block is one literal, one match of all but the last 5 bytes, and these |
| `Lz4Encoder.FiveBytes` | daqbuf-bitshuffle/src/lz4.c:389-395 | the hash depends on the first five of its eight bytes only |
| `Lz4RoundTrip.CompressedIsRead` | daqbuf-bitshuffle/src/lz4.c:435-654 | any compressed form, read for any large enough buffer, is a block that means the input |
| `Lz4RoundTrip.CompressedIsInjective` | daqbuf-bitshuffle/src/lz4.c:435-654 | a compressed form belongs to one input only |
| `Lz4RoundTrip.RoundTrip` | daqbuf-bitshuffle/src/lz4.c:1281-1285 | for every input up to the maximum, decompressing into a buffer at least as long succeeds, returns the input's length and gives the input back |
| `BitWords.TransposesBits` | daqbuf-bitshuffle/src/bitshuffle_core.c:89-96 | the three exchange steps transpose the 8 by 8 bits of a word |
| `BitWords.TransposesTwice` | daqbuf-bitshuffle/src/bitshuffle_core.c:89-96 | done twice they give the word back |
| `BitTranspose.ShuffledIsTransposed` | daqbuf-bitshuffle/src/bitshuffle_core.c:256-276 | bit (8 j + k) size + i of a shuffled block is bit k of byte j of element i |
| `BitTranspose.ShuffledDigits` | daqbuf-bitshuffle/src/bitshuffle_core.c:256-276 | the same on the bytes as numbers: binary digit r of byte q is digit k of byte j of element i, where 8 q + r is (8 j + k) size + i |
| `BitTranspose.UnshuffleShuffled` | daqbuf-bitshuffle/src/bitshuffle_core.c:349-367 | unshuffling undoes shuffling |
| `BitTranspose.ShuffleUnshuffled` | daqbuf-bitshuffle/src/bitshuffle_core.c:256-276 | shuffling undoes unshuffling |
| `BitshuffleScalar.TransByteElemRemainder` | daqbuf-bitshuffle/src/bitshuffle_core.c:143-170 | from a start divisible by 8 the remaining elements' bytes are transposed; another start is refused with -80 |
| `BitshuffleScalar.TransByteElemScal` | daqbuf-bitshuffle/src/bitshuffle_core.c:174-178 | the bytes of the elements, transposed |
| `BitshuffleScalar.TransBitByteRemainder` | daqbuf-bitshuffle/src/bitshuffle_core.c:182-215 | from a start divisible by 8 on, the bits of each 8 bytes go to 8 rows |
| `BitshuffleScalar.TransBitByteScal` | daqbuf-bitshuffle/src/bitshuffle_core.c:219-223 | all bits go to their rows |
| `BitshuffleScalar.TransElem` | daqbuf-bitshuffle/src/bitshuffle_core.c:226-240 | groups of bytes, transposed |
| `BitshuffleScalar.TransBitrowEight` | daqbuf-bitshuffle/src/bitshuffle_core.c:244-252 | the eight rows of each byte rank brought together |
| `BitshuffleScalar.TransBitElemScal` | daqbuf-bitshuffle/src/bitshuffle_core.c:256-276 | the whole shuffle is the transposition of bits |
| `BitshuffleScalar.TransByteBitrowScal` | daqbuf-bitshuffle/src/bitshuffle_core.c:281-305 | the bytes of the rows, transposed |
| `BitshuffleScalar.ShuffleBitEightelemScal` | daqbuf-bitshuffle/src/bitshuffle_core.c:308-345 | the bits of each group of eight elements, transposed |
| `BitshuffleScalar.UntransBitElemScal` | daqbuf-bitshuffle/src/bitshuffle_core.c:349-367 | the whole way back is the inverse transposition |
| `Simd.Unpacked8` | daqbuf-bitshuffle/src/bitshuffle_core.c:888-912 | where the bytes of two registers are after an interleaving by bytes |
| `Simd.Unpacked64` | daqbuf-bitshuffle/src/bitshuffle_core.c:918-960 | the same by 8 bytes |
| `Simd.MaskIsColumn` | daqbuf-bitshuffle/src/bitshuffle_core.c:1115-1121 | after k shifts the mask of the top bits collects the bits 7 - k |
| `BitshuffleSse.TransByteElemSse16` | daqbuf-bitshuffle/src/bitshuffle_core.c:888-913 | two byte elements by interleaving, with the scalar remainder, as the scalar kernel |
| `BitshuffleSse.TransByteElemSse32` | daqbuf-bitshuffle/src/bitshuffle_core.c:918-960 | the same for four bytes |
| `BitshuffleSse.TransByteElemSse64` | daqbuf-bitshuffle/src/bitshuffle_core.c:965-1031 | the same for eight bytes |
| `BitshuffleSse.TransElemType` | daqbuf-bitshuffle/src/bitshuffle_core.c:110-127 | groups of 4 or 8 bytes, eight at a time and a remainder, transposed |
| `BitshuffleSse.Hierarchical` | daqbuf-bitshuffle/src/bitshuffle_core.c:1063-1092 | transposing groups, then bytes in groups, then rows of groups is transposing bytes |
| `BitshuffleSse.TransByteElemSse` | daqbuf-bitshuffle/src/bitshuffle_core.c:1035-1093 | for every element size the same as the scalar kernel |
| `BitshuffleSse.TransBitByteSse` | daqbuf-bitshuffle/src/bitshuffle_core.c:1097-1126 | bits to rows by masks, the same as the scalar kernel |
| `BitshuffleSse.TransBitElemSse` | daqbuf-bitshuffle/src/bitshuffle_core.c:1130-1149 | the whole shuffle is the same function of the input |
| `BitshuffleSse.TransByteBitrowSse` | daqbuf-bitshuffle/src/bitshuffle_core.c:1154-1256 | the bytes of the rows by blocks of 8 by 16, the same as the scalar kernel |
| `BitshuffleSse.ShuffleBitEightelemSse` | daqbuf-bitshuffle/src/bitshuffle_core.c:1260-1293 | the groups of eight elements by masks, the same as the scalar kernel |
| `BitshuffleSse.UntransBitElemSse` | daqbuf-bitshuffle/src/bitshuffle_core.c:1297-1314 | the whole way back is the same function of the input |
| `BitshuffleAvx.TransBitElemAvx` | daqbuf-bitshuffle/src/bitshuffle_core.c:1387-1437 | the shuffle with registers of 32 bytes is the same function of the input |
| `BitshuffleAvx.TransByteBitrowAvx` | daqbuf-bitshuffle/src/bitshuffle_core.c:1442-1533 | the bytes of the rows by blocks of 32 by 32, the same as the scalar kernel |
| `BitshuffleAvx.ShuffleBitEightelemAvx` | daqbuf-bitshuffle/src/bitshuffle_core.c:1537-1570 | the groups of eight elements by masks of 32 bits, the same as the scalar kernel |
| `BitshuffleAvx.UntransBitElemAvx` | daqbuf-bitshuffle/src/bitshuffle_core.c:1574-1590 | the way back with registers of 32 bytes is the same function of the input |
| `IoChain.StepKeepsInv` | daqbuf-bitshuffle/src/iochain.c:42-89 | every lock step of every thread keeps the invariant: order of iterations, holders of the locks, pointers in the ring |
| `IoChain.RunKeepsInv` | daqbuf-bitshuffle/src/iochain.c:42-89 | it holds at every moment of every run |
| `IoChainRuns.ReadsAreSerial` | daqbuf-bitshuffle/src/iochain.c:42-89 | for any number of threads and any interleaving, an iteration reads the pointers that the serial run gives it |
| `IoChainRuns.SlotReadBeforeOverwritten` | daqbuf-bitshuffle/src/iochain.c:42-89 | a ring slot is written again only when the iteration that reads it is done |
| `IoChainRuns.LocksAreExclusive` | daqbuf-bitshuffle/src/iochain.c:42-89 | no lock has two holders |
| `IoChainRuns.OldestCanStep` | daqbuf-bitshuffle/src/iochain.c:42-89 | the oldest iteration that is not finished can always step, also while a thread waits with the next-lock in hand |
| `IoChainRuns.NoDeadlock` | daqbuf-bitshuffle/src/iochain.c:42-89 | in every reachable state that is not finished some thread can step |
| `IoChainRuns.RunsAreBounded` | daqbuf-bitshuffle/src/iochain.c:42-89 | a run over finitely many blocks has at most 16 steps a block |
| `IoChainRuns.StuckRunIsComplete` | daqbuf-bitshuffle/src/iochain.c:42-89 | a run that cannot go on has done all blocks and left the serial end pointers |
| `SerialChain.Chain.Claim` | daqbuf-bitshuffle/src/iochain.c:42-89 | without threads: get and set next in order give the old pointers and advance both |
| `BigEndian.ReadWritten` | daqbuf-bitshuffle/src/bitshuffle_core.c:1810-1819 | a number that is written is read again |
| `BigEndian.WrittenRead` | daqbuf-bitshuffle/src/bitshuffle_core.c:1798-1806 | and bytes that are read would be written the same |
| `BigEndian.DigitAt` | daqbuf-bitshuffle/src/bitshuffle_core.c:1798-1806 | digit i from the front is `n / 256^(k-1-i) % 256` |
| `BigEndian.FourBytes` | daqbuf-bitshuffle/src/bitshuffle_core.c:1810-1819 | four bytes are worth 2^24, 2^16, 2^8 and 1 from the front |
| `BigEndian.WriteUint32BE` | daqbuf-bitshuffle/src/bitshuffle_core.c:1798-1806 | the loop writes the four digits and nothing else |
| `BigEndian.ReadUint32BE` | daqbuf-bitshuffle/src/bitshuffle_core.c:1810-1819 | the loop reads the value of the four digits |
| `Blocks.TransBitElem` | daqbuf-bitshuffle/src/bitshuffle_core.c:1629-1643 | whatever the instruction set, the block is shuffled |
| `Blocks.UntransBitElem` | daqbuf-bitshuffle/src/bitshuffle_core.c:1646-1660 | whatever the instruction set, the block is unshuffled |
| `Blocks.CompressLz4Block` | daqbuf-bitshuffle/src/bitshuffle.c:32-74 | a frame of the compressed shuffled block is written, and the chain advanced by what was taken and written |
| `Blocks.DecompressLz4Block` | daqbuf-bitshuffle/src/bitshuffle.c:78-122 | a frame is accepted exactly if it decodes to the block's size; then the block it was made of is written, and the chain advanced in any case |
| `Blocks.PackedIsAccepted` | daqbuf-bitshuffle/src/bitshuffle.c:107-113 | a packed block is accepted exactly if its size is one the compressor handles |
| `Blocks.BlockRoundTrip` | daqbuf-bitshuffle/src/bitshuffle.c:78-122 | an accepted frame gives back the block it was made of, and only that |
| `BlockedWrap.DefaultBlockSizeIs` | daqbuf-bitshuffle/src/bitshuffle_core.c:1828-1836 | the default is the largest multiple of 8 with at most 8192 bytes, but at least 128 |
| `BlockedWrap.PlanCovers` | daqbuf-bitshuffle/src/bitshuffle_core.c:1685-1706 | full blocks, short last block and leftover elements make up the buffer |
| `BlockedWrap.BlockedWrapFun` | daqbuf-bitshuffle/src/bitshuffle_core.c:1667-1721 | for each block function: blocks in order at consecutive places, leftover bytes copied, a negative result exactly if a block fails, and otherwise the count of bytes |
| `ParallelBlocks.SamePlaces` | daqbuf-bitshuffle/src/bitshuffle_core.c:1689-1698 | in every interleaving of any number of threads an iteration reads the block of its number in the serial run, and is told the place where the serial run puts what comes of it |
| `ParallelBlocks.SameBytes` | daqbuf-bitshuffle/src/bitshuffle_core.c:1689-1698 | a run by many threads that cannot go on has put out the very bytes of the serial run and moved both pointers as far |
| `ParallelBlocks.LoopIsSerial` | daqbuf-bitshuffle/src/bitshuffle_core.c:1667-1721 | the block loop without threads is such a serial run, and counts its bytes |
| `BlockedWrap.CompressLz4Bound` | daqbuf-bitshuffle/src/bitshuffle.c:131-150 | the bound is the sum over the blocks and the leftover |
| `BlockedWrap.BoundIs` | daqbuf-bitshuffle/src/bitshuffle.c:131-150 | in numbers, when no block is too large: for n bytes in a block n + n/255 + 20, for each full block and the short one if there is one, and the leftover as it is |
| `BlockedWrap.FramesUnique` | daqbuf-bitshuffle/src/bitshuffle.c:65-69 | a string of frames is cut in one way only |
| `BlockedWrap.RoundTrip` | daqbuf-bitshuffle/src/bitshuffle.c:153-164 | for every size, element size and block size and any two instruction sets: compressing stays in the bound, and decompressing gives the data back and takes exactly the bytes counted, if and only if no block is too large; other block sizes are refused with -81 |
| `BlockedWrap.DefaultBlocksFit` | daqbuf-bitshuffle/src/bitshuffle_core.c:1828-1836 | with the default block size every element size up to 16515072 is safe |
| `BlockedWrap.TooLargeBlocks` | daqbuf-bitshuffle/src/bitshuffle.c:61-63 | two calls whose blocks are too large |
| `EventFormat.Resume` | daqbuf-disk/src/eventchunker.rs:210-519 | reading in two pieces gives what reading in one gives: nothing depends on where a buffer ends |
| `EventFormat.StaysFailed` | daqbuf-disk/src/eventchunker.rs:210-519 | in a regular stream a failure at first is a failure for good |
| `EventFormat.RestWaits` | daqbuf-disk/src/eventchunker.rs:217-220 | what is left over waits for more, and no more than the parser is ready to wait for |
| `NeedMinBuffer.NeedMinBuffer.PollNext` | daqbuf-streams/src/needminbuffer.rs:65-119 | whatever was put back: a buffer has that and as many chunks more as it takes to have enough, in order and no chunk more; without a buffer all is kept; the end, an error and a pause come exactly from the input |
| `EventChunker.EventChunker.HeaderStep` | daqbuf-disk/src/eventchunker.rs:222-252 | the header is taken, waited for, or refused as the format says |
| `EventChunker.EventChunker.RangeStep` | daqbuf-disk/src/eventchunker.rs:281-367 | the counters and the discard decision of an event's time, the stop at the second event past the range, the limit of 100 before it |
| `EventChunker.EventChunker.EventStep` | daqbuf-disk/src/eventchunker.rs:253-511 | an event is taken, waited for, stopped at, or refused as the format says |
| `EventChunker.EventChunker.ParseBuf` | daqbuf-disk/src/eventchunker.rs:210-519 | one call takes the frames a buffer has, and leaves the state and the bytes that reading it gives |
| `EventChunker.EventChunker.PollNext` | daqbuf-disk/src/eventchunker.rs:525-623 | each poll keeps the invariant (order of the end, bytes accounted for, events those of the stream so far), gives one item, and brings the run nearer to its end; logs go first, then statistics once enough bytes are parsed |
| `EventChunker.EventChunker.Drain` | daqbuf-disk/src/eventchunker.rs:525-623 | a whole run: events and stats are the sums over the items, the range is complete in the last item only, errors are reported once |
| `EventFormat.RegularIffAnyCut` | daqbuf-disk/src/eventchunker.rs:210-519 | a stream that can be read in one piece can be read in any pieces if and only if every event up to where reading stops has a length from 28 up to what the parser waits for |
| `EventReading.ReadFile` | daqbuf-disk/src/eventchunker.rs:525-623 | for every stream and every cut: an error exactly if at some cut what has arrived cannot be read in one piece; otherwise the events of reading all in one piece, which are the wanted ones of those taken, each of the type asked for, accepted, and before the end; completeness exactly if an event past the range was seen, and in the stats the bytes parsed; with lengths in bounds the cut does not matter |
| `EventReading.TwoCuts` | daqbuf-disk/src/eventchunker.rs:525-623 | two ways of cutting the same bytes give the same events, unless one is an error; with lengths in bounds both are errors or none |
| `EventReading.CutMatters` | daqbuf-disk/src/eventchunker.rs:584-593 | every stream that can be read in one piece and has an event with a length out of bounds is read as one chunk, and is an error when cut in two at the place that is found |
| `EventReading.BeyondIsSeen` | daqbuf-disk/src/eventchunker.rs:318-327 | "beyond the range" is carried exactly from an event at or past its end, and no such event is given out |
| `EventFields.EventTaken` | daqbuf-disk/src/eventchunker.rs:253-511 | an event that is taken has its fields in order, and is given out exactly if its bytes show the type that is asked for, an accepted shape of one or two dimensions if any, a time not before the last one and before the end of the range; then with the fields its bytes show |
| `EventFields.WhenTaken` | daqbuf-disk/src/eventchunker.rs:253-367 | a whole event is taken exactly if its fields are in order, it is at most 65536, 33554432 or 209715200 bytes long by shape, and it is neither the 101st before the range nor the second past it; at that one reading stops, all else is an error |
| `EventFields.HeaderTaken` | daqbuf-disk/src/eventchunker.rs:222-252 | the header is taken exactly if it has version 0, a length from 8 to 511, and the length again at its end |
| `EventFields.GivenOutIsWanted` | daqbuf-disk/src/eventchunker.rs:210-519 | over all frames of a stream: what is given out are the wanted ones of the events taken, all of them and no other |
| `EventFields.GivenOutFits` | daqbuf-disk/src/eventchunker.rs:437-446 | so every event given out has the type asked for, is accepted, and is before the end of the range |
| `EventFields.FewOutside` | daqbuf-disk/src/eventchunker.rs:318-367 | in every stream at most 100 events before the range are taken and at most one past it, and reading stops only at one more past it |
| `EventFields.LengthAlone` | daqbuf-disk/src/eventchunker.rs:147-152 | a length alone is an error unless it is from 20 to 16384 for scalars, 6144000 for waveforms, 83886080 for images |
| `EventFields.LengthTooLarge` | daqbuf-disk/src/eventchunker.rs:253-280 | a length above 65536, 33554432 or 209715200 is an error however much has arrived |
| `EventFile.EventBuffer` | daqbuf-disk/src/datagen.rs:409-527 | the buffer filled from the front, with the length put over the mark, is the event's layout |
| `EventFile.GenEvent` | daqbuf-disk/src/datagen.rs:400-537 | the event is appended to the file, and its time and place to the index |
| `EventFile.GenTimebin` | daqbuf-disk/src/datagen.rs:313-386 | the file of a time bin has version 0, the name from byte 6 on, and in order of time exactly the events of the bin whose number i has `i % nodes == split` and, when weighted, `i % 20` 0 or 1; the index has them all |
| `EventFile.SplitsShare` | daqbuf-disk/src/datagen.rs:360-379 | the splits 0 to nodes - 1 together write each event of an unweighted bin, and each is written by one of them |
| `EventFile.NameInFile` | daqbuf-disk/src/datagen.rs:388-398 | in the file the name stands from byte 6 on, behind version 0 |
| `EventRoundTrip.WrittenEvent` | daqbuf-disk/src/eventchunker.rs:253-509 | an event that was written is what the parser finds, with all its fields |
| `EventRoundTrip.EventLayout` | daqbuf-disk/src/datagen.rs:409-527 | the bytes of a written event, each at its place |
| `EventRoundTrip.FileIsRead` | daqbuf-disk/src/eventchunker.rs:210-519 | a generated file is read if the name fits and at most 100 events come before the range, and then as exactly the events before its end; otherwise it is an error |
| `EventRoundTrip.ReadGenerated` | daqbuf-disk/src/eventchunker.rs:525-623 | the same through the parser, for every cut into chunks |
| `EventRoundTrip.TooLongToWaitFor` | daqbuf-disk/src/eventchunker.rs:584-593 | a generated event longer than the parser waits for is such a stream, with the place behind its length |
| `TimeSearch.CrossingIsFirstGe` | daqbuf-disk/src/index.rs:14-76 | in an ordered list, duplicates allowed, the only crossing is where a scan from the front stops |
| `TimeSearch.CrossingIsScanBelow` | daqbuf-disk/src/index.rs:78-137 | and the scan from the back stops just before it |
| `TimeSearch.Adjacent` | daqbuf-disk/src/index.rs:14-137 | the two searches land on adjacent entries |
| `TimeSearch.CeilLog2Is` | daqbuf-disk/src/index.rs:236-290 | the bound on the reads is the least power of two that reaches the number of events |
| `IndexSearch.FindGe` | daqbuf-disk/src/index.rs:14-76 | finds a crossing in any list and what the scan finds in an ordered one; an error exactly for a bad length |
| `IndexSearch.FindLargestSmallerThan` | daqbuf-disk/src/index.rs:78-137 | the same for the last entry before the range |
| `StaticSearch.ParseChannelHeader` | daqbuf-disk/src/index.rs:155-179 | a header is accepted exactly if it has version 0, a length of 9 to 256 contained in the buffer, and the same length at its end |
| `StaticSearch.ParseEvent` | daqbuf-disk/src/index.rs:181-202 | an event is accepted exactly if it has a length of 9 to 512 contained in the buffer and the same length at its end, with the time that stands in it; one of less than 20 bytes at the end of a buffer is a panic |
| `StaticSearch.HalfWay` | daqbuf-disk/src/index.rs:262-273 | half the gap in bytes, rounded to events, is half the gap in events |
| `StaticSearch.PositionStatic` | daqbuf-disk/src/index.rs:212-291 | the assertions of the loop hold on every file, the answer follows from the crossing, and at most 2 + ceil(log2 n) events are read |
| `StaticSearch.PositionStaticBelow` | daqbuf-disk/src/index.rs:293-347 | the same for the last event before the range |
| `StaticSearch.AnswerIsScan` | daqbuf-disk/src/index.rs:237-258 | on an ordered file the answer is the scan's, if and only if the file does not lie between the end and the start of a reversed range that is expanded |
| `StaticSearch.BothSearches` | daqbuf-disk/src/index.rs:14-347 | index and file search give the same event, at or after the range's start and before it |
| `DataOpen.PositionFile` | daqbuf-disk/src/dataopen.rs:41-191 | a file is positioned at the event that a scan finds, with or without index; with an index it is an error exactly unless this has 2 to 524288000 bytes, two beyond a multiple of 16 |
| `DataWalk.OpenFilesInner` | daqbuf-disk/src/dataopen.rs:254-288 | one set for each bin that overlaps the range and no other, with its time bin, in order; its file is opened if and only if the bin has an event in the range, at the first event at or after its start; so all events in the range are read out and none before it |
| `DataWalk.WalkBack` | daqbuf-disk/src/dataopen.rs:368-402 | back to the last bin that has an event before the range, whose file is opened there; sets without files for the bins passed on the way |
| `DataWalk.WalkOn` | daqbuf-disk/src/dataopen.rs:404-416 | from there on one set for each bin, with its file from its start |
| `DataWalk.OpenExpandedFilesInner` | daqbuf-disk/src/dataopen.rs:348-426 | if an event precedes the range, the sets are those of the walk back and of the whole files after it, and read out exactly all events from the last one before the range on; otherwise the sets without files of the walk back and then exactly those of the plain range |
| `GeneratedIndex.EntryOf` | daqbuf-disk/src/datagen.rs:528-535 | entry i of the index has the time of event i and the place where the file stood |
| `GeneratedIndex.EventInFile` | daqbuf-disk/src/datagen.rs:400-537 | event i stands in the file at its place |
| `GeneratedIndex.FindInGenerated` | daqbuf-disk/src/index.rs:14-76 | searching the written index gives the place in the written file of the event that a scan finds |
| `GeneratedStatic.GeneratedIsStatic` | daqbuf-disk/src/index.rs:155-202 | a written file of scalars of one length can be searched without an index: every event is where the search looks for it, with its time |
| `ReadBack.GeneratedIsFile` | daqbuf-disk/src/dataopen.rs:41-191 | a written file, with its index or without, has the times and places of its events for the positioning |
| `ReadBack.ReadRange` | daqbuf-disk/src/dataopen.rs:41-191 | the whole way back: a written file is positioned, read ahead with reads that finish in any order, and parsed from the event found: no error, and exactly the events from that one up to the end of the range, all fields as written |
| `FileRead.ReadWorkerJob` | daqbuf-disk/src/read3.rs:116-181 | an error exactly if a call fails before the end; otherwise as many bytes as the file has, being what all calls leave of the buffer when each writes to its start |
| `FileRead.RightIffFull` | daqbuf-disk/src/read3.rs:116-181 | a job gives the bytes of the file, whatever its memory held before, if and only if no call fails and the first answer has all there is |
| `FileRead.WrongAnyhow` | daqbuf-disk/src/read3.rs:127-154 | after a short answer the start of the buffer has the last bytes read, and where the file differs there the job is wrong whatever its memory held |
| `FileRead.ShortAnswer` | daqbuf-disk/src/read3.rs:127-154 | an instance |
| `FileContent.PartGrows` | daqbuf-disk/src/disk.rs:569-580 | a read continues what was given out |
| `FileContent.FileContentStream3.PollNext` | daqbuf-disk/src/disk.rs:491-607 | chunks in the order of the file whatever finishes first, a queue within its length, and no waiting when the first read has finished |
| `FileContent.ReadAll` | daqbuf-disk/src/disk.rs:488-608 | for every order of completions the chunks joined are the file from the start position to its end, and there are boundedly many |
| `ReadWorkers.StepKeepsInv` | daqbuf-disk/src/read3.rs:89-114 | one receiver, jobs taken in order, no job lost or taken twice, no thread ended while jobs wait: kept by every step |
| `ReadWorkers.ReceiverIsInOnePlace` | daqbuf-disk/src/read3.rs:89-114 | in every run the receiver is in the channel or with one thread |
| `ReadWorkers.EndedHaveFinished` | daqbuf-disk/src/read3.rs:89-114 | a thread ends only when all jobs sent are taken and no more will come; if then no thread is at work each job is finished as often as it was sent |
| `ReadWorkers.WaitingJobCanBeTaken` | daqbuf-disk/src/read3.rs:89-114 | while a thread is free a waiting job can be taken |
| `SeriesTable.Table.Select` | daqbuf-dbpg/src/seriesbychannel.rs:182-194 | for each query, each once and in the order of the queries, exactly the rows with its backend, channel and kind |
| `SeriesTable.Table.Insert` | daqbuf-dbpg/src/seriesbychannel.rs:202-212 | rows that do not conflict are inserted, and counted |
| `SeriesTable.ConflictsIs` | daqbuf-dbpg/src/seriesbychannel.rs:202-212 | a row conflicts with one that has its series number, or its backend, channel, kind, type and shape |
| `SeriesTable.Table.Append` | daqbuf-dbpg/src/seriesbychannel.rs:589-607 | the time is appended to the rows with the given ids, and to no others |
| `SeriesDecide.ShapeEquivIsEquivalence` | daqbuf-dbpg/src/seriesbychannel.rs:609-624 | equivalence of shapes is an equivalence |
| `SeriesDecide.ShapeEquivIsDimensions` | daqbuf-dbpg/src/seriesbychannel.rs:609-624 | two shapes are equivalent if and only if both are scalars, both waveforms or both images, whatever their extents |
| `SeriesDecide.RefusedIfUnordered` | daqbuf-dbpg/src/seriesbychannel.rs:465-476 | the rows are refused exactly if the uses of some row are not in order |
| `SeriesDecide.SortIs` | daqbuf-dbpg/src/seriesbychannel.rs:452-463 | sorting by time keeps the entries, each as often as it was there |
| `SeriesDecide.SortIsStable` | daqbuf-dbpg/src/seriesbychannel.rs:452-463 | and the order of entries of the same time |
| `SeriesDecide.DecideIsJustified` | daqbuf-dbpg/src/seriesbychannel.rs:422-450 | latest, used before, or not there: what each answer says about the rows, in whatever order they came |
| `SeriesDecide.LatestDecides` | daqbuf-dbpg/src/seriesbychannel.rs:433-449 | a row used later than all others decides alone |
| `SeriesDecide.LastInAnswerDecides` | daqbuf-dbpg/src/seriesbychannel.rs:433-449 | if no row is used later than the one that comes last in the answer, that one decides |
| `SeriesDecide.TiesAreOpen` | daqbuf-dbpg/src/seriesbychannel.rs:433-449 | an instance of equal times where the order of the rows decides |
| `SeriesByChannel.Select` | daqbuf-dbpg/src/seriesbychannel.rs:350-420 | going through the answer once gives each job exactly its own rows |
| `SeriesByChannel.SeriesIds` | daqbuf-dbpg/src/seriesbychannel.rs:536-562 | each row gets the first of the hashes 1 to 799 that is from 10^18 up to 2^63 - 1, or the trial is given up, when and only when a row has none |
| `SeriesByChannel.FirstInRangeIs` | daqbuf-dbpg/src/seriesbychannel.rs:536-562 | which one that is, or that there is none |
| `SeriesByChannel.AllAdded` | daqbuf-dbpg/src/seriesbychannel.rs:581-584 | as many new rows as queries can only be if the queries differ, none was there, and all are now |
| `SeriesByChannel.InsertsAll` | daqbuf-dbpg/src/seriesbychannel.rs:564-580 | different queries the table does not have, with new ids, all become rows, in their order, in one insert |
| `SeriesByChannel.InsertMissing` | daqbuf-dbpg/src/seriesbychannel.rs:502-587 | retries count each new row once; success means every query has a new row; it succeeds when queries differ, none is there, and the first hashes are new ids; it gives up after 199 trials, or when a row has no hash in range |
| `SeriesBatch.HandleBatch` | daqbuf-dbpg/src/seriesbychannel.rs:281-348 | every job gets exactly one reply, and in the fields of the rows: current is a row with the query's backend, channel, kind, type and number of dimensions that no row of the channel was used after; updated one that was used before and is used now, with another used last; created a new one where none was there before. New series of one batch are for different queries. A failure means some job had no series, and does not happen if the queries differ and their first hashes in range are new |
| `SeriesBatch.RepliesTold` | daqbuf-dbpg/src/seriesbychannel.rs:281-348 | from the decisions on the rows to what each reply says about the fields of the rows |
| `SeriesBatch.Work` | daqbuf-dbpg/src/seriesbychannel.rs:236-279 | a batch that fails, or whose commit fails, leaves the table as it was; else the table has its rows; the replies are sent before the commit |
| `SeriesBatch.WithoutCommit` | daqbuf-dbpg/src/seriesbychannel.rs:236-279 | if the commit fails, the series of a reply is in the table if and only if it was not created for it |
| `SeriesBatch.SettledIffAloneLatest` | daqbuf-dbpg/src/seriesbychannel.rs:422-450 | a query is answered with a series as the latest, in whatever order the database gives the rows, if and only if of all rows of its channel one is last used later than all others, and it fits and has that id |
| `SeriesBatch.TogetherIsOpen` | daqbuf-dbpg/src/seriesbychannel.rs:422-450 | two rows of a channel registered at one time leave open which is the latest |
| `SeriesBatch.SettledAfter` | daqbuf-dbpg/src/seriesbychannel.rs:281-348 | after a batch of one query that was created or taken up again, its row alone is used last; a current one changes nothing |
| `SeriesBatch.AskAgain` | daqbuf-dbpg/src/seriesbychannel.rs:281-348 | the same query asked again later is answered as current, with the same series, if it was created or taken up again, or its row alone was used last |

## Left out

- LZ4: dictionaries, prefix and streaming modes, limited output, partial decoding, the fast decoder and the obsolete entries, which the stack does not reach; 32 bit and big-endian variants and the processor's own choice of bit counting.
- LZ4: accelerations other than the default; which block is put out is stated exactly, not how small it is.
- Lz4Decoder.DecompressSafe: says that a refused input gives a negative result, not which one; and asks for an input of two bytes, or one below 0xF0, because on shorter ones the source looks beyond the end.
- Blocks.Decode: on a form too short for the decoder the bytes behind it are not modelled; it is refused whatever they are, with one of two negative results.
- Blocks.DecompressLz4Block: lengths in front of a frame that are negative as a signed number, or that reach beyond the input, are asked of the caller not to be there; the source has no input size to check them against.
- BlockedWrap.BlockedWrapFun: asks the same of the frames of its input, for the same reason.
- BitshuffleAvx.TransBitByteAvx: asks for a multiple of 8 bytes, which its only caller has checked; the source checks it after the first loop.
- Input buffers are immutable sequences, so kernels called with the same buffer as input and output are not modelled; kernels that write to a region of a larger output fill a buffer that is copied there.
- Failing allocation, the NEON and big-endian kernels, the wrap of byte counts at 2^64, and the sum of the counts over threads.
- IoChain: the counter of iterations does not wrap at 2^64; the locks are those of the library, with the fairness of none assumed.
- EventChunker.EventChunker.EventStep: does not tell an error from a panic of the source on frames too short for their fields, nor which error it is; log entries about mismatched types and shapes, warning counters and histograms are not modelled.
- The check of an event's shape against the requested one is a parameter; the values a generated event carries are a parameter, too.
- StaticSearch.PositionStatic: a file without a whole event makes the source's arithmetic fall below zero; that is a panic here.
- DataWalk.OpenExpandedFilesInner: one data file a time bin; several splits, missing files and the reading of directories are not modelled.
- FileContent.FileContentStream3.PollNext: the seek for the start position is a parameter; the simple reading mode, which the source has switched off, is not modelled.
- ReadWorkers.WaitingJobCanBeTaken: threads that end because a channel is closed are modelled, threads that die are not.
- SeriesByChannel.InsertMissing: the salted hashes are arbitrary numbers; that a trial after the first succeeds is not claimed.
- SeriesTable.Table.Select: agg_kind is 0 in all rows, and rows with types, shapes or kinds the source cannot read are not in the table.
- Sending a reply can fail in the source without consequence; connection, prepared statements and the waiting after a failed commit are not modelled.
- HTTP, proxy, daemon, command line, schema migration, merging and binning: no part of this model.
- FileRead.ReadWorkerJob: a call that reports more bytes than were asked for, or an error other than -1, ends the source's job without an answer; such calls are not modelled. Memory not written before is arbitrary.
- ReadBack.ReadRange: one file; several bins are joined by `DataWalk` on times and places only.
