# C-Blosc2 and Lizard: a verified model

This project models the compression core of C-Blosc2 and of the Lizard codec it bundles, and
proves that what the compressors write is what the decompressors read. `dafny verify
dfyconfig.toml` checks all of it.

| part | modules | what it models |
|---|---|---|
| BloscLZ | `LzCopy`, `BloscLzFormat`, `BloscLzGreedy`, `BloscLzEncoder`, `BloscLzDecoder`, `BloscLzRoundTrip`, `BloscLzPeriodic` | compressor and decompressor as loops over arrays, the stream as a list of instructions, the parse as a function of the input |
| Lizard blocks | `LizardCodes`, `LizardEncoder`, `LizardDecoder`, `LizardRoundTrip`, `LizardGreedy`, `LizardParser`, `LizardContainer`, `LizardCompress`, `LizardDecompress`, `LizardPeriodic` | LZ4 and LIZv1 codewords, the parsers fast and fastBig, the five streams, `Lizard_compress` and `Lizard_decompress_safe` |
| Lizard frames | `LizardFrameSpec`, `LizardFrameDecoder`, `LizardFrameEncoder`, `LizardFrameRuns`, `LizardFrameHints`, `LizardFrameCodec` | the format as a machine that takes single bytes, the two contexts as classes, histories of calls |
| Blosc chunks | `BlockLayout`, `BloscHeader`, `BloscBlock`, `BloscChunk`, `BloscCompressible`, `BloscGetitem`, `Pipeline`, `Filters` | header, block size, splits, filter pipeline with its buffers, the serial engine, random access |
| Blosc threads | `CountingBarrier`, `WinCondVar`, `ParallelCompress`, `ParallelDecompress`, `ParallelProgress`, `ParallelBytes`, `ParallelChunk`, `ParallelRestore` | interleaved steps of any number of threads over any number of jobs |
| Kernels | `Shuffle`, `ShuffleSse2`, `Bits`, `Bitshuffle`, `Delta` | byte shuffle, simple and with vectors, bit shuffle, delta filter |

`Bytes`, `LittleEndian` and `Arithmetic` hold what the others share.

## How the main results fit together

*BloscLZ.* A program is a list of instructions with a meaning (`Expand`) and bytes (`Stream`).
The encoder's loop keeps the invariant that its output is the stream of a program for the input
consumed, with a run of literals still open. Which program that is, `BloscLzGreedy.Parse` says as a
function of the input, the level, the acceleration and the limit; the result is 0 exactly if that
gives up. The decoder computes a decoding function, and that function inverts `Stream`. Of `Parse`
it is proved that a match is refused only for what the table entry leads to, that matches go as far
as they can, and that inputs which repeat are compressed (`BloscLzPeriodic`).

*Lizard blocks.* The same plan over four growing streams, with the last offset as shared state.
The parsers are proved for every content of the hash table. `LizardCompress.RoundTrip` joins
parser, codewords, container and decoder. What the parsers find is a function of source and table
(`LizardGreedy`); a search fails only if the entry of every position it probes is refused
(`FirstNotRefused`). With that, the size of the output is known exactly, and sources that repeat are
shown to be packed, whatever the table holds (`LizardPeriodic`).

*Lizard frames.* The decoder must regenerate the same bytes however its input and output are cut
up. The specification is a machine that takes one byte at a time; `RunConcat` says it cannot see
the cuts. `DCtx.Decompress`, a class with sixteen stages, buffers and partial copies, is proved to
move that machine by exactly the bytes it read and delivered; the lemmas of `LizardFrameRuns` are
about every history of such calls, and `ReadAll` makes them. `LizardFrameHints` proves of the bytes a
call asks for that they are there. The encoder is exact: `Updated` says which blocks an update
makes, each as the compressor has it, and `UpdatesJoin` that the cuts of the input do not matter. Both contexts take the block codec as a parameter with a contract,
and `LizardFrameCodec` proves that the Lizard block codec of this model meets it.

*Chunks.* `IsChunk` says what it is for bytes to be a chunk of a source. The serial engine
establishes it, and so do any number of threads under every schedule, with the same guarantee of
success (`BloscChunk.CompressContext`, `ParallelChunk.ParallelContext`). Both copy only what is to be
copied or does not fit, and otherwise the size is that of the table and of what the codec makes of
the blocks; sources that are runs behind the filters get smaller (`BloscCompressible`). The decompressor and
`GetItem` need nothing else; nor do any number of threads that decompress, in whatever order they
take their steps (`ParallelRestore.Decompress`).

*Threads.* A run is a list of steps, each by any thread. Safety is an invariant of all runs;
termination is a measure that every step makes smaller together with the fact that some thread
can step.

## What the code does not do

Where a property that one would expect is false of the code, the model follows the code and says
exactly when it holds.

- `Lizard_compress` with a capacity of 0 computes the room left modulo 2^32 and writes a stored
  block all the same. It then succeeds exactly if none of the parsed blocks could be packed, with
  all of them stored (`LizardCompress.Compress`; for n < 21 it returns n + 5). With any other
  capacity it stays within it, but for one byte: a block that begins exactly at the end and could
  be packed writes its flag byte before it fails (`LizardCompress.WriteBlock`).
- The parsers of Lizard take no match nearer than eight bytes, and enter each position they probe in
  the table. A run of one byte is therefore not found until the steps of the search are eight bytes
  long: it is stored if it has less than 1830 bytes, and packed in 53 at most otherwise
  (`LizardPeriodic.RunBlock`, `RunCost`).
- `LizardF_decompress` asks for the bytes of the shortest frame header and of a block head before it
  knows that a frame is skippable. That is more than there are exactly if a skippable frame has less
  than three bytes of data and less than seven of its bytes have been read
  (`LizardFrameHints.HintStaysInFrame`); no frame that is written is like that
  (`HintNeverExceeds`).
- The frame layer calls the block compressor with one byte less than the source, so a block of one
  byte becomes ten bytes. `LizardF_compressBound` is too small exactly under the condition `Tight`
  (`WorstCase`), `LizardF_compressFrameBound` exactly if the header gives the content size and one
  byte is left over (`WorstFrameExact`). Outside these conditions no call writes more than the
  bound (`CCtx.Update`, `CompressFrame`). Under them every call writes more whose codec makes no
  other block smaller, and there is such a codec (`LizardFrameCodec.StoringIsBlockCodec`); with a
  source of one byte every call does, whatever the codec (`OneByteUpdate`, `OneByteFrame`).
- `blosc_compress` writes the 16 or 32 bytes of the header, and the first entry of the table, without
  a look at destsize (`BloscChunk.Roomy` asks for that room).
- `LizardF_compressEnd` does not check the room for the end mark and the checksum
  (`CCtx.End` asks its caller for it).
- A single wakeup for no reason breaks the counting barrier in whatever reachable state it takes
  a waiting thread, unless the broadcast has come already (`SpuriousWakeupBreaksIt`). All other
  results about threads assume there is none.
- Decompression by several threads can leave a thread waiting for ever. `ParallelProgress.HangsExactly`
  says when: the delta filter is in use, the splits of the first block of some thread but the first
  are good, and those of block 0, or of the first block of another such thread, are bad, after which
  thread 0 may leave without having undone block 0. An unknown filter makes no difference, as it is
  reported only after the wait. No other job of threads gets stuck, whatever its errors
  (`NoDeadlock`).
- The bit shuffle loses the bytes behind the last element exactly if the number of elements is a
  multiple of 8 and there are such bytes (`BitShuffleInjective`, `BitShuffleLosesTail`). The delta
  filter loses the bytes behind the last word (`FirstRoundTrip`, `OtherRoundTrip`, `TailIsLost`).
- Not every order of filters can be undone. Behind other filters the delta filter gives the
  reference block back exactly if what they made of it agrees with the chunk but for the last word
  (`Delta.FirstBehindFilters`), and in the last slot it misses the block altogether
  (`Pipeline.TopDeltaMissesBlock`). A filter is given its own source as scratch buffer exactly if
  another one has been undone before (`Pipeline.SpareIsSource`); with the scalar kernels the inverse
  bit shuffle survives that exactly if there are at most eight elements
  (`Bitshuffle.RestoredExactly`), or if their number is no multiple of 8, when it only copies. `Pipeline.Ordered`, with the delta filter first and the bit shuffle last, is the
  condition under which `PipelineD` restores all blocks; it suffices, and is not claimed to be
  necessary where a filter happens to change nothing.
- A type size above the number of bytes gives a block size of 1, and then the delta filter writes
  a word beyond the block; a block size requested below the type size leaves the bit shuffle no
  whole element. `BloscChunk.RoundTrip` gives the source back if it was merely copied, or if the
  filters drop nothing of the blocks that were made (`Undoable`); `WholeSizes` tells from the
  arguments when that is so.
- A chunk marked as copied whose header is extended has its data where the filters would be. This
  does no harm, as they are not used (`BloscChunk.Copied`).

## Model

| member | source | states |
|---|---|---|
| BloscLzEncoder.Compress | c-blosc2/blosc/blosclz.c:176-419 | The result is the length of what the parse of the input comes to, and 0 exactly if that gives up for want of room; the output is the marked stream of those instructions and decodes to the input in any buffer that can hold it; nothing is written at or after the limit |
| BloscLzEncoder.RoundTrip | c-blosc2/blosc/blosclz.c:176-505 | Running the decompressor on what the compressor wrote returns the length of the input and exactly its bytes, and writes nothing after the buffer it was given |
| BloscLzEncoder.CompressBody | c-blosc2/blosc/blosclz.c:226-389 | The main loop takes exactly the turns of the parse as far as there is room, and leaves an open run of literals behind a legal program that expands to the part of the input consumed |
| BloscLzEncoder.CompressTail | c-blosc2/blosc/blosclz.c:391-407 | The left-over bytes become literals and the last run is closed, exactly if there is room: the stream is that of a program expanding to the whole input |
| BloscLzEncoder.PutLiteral | c-blosc2/blosc/blosclz.c:160-171 | One byte joins the open run; a full run is closed by the control byte written in advance; fails exactly when fewer than two bytes are left |
| BloscLzEncoder.CloseRun | c-blosc2/blosc/blosclz.c:328-337 | The count goes back into the byte in front of the run, or an empty run gives its byte back; either way a whole program is left |
| BloscLzEncoder.OpenCloses | c-blosc2/blosc/blosclz.c:328-331 | Patching the count turns the bytes of the open run into one literal instruction |
| BloscLzEncoder.FullRunClosed | c-blosc2/blosc/blosclz.c:166-170 | The control byte written in advance is already right for a run of 32 |
| BloscLzEncoder.FindMatch | c-blosc2/blosc/blosclz.c:230-258 | What is found, and the table afterwards, are those of the parse: no match is found exactly if there is no run at the position and the old entry of the table is at distance 0 or too far, or differs in the first three bytes, five for a far one |
| BloscLzEncoder.NothingFound | c-blosc2/blosc/blosclz.c:230-258 | The same condition in the bytes of the input, for the parse as a function |
| BloscLzGreedy.FoundAgrees | c-blosc2/blosc/blosclz.c:230-258 | What the parse finds is nearer than the farthest distance, and the input bears it out for three or five bytes |
| BloscLzGreedy.EndIsMaximal | c-blosc2/blosc/blosclz.c:268-326 | Where a match ends: all bytes but the last agree with those a distance before, and the last does not, unless the end of the input is within eight bytes |
| BloscLzGreedy.MatchEnds | c-blosc2/blosc/blosclz.c:268-326 | Behind the bytes that are known to agree every match is at least four bytes long, stays clear of the end, and is maximal |
| BloscLzGreedy.ParseFits | c-blosc2/blosc/blosclz.c:176-419 | What the parse comes to, unless it gives up, is no longer than the limit |
| BloscLzGreedy.StreamLengthIs | c-blosc2/blosc/blosclz.c:346-379 | The length that the parse reckons with is that of the bytes of the instructions |
| BloscLzPeriodic.PeriodicCompresses | c-blosc2/blosc/blosclz.c:226-407 | An input that repeats after d bytes, whose first d positions have places of their own in the hash table, does not give up but comes to one match and a few literals, about d + n / 255 bytes, at every level and with every acceleration |
| BloscLzPeriodic.RunCompresses | c-blosc2/blosc/blosclz.c:226-407 | A run of n bytes, for which the hash table plays no part, comes to at most n / 255 + 21 bytes |
| BloscLzEncoder.ExtendRun | c-blosc2/blosc/blosclz.c:268-298 | Going on in words of eight and then single bytes, the run ends where the parse has it end, which EndIsMaximal shows to be as far as it goes |
| BloscLzEncoder.ExtendMatch | c-blosc2/blosc/blosclz.c:300-326 | The same for a match at any distance |
| BloscLzEncoder.WriteMatch | c-blosc2/blosc/blosclz.c:260-379 | A found match, as far as it goes, closes the run before it and becomes the next instruction, exactly if there is room; the source bears it out |
| BloscLzEncoder.PutMatch | c-blosc2/blosc/blosclz.c:346-379 | What is written for a biased length and distance is the instruction of the format, near or far, short or with length bytes |
| BloscLzEncoder.ClosedMatch | c-blosc2/blosc/blosclz.c:339-379 | A match the source bears out extends the program by exactly the bytes it covers |
| BloscLzDecoder.Decompress | c-blosc2/blosc/blosclz.c:421-505 | For every input whose codewords can be read: the result and the buffer are what the decoding function says, errors return 0, and nothing is written after `maxout` |
| BloscLzDecoder.DecodeIns | c-blosc2/blosc/blosclz.c:434-501 | One turn of the loop does one step of the decoding function, or reports a match or a run that does not fit |
| BloscLzDecoder.ReadOperands | c-blosc2/blosc/blosclz.c:438-451 | Length bytes, distance byte and the escape to 16-bit distances are read as the format has them |
| BloscLzDecoder.CopyRef | c-blosc2/blosc/blosclz.c:468-483 | The run, the byte-by-byte and the block copy all produce the overlapping copy |
| BloscLzRoundTrip.StreamRoundTrip | c-blosc2/blosc/blosclz.c:421-505 | Decoding the marked stream of any legal program gives what the program stands for |
| BloscLzRoundTrip.DecodeProgram | c-blosc2/blosc/blosclz.c:429-501 | The decoder gets through any program its input starts with and arrives behind it with what it stands for |
| BloscLzRoundTrip.RunInverts | c-blosc2/blosc/blosclz.c:434-501 | Each instruction is carried out as written |
| BloscLzRoundTrip.ReadMatchInverts | c-blosc2/blosc/blosclz.c:438-451 | Length and distance read back, whatever follows |
| BloscLzRoundTrip.DistBytesRead | c-blosc2/blosc/blosclz.c:346-379 | A near match never reads as a far one and the other way round: the biases keep them apart |
| BloscLzRoundTrip.ReadExtInverts | c-blosc2/blosc/blosclz.c:353-357 | A chain of length bytes adds up to the length it was made from |
| BloscLzRoundTrip.StreamHead | c-blosc2/blosc/blosclz.c:213-217 | The first byte of a stream leaves bit 5 free for the marker |
| LzCopy.BlockCopy | c-blosc2/blosc/blosclz.c:112-126 | The copy in chunks gives the bytes of a byte-by-byte copy and writes nothing at or after the limit, also from 8 bytes behind itself |
| LzCopy.CopyWithin | c-blosc2/blosc/blosclz.c:136-141 | The result is the overlapping copy for every length and distance |
| LzCopy.FillRun | c-blosc2/blosc/blosclz.c:468-472 | Filling with the last byte is the copy at distance 1 |
| LzCopy.RepeatsIsCopyMatch | c-blosc2/blosc/blosclz.c:127-141 | Whatever repeats with a distance is the overlapping copy: the repetition determines the bytes |
| LzCopy.CopyMatchRepeats | c-blosc2/blosc/blosclz.c:127-141 | The overlapping copy repeats with its distance |
| LzCopy.MatchReproduces | c-blosc2/blosc/blosclz.c:260-379 | A match found in the source, copied onto what is before it, gives the source |
| LizardCompress.Compress | c-blosc2/internal-complibs/lizard-1.0/lizard_compress.c:472-547 | At levels 11 and 20, for every source and whatever the hash table holds: a result above 0 is a buffer whose blocks stand for the source; it never exceeds LIZARD_COMPRESSBOUND, nor the capacity unless that is given as 0; it is above 0 whenever the capacity is at least the bound, and then nothing outside the capacity is written. The streams of each block are those of its parse with the table as the blocks before left it, and with a capacity other than 0 the result is one byte and what these cost, 0 exactly if that is more than the capacity. With capacity 0 it is above 0 exactly if none of the blocks could be packed, and then every block is stored; under 21 bytes that is always so and the result is n + 5 |
| LizardCompress.RoundTrip | c-blosc2/internal-complibs/lizard-1.0/lizard_compress.c:596-606 | Compressing and then running the decompressor gives the source back in every buffer that can hold it, and writes nothing after that buffer |
| LizardCompress.HeldDecodes | c-blosc2/internal-complibs/lizard-1.0/lizard_decompress.c:267-270 | Decoding what the compressor holds regenerates the source for every capacity that suffices |
| LizardCompress.RoomForNext | c-blosc2/internal-complibs/lizard-1.0/lizard_compress.h:121-124 | Every block takes at most its size and four bytes, and all of them with the level byte stay within the bound |
| LizardCompress.WriteBlock | c-blosc2/internal-complibs/lizard-1.0/lizard_compress.c:186-250 | A block is packed or stored so that it stands for its part of the source: packed exactly if its streams save enough, failing exactly without room for what it costs; with no room at all the flag byte is still written, one byte past the end; past the end of the buffer the stored form is always taken to fit |
| LizardCompress.WriteStored | c-blosc2/internal-complibs/lizard-1.0/lizard_compress.c:235-245 | The room left is computed modulo 2^32: stored exactly if it fits or the end has been passed before |
| LizardCompress.WriteStreams | c-blosc2/internal-complibs/lizard-1.0/lizard_compress.c:203-222 | All five streams are written one after the other exactly if they fit |
| LizardCompress.WriteStream | c-blosc2/internal-complibs/lizard-1.0/lizard_compress.c:176-182 | A stream with its length, exactly if it fits |
| LizardCompress.CompressBlock | c-blosc2/internal-complibs/lizard-1.0/lizard_compress.c:494-535 | Parsing and writing one block gives bytes that stand for it behind all blocks before, as many as its streams cost; past the end it is stored, exactly if it could not be packed |
| LizardCompress.ParseBlock | c-blosc2/internal-complibs/lizard-1.0/lizard_compress.c:494-533 | The streams that the parser leaves stand for the block, and are those of the parse as a function of source and table |
| LizardCompress.PackedIsLegal | c-blosc2/internal-complibs/lizard-1.0/lizard_compress.c:201-222 | What the parser leaves, if it is short enough to be packed, makes a legal block for the source bytes |
| LizardPeriodic.RepeatedBlock | c-blosc2/internal-complibs/lizard-1.0/lizard_parser_fastbig.h:54-127 | Whatever the hash table holds, a block of a source that repeats after 8 to 32 bytes, no two places of the period being followed by the same four bytes and one having a place of its own in the table, becomes one sequence: at most 63 literals and a match up to the last sixteen bytes |
| LizardPeriodic.SearchReaches | c-blosc2/internal-complibs/lizard-1.0/lizard_parser_fastbig.h:71-102 | The search finds such a match at the second occurrence of that place at the latest, and what it finds before goes on to the end as well |
| LizardPeriodic.FoundInPhase | c-blosc2/internal-complibs/lizard-1.0/lizard_parser_fastbig.h:86-89 | In such a source the same four bytes are found only a number of whole periods back |
| LizardPeriodic.OneSequenceCost | c-blosc2/internal-complibs/lizard-1.0/lizard_compress.c:186-250 | A block of 640 bytes or more that becomes one sequence is packed, in its literals and at most 45 bytes |
| LizardPeriodic.RepeatedCosts | c-blosc2/internal-complibs/lizard-1.0/lizard_compress.c:472-547 | All blocks of such a source together cost at most 108 bytes each, and 535 more for a last one that is not whole |
| LizardPeriodic.CompressRepeated | c-blosc2/internal-complibs/lizard-1.0/lizard_compress.c:472-547 | Lizard_compress makes of such a source at most 644 bytes and 108 for every 128 KB, in every capacity that has room for them |
| LizardPeriodic.CountingRepeats | c-blosc2/internal-complibs/lizard-1.0/lizard_parser_fastbig.h:71-102 | The bytes 0 to 7 over and over again are such a source, for both parsers |
| LizardPeriodic.SearchRun | c-blosc2/internal-complibs/lizard-1.0/lizard_parser_fast.h:74-137 | In a run of one byte each probe meets the one before it, which is refused until the steps are eight bytes long |
| LizardPeriodic.RunBlock | c-blosc2/internal-complibs/lizard-1.0/lizard_parser_fast.h:74-137 | So a run is one sequence if it has 1830 bytes or more, and literals otherwise, whatever the hash table holds |
| LizardPeriodic.RunCost | c-blosc2/internal-complibs/lizard-1.0/lizard_compress.c:186-250 | A run is stored if it has less than 1830 bytes, and takes at most 53 otherwise |
| LizardPeriodic.CompressRun | c-blosc2/internal-complibs/lizard-1.0/lizard_compress.c:472-547 | Lizard_compress makes n + 5 bytes of a run of n bytes if n < 1830, and at most 54 otherwise |
| LizardContainer.ChainDecodes | c-blosc2/internal-complibs/lizard-1.0/lizard_decompress.c:115-264 | Decoding any legal chain of blocks, packed and stored, regenerates its content in every buffer that can hold it |
| LizardContainer.ChainInverts | c-blosc2/internal-complibs/lizard-1.0/lizard_decompress.c:161-250 | The same with anything behind the chain, and with the room the decoder reckons with, which stored blocks do not reduce |
| LizardContainer.BlockInverts | c-blosc2/internal-complibs/lizard-1.0/lizard_decompress.c:163-249 | One block, packed or stored, behind any output |
| LizardContainer.SectionsInvert | c-blosc2/internal-complibs/lizard-1.0/lizard_decompress.c:186-224 | The five streams are found where they were written |
| LizardContainer.PartInverts | c-blosc2/internal-complibs/lizard-1.0/lizard_decompress.c:72-85 | A stream with its length reads back, whatever follows |
| LizardDecompress.Decompress | c-blosc2/internal-complibs/lizard-1.0/lizard_decompress.c:115-264 | The block loop does what the decoding function says for every input on which that is defined, returns a negative value for an error and 0 for a block without output, and writes nothing after the buffer |
| LizardDecompress.DecompressBlocks | c-blosc2/internal-complibs/lizard-1.0/lizard_decompress.c:161-250 | The same for the blocks behind the level |
| LizardDecompress.ReadBlock | c-blosc2/internal-complibs/lizard-1.0/lizard_decompress.c:182-226 | The positions in the input are those of the five streams, or the block is refused |
| LizardDecompress.ReadStream | c-blosc2/internal-complibs/lizard-1.0/lizard_decompress.c:72-85 | A stream begins behind its length; that it ends within the input is found out by the next check |
| LizardDecompress.CopyStored | c-blosc2/internal-complibs/lizard-1.0/lizard_decompress.c:164-180 | A stored block is appended if it is all there and fits |
| LizardRoundTrip.BlockDecodes | c-blosc2/internal-complibs/lizard-1.0/lizard_decompress_liz.h:50-213 | The decoder inverts the encoder on every legal list of sequences with last literals, for both kinds of codewords, behind any output |
| LizardRoundTrip.ProgDecodes | c-blosc2/internal-complibs/lizard-1.0/lizard_decompress_liz.h:50-201 | The decoder gets through any legal list of sequences and arrives behind it with the output and the last offset the encoder had |
| LizardRoundTrip.SequenceDecodes | c-blosc2/internal-complibs/lizard-1.0/lizard_decompress_liz.h:60-200 | One sequence: 16-bit, 24-bit and repeated offsets, and LZ4 codewords |
| LizardRoundTrip.LongDecodes | c-blosc2/internal-complibs/lizard-1.0/lizard_compress_liz.h:83-121 | A long offset behind literals takes two tokens: the first one decodes as literals with a match of length 0, which leaves the last offset alone |
| LizardRoundTrip.TurnShortInverts | c-blosc2/internal-complibs/lizard-1.0/lizard_decompress_liz.h:60-132 | A token of the short form, with its literals, offset and lengths, reads back |
| LizardRoundTrip.TurnLongInverts | c-blosc2/internal-complibs/lizard-1.0/lizard_decompress_liz.h:134-162 | A token of the long form reads back |
| LizardRoundTrip.TurnLZ4Inverts | c-blosc2/internal-complibs/lizard-1.0/lizard_decompress_lz4.h:41-145 | An LZ4 codeword reads back |
| LizardRoundTrip.ShortTokenTells | c-blosc2/internal-complibs/lizard-1.0/lizard_compress_liz.h:139-149 | A short token is 32 or more, so that it never reads as a long one, and its three fields come apart again |
| LizardRoundTrip.LengthInverts | c-blosc2/internal-complibs/lizard-1.0/lizard_compress_liz.h:57-65 | Each of the three classes of length extension reads back, and nothing more is read |
| LizardDecoder.DStream.Decompress | c-blosc2/internal-complibs/lizard-1.0/lizard_decompress_liz.h:14-220 | For every block on which the decoding function is defined, the loop with its wild copies gives its result: the output behind what was there, 0, or a negative value |
| LizardDecoder.DStream.DecodeTokens | c-blosc2/internal-complibs/lizard-1.0/lizard_decompress_liz.h:49-213 | The loop over the tokens and the last literals |
| LizardDecoder.DStream.TakeTurn | c-blosc2/internal-complibs/lizard-1.0/lizard_decompress_liz.h:50-201 | One token does one step of the decoding function |
| LizardDecoder.DStream.TurnLZ4 | c-blosc2/internal-complibs/lizard-1.0/lizard_decompress_lz4.h:46-81 | Literals of an LZ4 codeword, with the checks of the source |
| LizardDecoder.DStream.MatchLZ4 | c-blosc2/internal-complibs/lizard-1.0/lizard_decompress_lz4.h:84-143 | Its offset, which is among the literals, and its match |
| LizardDecoder.DStream.TurnShort | c-blosc2/internal-complibs/lizard-1.0/lizard_decompress_liz.h:60-94 | Literals of a short token |
| LizardDecoder.DStream.MatchShort | c-blosc2/internal-complibs/lizard-1.0/lizard_decompress_liz.h:96-130 | The offset, new or last, and the match |
| LizardDecoder.DStream.TurnLong | c-blosc2/internal-complibs/lizard-1.0/lizard_decompress_liz.h:134-162 | A match at a 24-bit offset |
| LizardDecoder.DStream.NextLength | c-blosc2/internal-complibs/lizard-1.0/lizard_decompress_liz.h:62-75 | The length, from the token or from the literals, as the function reads it |
| LizardDecoder.DStream.NextOffset16 | c-blosc2/internal-complibs/lizard-1.0/lizard_decompress_liz.h:97-104 | The offset is read in any case and kept only if the token asks for a new one |
| LizardDecoder.DStream.TakeMatch | c-blosc2/internal-complibs/lizard-1.0/lizard_decompress_liz.h:165-200 | A match that reaches too far back or has no room is refused, any other one is the overlapping copy |
| LizardDecoder.WildCopy16 | c-blosc2/internal-complibs/lizard-1.0/lizard_common.h:361-370 | Copying in steps of 16, from another array or at least 8 bytes behind, gives the bytes of the plain copy and writes less than 16 bytes too many |
| LizardDecoder.WildMatch | c-blosc2/internal-complibs/lizard-1.0/lizard_decompress_liz.h:193-200 | The match copy gives the overlapping copy for every length and every distance of at least 8 |
| LizardEncoder.CStream.EncodeSequenceLIZv1 | c-blosc2/internal-complibs/lizard-1.0/lizard_compress_liz.h:43-165 | The streams grow by the codewords of exactly the sequence given; the offset remembered is the one the decoder will have |
| LizardEncoder.CStream.EncodeSequenceLZ4 | c-blosc2/internal-complibs/lizard-1.0/lizard_compress_lz4.h:3-71 | The streams grow by the LZ4 codeword of exactly the sequence given |
| LizardEncoder.CStream.EncodeLastLiterals | c-blosc2/internal-complibs/lizard-1.0/lizard_compress_liz.h:168-179 | The streams are those of a block that ends in the literals |
| LizardEncoder.CStream.PutShort | c-blosc2/internal-complibs/lizard-1.0/lizard_compress_liz.h:54-81 | A short token with its literals and its offset |
| LizardEncoder.CStream.PutLong | c-blosc2/internal-complibs/lizard-1.0/lizard_compress_liz.h:97-121 | A long token with its 24-bit offset |
| LizardEncoder.CStream.PutLongLiterals | c-blosc2/internal-complibs/lizard-1.0/lizard_compress_liz.h:57-93 | The literals before a long offset |
| LizardEncoder.CStream.InitBlock | c-blosc2/internal-complibs/lizard-1.0/lizard_compress.c:130-138 | Every block begins with empty streams and no last offset |
| LizardParser.Parser.Compress | c-blosc2/internal-complibs/lizard-1.0/lizard_parser_fastbig.h:35-175 | For every content of the hash table the sequences written are legal and expand to the block up to the last literals, of which there are at least 16 behind any match; sequences, last literals and table are those of the parse as a function |
| LizardParser.Parser.Search | c-blosc2/internal-complibs/lizard-1.0/lizard_parser_fast.h:74-137 | What is found, and the table afterwards, are those of the search as a function, which FirstNotRefused explains; a match is within the window, at least 8 back, longer than 3, long enough for its distance, and true of the source; it ends 16 bytes before the end |
| LizardGreedy.FirstNotRefused | c-blosc2/internal-complibs/lizard-1.0/lizard_parser_fast.h:74-137 | A search ends at the first of the positions it probes whose entry, in the table as the probes before have left it, is not refused; it fails only if all of them are, up to the last that is far enough from the end |
| LizardGreedy.RefusedExactly | c-blosc2/internal-complibs/lizard-1.0/lizard_parser_fast.h:86-109 | An entry leads to no match exactly if it is outside the window, nearer than 8 bytes, differs in four bytes, or begins a match too short for its distance |
| LizardParser.Parser.TakeMatches | c-blosc2/internal-complibs/lizard-1.0/lizard_parser_fast.h:139-181 | Sequences that follow one another directly: all that the table gives, as a function says, all of them true of the source, and each one moves on |
| LizardParser.Parser.Check | c-blosc2/internal-complibs/lizard-1.0/lizard_parser_fast.h:86-101 | A table entry is believed exactly if it points into the window, at least 8 bytes back, to the same four bytes; the length is that of the common prefix behind them |
| LizardParser.Parser.Backwards | c-blosc2/internal-complibs/lizard-1.0/lizard_parser_fast.h:102-103 | A match is extended backwards as far as the bytes agree, to the end of the last sequence at most, and stays true |
| LizardParser.Count | c-blosc2/internal-complibs/lizard-1.0/lizard_common.h:468-483 | The length of the longest common prefix up to the limit, exactly |
| LizardParser.CountRest | c-blosc2/internal-complibs/lizard-1.0/lizard_common.h:479-482 | The comparisons of four, two and one bytes suffice for what is left of a word |
| LizardParser.TakenParses | c-blosc2/internal-complibs/lizard-1.0/lizard_parser_fastbig.h:127-127 | A match that is true of the source extends the expansion to its end |
| LizardParser.TakenIsLegal | c-blosc2/internal-complibs/lizard-1.0/lizard_parser_fastbig.h:97-102 | It can be written with the codewords of the level |
| LizardFrameRuns.FrameStreams | c-blosc2/internal-complibs/lizard-1.0/lizard_frame.c:980-1362 | A frame made of any blocks, read in any slices with any room for the output, gives its source: what is delivered is always a prefix of it, and when everything has been read the decoder is where a frame can start and the rest of the source waits to be delivered, or nothing does |
| LizardFrameRuns.DeliveredIsPrefix | c-blosc2/internal-complibs/lizard-1.0/lizard_frame.c:980-1362 | After any number of calls what has been delivered is a prefix of the content of the frames |
| LizardFrameRuns.AllReadIsAllDecoded | c-blosc2/internal-complibs/lizard-1.0/lizard_frame.c:1336-1361 | When all bytes have been read the decoder is where a new frame can start, which a call reports by returning 0, and what was delivered and what waits is the content |
| LizardFrameRuns.NoCallFails | c-blosc2/internal-complibs/lizard-1.0/lizard_frame.c:980-1362 | No call on the bytes of valid frames returns an error |
| LizardFrameRuns.FramesFollow | c-blosc2/internal-complibs/lizard-1.0/lizard_frame.c:1234-1245 | Frames one after another hold the contents one after another |
| LizardFrameRuns.ReadAll | c-blosc2/internal-complibs/lizard-1.0/lizard_frame.c:980-1362 | Calling the decoder on any stream of frames in slices of any sizes with room of any sizes comes to an end, delivers exactly the content, and the last call returns 0 |
| LizardFrameRuns.ReadSome | c-blosc2/internal-complibs/lizard-1.0/lizard_frame.c:980-1362 | A call with some source and some room does not fail and makes progress |
| LizardFrameHints.HintNeverExceeds | c-blosc2/internal-complibs/lizard-1.0/lizard_frame.c:974-978 | However a frame has been cut up, with any room for the output, what a call asks for never exceeds what is left of the frame; and no call returns 0 before its end |
| LizardFrameHints.HintStaysInFrame | c-blosc2/internal-complibs/lizard-1.0/lizard_frame.c:974-978 | In a stream of any frames, what a call asks for stays within the frame, exactly unless this is a skippable frame of less than three bytes of data of which less than seven bytes have been read |
| LizardFrameHints.WantedIsLeft | c-blosc2/internal-complibs/lizard-1.0/lizard_frame.c:1027-1291 | The same for any state of the machine and whatever ends its frame |
| LizardFrameHints.AtLeastWanted | c-blosc2/internal-complibs/lizard-1.0/lizard_frame.c:1027-1291 | Unless a skippable frame has been begun, whatever takes the machine back to where a frame can start has at least the bytes that are wanted |
| LizardFrameHints.SkipLength | c-blosc2/internal-complibs/lizard-1.0/lizard_frame.c:1263-1305 | A skippable frame ends where its size says |
| LizardFrameHints.FrameEnds | c-blosc2/internal-complibs/lizard-1.0/lizard_frame.c:260-312 | Every frame that is written takes the machine to where a frame can start at its end, and nowhere before |
| LizardFrameCodec.LizardIsBlockCodec | c-blosc2/internal-complibs/lizard-1.0/lizard_frame.c:456-470 | What Lizard_compress makes of a block with room for one byte less, one-byte blocks included, is all that the frame layer asks of its codec, even if the same block comes out differently each time |
| LizardFrameCodec.StoringIsBlockCodec | c-blosc2/internal-complibs/lizard-1.0/lizard_frame.c:456-470 | There is a codec as Lizard can be that stores every block but those of one byte: the worst sizes of updates and frames are attained |
| LizardFrameCodec.LizardFrameStreams | c-blosc2/internal-complibs/lizard-1.0/lizard_frame.c:980-1362 | Frames whose blocks Lizard has made stream back to their source, with nothing assumed of the codec |
| LizardFrameCodec.MakeBlock | c-blosc2/internal-complibs/lizard-1.0/lizard_frame.c:456-463 | The call of the block compressor gives such a block, of the size that its parse costs, or nothing, exactly if that is too much |
| LizardFrameCodec.MadeDecodes | c-blosc2/internal-complibs/lizard-1.0/lizard_frame.c:897-901 | The block decoder gives the source of such a block |
| LizardFrameDecoder.DCtx.Decompress | c-blosc2/internal-complibs/lizard-1.0/lizard_frame.c:980-1362 | One call on any slice with any room: the machine of the format goes exactly as far as the bytes read take it, what is written is what it puts out, in order; the call ends, and only with the source exhausted, the destination full, or a frame complete; at the start of a frame it reads something if there is anything. The hint is 0 exactly if a frame has been completed, and otherwise what the state left behind waits for, with the four bytes of the next block head behind a header or a block; errors are exactly those of the format |
| LizardFrameDecoder.DCtx.OneTurn | c-blosc2/internal-complibs/lizard-1.0/lizard_frame.c:1010-1335 | One turn of the state loop, in each of the sixteen stages, moves the machine by the bytes read and written, and makes progress |
| LizardFrameDecoder.DCtx.DecodeHeader | c-blosc2/internal-complibs/lizard-1.0/lizard_frame.c:756-862 | The header is decoded, stored, or refused as the format says |
| LizardFrameDecoder.DCtx.BlockHeadTurn | c-blosc2/internal-complibs/lizard-1.0/lizard_frame.c:1044-1088 | The four bytes before a block, in one piece or several |
| LizardFrameDecoder.DCtx.CopyDirectTurn | c-blosc2/internal-complibs/lizard-1.0/lizard_frame.c:1090-1112 | An uncompressed block passes through in any pieces |
| LizardFrameDecoder.DCtx.GetCBlockTurn | c-blosc2/internal-complibs/lizard-1.0/lizard_frame.c:1114-1123 | A compressed block that is all there is taken from the source |
| LizardFrameDecoder.DCtx.StoreCBlockTurn | c-blosc2/internal-complibs/lizard-1.0/lizard_frame.c:1125-1139 | Otherwise it is gathered; a call that ends here asks for what is missing and the next block head |
| LizardFrameDecoder.DCtx.DecodeIntoDstTurn | c-blosc2/internal-complibs/lizard-1.0/lizard_frame.c:1148-1169 | A block decoded into the destination |
| LizardFrameDecoder.DCtx.DecodeIntoTmpTurn | c-blosc2/internal-complibs/lizard-1.0/lizard_frame.c:1171-1205 | A block decoded into the own buffer, to be delivered in pieces |
| LizardFrameDecoder.DCtx.FlushTurn | c-blosc2/internal-complibs/lizard-1.0/lizard_frame.c:1207-1227 | The pieces are delivered in order |
| LizardFrameDecoder.DCtx.GetSuffixTurn | c-blosc2/internal-complibs/lizard-1.0/lizard_frame.c:1229-1246 | The end of a frame, where the declared size must have been reached |
| LizardFrameDecoder.DCtx.CheckSuffix | c-blosc2/internal-complibs/lizard-1.0/lizard_frame.c:1263-1271 | The checksum must be that of the content |
| LizardFrameDecoder.DCtx.SkipTurn | c-blosc2/internal-complibs/lizard-1.0/lizard_frame.c:1308-1317 | A skippable frame is passed over |
| LizardFrameSpec.RunConcat | c-blosc2/internal-complibs/lizard-1.0/lizard_frame.c:980-1362 | The machine of the format does not see how its input is cut |
| LizardFrameSpec.DeadIsFinal | c-blosc2/internal-complibs/lizard-1.0/lizard_frame.c:980-1362 | An error is final |
| LizardFrameSpec.MovesCompose | c-blosc2/internal-complibs/lizard-1.0/lizard_frame.c:980-1362 | Two moves, each of bytes read and bytes delivered, make one |
| LizardFrameEncoder.FrameDecodes | c-blosc2/internal-complibs/lizard-1.0/lizard_frame.c:260-312 | However the source was cut into blocks, the machine takes the frame from start to start and puts out the source |
| LizardFrameEncoder.BodyDecodes | c-blosc2/internal-complibs/lizard-1.0/lizard_frame.c:456-470 | All blocks of a frame decode to what they hold, one after the other |
| LizardFrameEncoder.BlockDecodes | c-blosc2/internal-complibs/lizard-1.0/lizard_frame.c:456-470 | A block decodes, compressed or stored |
| LizardFrameEncoder.HeaderDecodes | c-blosc2/internal-complibs/lizard-1.0/lizard_frame.c:402-427 | The decoder reads the header back as it was meant |
| LizardFrameEncoder.EndDecodes | c-blosc2/internal-complibs/lizard-1.0/lizard_frame.c:655-670 | The end mark and the checksum are accepted if the announced size was met |
| LizardFrameEncoder.CCtx.Begin | c-blosc2/internal-complibs/lizard-1.0/lizard_frame.c:363-430 | The header of a new frame is written, or the room is too small: it begins with the magic number, and ends in the second byte of the hash of the descriptor between |
| LizardFrameEncoder.CCtx.Update | c-blosc2/internal-complibs/lizard-1.0/lizard_frame.c:501-590 | What has been written is blocks, these and what is held back are the input so far, and they are exactly what Updated makes of the source: full blocks, each as the compressor makes it, and with automatic flushing a last one. At most LizardF_compressBound is written unless the update is tight, and then exactly one byte more if nothing but one-byte blocks gets smaller |
| LizardFrameEncoder.UpdatesJoin | c-blosc2/internal-complibs/lizard-1.0/lizard_frame.c:520-580 | Without automatic flushing the blocks do not tell how the source was cut up: two updates do what one does with all of it |
| LizardFrameEncoder.CCtx.Flush | c-blosc2/internal-complibs/lizard-1.0/lizard_frame.c:601-629 | What was held back becomes a block, as the compressor makes it, and nothing is held back |
| LizardFrameEncoder.CCtx.End | c-blosc2/internal-complibs/lizard-1.0/lizard_frame.c:641-673 | What was written since the header is exactly the frame of its blocks, the last of them what was held back, and decodes to the whole input, unless the announced size was missed |
| LizardFrameEncoder.CCtx.CompressBlock | c-blosc2/internal-complibs/lizard-1.0/lizard_frame.c:456-470 | One block is written as the compressor makes it, or as it is if that gives nothing |
| LizardFrameEncoder.CCtx.FullBlocks | c-blosc2/internal-complibs/lizard-1.0/lizard_frame.c:547-552 | The full blocks of the source go out one by one, as Filled says |
| LizardFrameEncoder.WorstCase | c-blosc2/internal-complibs/lizard-1.0/lizard_frame.c:436-449 | The worst case of an update is within LizardF_compressBound exactly unless a block of one byte is left over for which the bound has no room, and then it is one byte more; Update says what calls really write |
| LizardFrameEncoder.WorstFrameExact | c-blosc2/internal-complibs/lizard-1.0/lizard_frame.c:231-249 | The worst case of a frame is within LizardF_compressFrameBound exactly unless its header gives the content size and a block of one byte is left over, and then it is five bytes more; CompressFrame says what calls really write |
| LizardFrameEncoder.CompressFrame | c-blosc2/internal-complibs/lizard-1.0/lizard_frame.c:260-312 | A whole frame in one go is that of the blocks which one update makes of the source, and decodes to the source; it fails exactly if the room is below the bound; otherwise it stays within the bound unless there is a content size and one byte left over, and then it takes exactly five bytes more if nothing but one-byte blocks gets smaller |
| LizardFrameEncoder.OneByteUpdate | c-blosc2/internal-complibs/lizard-1.0/lizard_frame.c:436-470 | With every codec, an update of one byte on a fresh context with automatic flushing and no checksum writes LizardF_compressBound and one byte more |
| LizardFrameEncoder.OneByteFrame | c-blosc2/internal-complibs/lizard-1.0/lizard_frame.c:231-312 | With every codec, a frame of one byte whose header gives the content size takes five bytes more than LizardF_compressFrameBound |
| LizardFrameEncoder.FrameBound | c-blosc2/internal-complibs/lizard-1.0/lizard_frame.c:231-249 | The bound is that of one update with automatic flushing at the block size chosen for the source, and a header |
| LizardFrameEncoder.OptimalBSID | c-blosc2/internal-complibs/lizard-1.0/lizard_frame.c:203-217 | The smallest block size that holds the source, or the one asked for |
| CountingBarrier.NobodyLeavesEarly | c-blosc2/blosc/blosc.c:105-137 | In every run, nobody has left a barrier that somebody has not entered |
| CountingBarrier.NobodyIsForgotten | c-blosc2/blosc/blosc.c:105-137 | In every run, a barrier that everybody has entered has nobody left waiting in it, also when a fast thread is back for the next one: no wakeup is lost |
| CountingBarrier.EveryBarrierIsPassed | c-blosc2/blosc/blosc.c:105-137 | In every reachable state some thread can move, and every move brings the next broadcast closer |
| CountingBarrier.OneJobAtATime | c-blosc2/blosc/blosc.c:1010-1030 | Threads at work are at work on the same job, and none is while the master prepares the next |
| CountingBarrier.SpuriousWakeupBreaksIt | c-blosc2/blosc/blosc.c:105-120 | In every reachable state, waking a thread that waits takes it through a barrier that some other thread has not entered, and waking it is harmless exactly if the broadcast has come: the wait is not in a loop |
| CountingBarrier.SomebodyCanWait | c-blosc2/blosc/blosc.c:105-120 | For any number of workers there is a run in which a thread waits |
| CountingBarrier.EveryRunKeeps | c-blosc2/blosc/blosc.c:1897-1903 | The invariant of all runs over any number of jobs and threads |
| WinCondVar.OnlyABroadcastWakes | c-blosc2/blosc/win32/pthread.c:113-164 | Only a broadcast wakes, and only those who waited when it began, with one unit each |
| WinCondVar.BroadcastReturnsDone | c-blosc2/blosc/win32/pthread.c:194-221 | A broadcast returns with no waiters, an empty semaphore and the flag down, each waiter having taken one unit |
| WinCondVar.BroadcastReturns | c-blosc2/blosc/win32/pthread.c:194-221 | A broadcast cannot hang: somebody can always move, and every inner step brings its end closer |
| WinCondVar.EveryRunKeeps | c-blosc2/blosc/win32/pthread.c:113-221 | The invariant of all runs |
| ParallelCompress.OneThreadPerBlock | c-blosc2/blosc/blosc.c:1930-1939 | In every interleaving no block is in the hands of two threads |
| ParallelCompress.NoGiveupMakesAChunk | c-blosc2/blosc/blosc.c:2000-2033 | Every complete run in which nobody gave up leaves every block in its place in the table and in the destination; the places are disjoint, tile the output and stay within destsize |
| ParallelCompress.OutcomeIsScheduleFree | c-blosc2/blosc/blosc.c:1010-1030 | The result of a run does not depend on the schedule: the size if all blocks compress and fit, and otherwise 0, with some block that did compress, or the error of some block |
| ParallelCompress.EveryRunEnds | c-blosc2/blosc/blosc.c:1930-2042 | A thread that is not done can always step, and every step brings the end closer |
| ParallelCompress.RunToTheEnd | c-blosc2/blosc/blosc.c:1930-2042 | Every run can be carried on until all threads are done |
| ParallelCompress.EveryRunKeeps | c-blosc2/blosc/blosc.c:1930-2042 | The invariant of all interleavings |
| ParallelChunk.RunMakesChunk | c-blosc2/blosc/blosc.c:1930-2033 | A complete run in which nobody gave up, with the size filled in by the master, leaves a chunk of at most destsize bytes: the same predicate the serial engine meets |
| ParallelChunk.RunHoldsBlocks | c-blosc2/blosc/blosc.c:1966-2033 | In the memory after such a run each block lies where the table says, as its own code, behind the table |
| ParallelChunk.CompressInThread | c-blosc2/blosc/blosc.c:1973-1977 | blosc_c as a thread calls it, with a buffer of its own, always gives the code of the block, as long as the codec makes it, never nothing, unless a filter is unknown: then -9 |
| ParallelChunk.OutcomeOfJob | c-blosc2/blosc/blosc.c:1010-1030 | Every complete run of such threads ends in the size of the table and of all codes, in 0 if these do not fit together, or in an error, this exactly if a filter is unknown |
| ParallelChunk.CopyMakesChunk | c-blosc2/blosc/blosc.c:1966-2042 | Every complete run of threads that copy their shares leaves a chunk of the size of the source and 16 bytes, or 0 if that does not fit |
| ParallelChunk.ParallelContext | c-blosc2/blosc/blosc.c:1398-1440 | Compression by any number of threads under any schedules, with the copy when it does not fit, promises what CompressContext does: an error exactly for an unknown filter, otherwise a chunk of the source within destsize, and 0 only if destsize is below the size plus 16; the chunk is a copy only if it was to be one or the codes of the blocks do not fit together, and otherwise as long as these and the table |
| ParallelDecompress.SharesPartition | c-blosc2/blosc/blosc.c:1941-1955 | The ranges given out by ceiling division partition the blocks: each is exactly one thread's |
| ParallelDecompress.ReferenceComesFirst | c-blosc2/blosc/blosc.c:780-801 | In every run without errors no other block is undone against block 0 before that is whole |
| ParallelDecompress.ErrorFreeRunDecodesAll | c-blosc2/blosc/blosc.c:2035-2042 | Every complete run without errors has decoded every block, and output_bytes is the size of the source |
| ParallelProgress.HangsExactly | c-blosc2/blosc/blosc.c:780-801 | do_job can wait for ever if and only if it uses threads (several, and more than one whole block), the delta filter is in use, the splits of the first block of some thread but the first are good, and those of block 0 or of the first block of another such thread are bad; an unknown filter, which is reported only after the wait, plays no part |
| ParallelProgress.StuckMeans | c-blosc2/blosc/blosc.c:780-801 | Any run of threads that is stuck shows that condition |
| ParallelProgress.SomeRunHangs | c-blosc2/blosc/blosc.c:780-801 | Under that condition there is a run in which a thread waits for ever |
| ParallelProgress.NoDeadlock | c-blosc2/blosc/blosc.c:780-801 | In all other jobs of threads, whatever their errors, no run ever gets stuck |
| ParallelProgress.EveryRunEnds | c-blosc2/blosc/blosc.c:1941-2042 | No run of any job goes on for ever, errors early or late: every step brings its end closer |
| ParallelProgress.GoodSplitsDoNotHang | c-blosc2/blosc/blosc.c:753-824 | A job whose splits are all good is not one of those that can get stuck, whatever its filters |
| ParallelProgress.BadFirstBlockHangs | c-blosc2/blosc/blosc.c:1071-1097 | Bad splits of block 0 alone, with the delta filter and any other filters, known or not, can make do_job wait for ever |
| ParallelBytes.ErrorFreeRunRestores | c-blosc2/blosc/blosc.c:1941-2042 | Every complete run without errors whose steps have the effect on the bytes that they should leaves exactly the bytes of the source; ParallelRestore.CarryOut shows that they have it |
| ParallelBytes.EveryTraceMeans | c-blosc2/blosc/blosc.c:1941-2042 | At any moment of such a run each block of the destination has the bytes that its state says |
| ParallelBytes.UndoBlock | c-blosc2/blosc/blosc.c:780-801 | Undoing the delta filter of a block in the shared destination has just that effect on the bytes, block 0 being whole |
| ParallelRestore.Decompress | c-blosc2/blosc/blosc.c:1071-1097 | do_job, decompressing with any number of threads under any schedule: every chunk of a source gives the source back, and nothing behind it is touched; it is refused without room |
| ParallelRestore.ParallelDecompress | c-blosc2/blosc/blosc.c:1010-1030 | Whatever the schedule, the threads working on one destination come to an end and leave the source, and what they have added up is its size |
| ParallelRestore.CarryOut | c-blosc2/blosc/blosc.c:1941-2042 | In any state that a run can reach, carrying out the step of any thread on the destination has the effect that the model of the threads gives it |
| ParallelRestore.DecodeInThread | c-blosc2/blosc/blosc.c:1987-1989 | blosc_d as a thread calls it brings its block, and nothing else, as far as the delta filter needs it |
| ParallelDecompress.EveryRunKeeps | c-blosc2/blosc/blosc.c:1941-2042 | The invariant of all runs |
| BloscChunk.RoundTrip | c-blosc2/blosc/blosc.c:1398-1660 | For every source, level, type size, requested block size and filters other than TRUNC_PREC, known or unknown, with either form of header: compression fails exactly on unknown filters, succeeds with 16 bytes more than the source has, and decompression gives exactly the source if it was merely copied, or if none of the filters drops anything of the blocks that were made, which is so whenever the sizes are whole elements |
| BloscChunk.Compress | c-blosc2/blosc/blosc.c:1398-1465 | The result is at most destsize and a chunk of the source; 0 only if destsize is below the size plus 16; negative exactly for an unknown filter. The chunk is a copy only if that was asked for, the source is small, or the blocks do not fit; otherwise the result is the end of the table and the lengths of all blocks as the codec makes them |
| BloscCompressible.CompressRuns | c-blosc2/blosc/blosc.c:1398-1465 | A source whose blocks are runs of one byte behind the filters is not copied, if the codec may use the room it asks for: the result is at most ChunkCost |
| BloscCompressible.RunsFit | c-blosc2/blosc/blosc.c:945-1006 | All blocks of such a source fit, and end there at the latest |
| BloscCompressible.ChunkIsSmaller | c-blosc2/blosc/blosc.c:624-746 | That is less than the source, if the splits of whole blocks have 128 bytes or more |
| BloscCompressible.RunLeavesRuns | c-blosc2/blosc/blosc.c:577-617 | Where neither the bit shuffle nor the delta filter is used, a run of any byte is still one behind the filters |
| BloscCompressible.ZerosLeaveRuns | c-blosc2/blosc/blosc.c:577-617 | Zeros are still zeros behind every pipeline that can be undone |
| BloscChunk.CompressContext | c-blosc2/blosc/blosc.c:1398-1440 | With one thread: the blocks are compressed, and the data is copied only if it was to be or these do not fit; the result is a chunk of the source within destsize, the size of the table and of all blocks where it is no copy, 0 only if destsize is below the size plus 16, negative exactly for an unknown filter |
| BloscChunk.SerialCompress | c-blosc2/blosc/blosc.c:945-1006 | The table and the blocks of the chunk, in order, each with the code of its own bytes and as long as the codec makes it; 0 exactly if the next block does not fit |
| BloscChunk.CopyWhole | c-blosc2/blosc/blosc.c:1410-1436 | The copy, in one piece or by blocks, makes a chunk |
| BloscChunk.Decompress | c-blosc2/blosc/blosc.c:1617-1641 | Every chunk of a source gives the source back, and nothing behind it is touched; it is refused without room |
| BloscChunk.SerialDecompress | c-blosc2/blosc/blosc.c:945-1006 | Block after block is restored in place |
| BloscChunk.DecompressOne | c-blosc2/blosc/blosc.c:966-1000 | One block is restored, the first one in time for the delta filter |
| BloscChunk.FindBlock | c-blosc2/blosc/blosc.c:993-995 | The entry of the table leads to the code of the block, which reads back as its bytes behind the filters |
| BloscChunk.WholeIsUndoable | c-blosc2/blosc/blosc.c:1144-1190 | No filter drops anything if the sizes a caller sees are whole elements |
| BloscChunk.WholeSizesSuffice | c-blosc2/blosc/blosc.c:1144-1190 | The sizes a caller gives decide that, whatever block size is chosen |
| BloscBlock.CompressBlock | c-blosc2/blosc/blosc.c:624-746 | The code written is that of the filtered block, in its splits, within destsize, and as long as the codec makes them; 0 exactly if some split does not fit, and never where there is room for the raw splits; -9 exactly for an unknown filter |
| BloscBlock.CompressSplits | c-blosc2/blosc/blosc.c:653-746 | The splits one after the other read back to the block, those that the codec did not shrink as they are; their length is the sum of what each takes, and 0 exactly if one does not fit |
| BloscBlock.CompressSplit | c-blosc2/blosc/blosc.c:661-743 | One split: raw exactly if the codec gave nothing or as many bytes as the piece has, and otherwise what it gave; 0 exactly without room; nothing outside the room given is touched |
| BloscBlock.RunCodec | c-blosc2/blosc/blosc.c:677-680 | The codec is BloscLZ itself: nothing, exactly where its parse gives up, or a stream no longer than the room that decodes to the piece |
| BloscBlock.DecompressBlock | c-blosc2/blosc/blosc.c:828-941 | The block is decoded and its filters are undone |
| BloscBlock.DecodeToDelta | c-blosc2/blosc/blosc.c:828-941 | The same in a thread, as far as the delta filter |
| BloscBlock.DecodeSplits | c-blosc2/blosc/blosc.c:843-936 | The splits go where the first filter to be undone looks for them, and nowhere else; false exactly if one is bad |
| BloscBlock.DecompressSplits | c-blosc2/blosc/blosc.c:865-936 | The splits are decoded one after another exactly as the reading function says, or the first bad one stops it |
| BloscBlock.DecompressSplit | c-blosc2/blosc/blosc.c:868-933 | One split: raw exactly when its length is that of the piece, and otherwise run through the decompressor |
| BloscBlock.RunDecoder | c-blosc2/blosc/blosc.c:877-879 | BloscLZ itself decodes a piece of the chunk, and gives what the decoding function says |
| BloscBlock.SplitRead | c-blosc2/blosc/blosc.c:870-880 | A split reads back, raw or coded, whatever follows |
| BloscBlock.ReadSplitsAppend | c-blosc2/blosc/blosc.c:661-743 | Splits written one after another are read one after another |
| BloscGetitem.GetItem | c-blosc2/blosc/blosc.c:1705-1823 | For every chunk without the delta filter and every range within it, the bytes are those of the decompressed chunk, across blocks, in the leftover block and in copies; otherwise -1 |
| BloscGetitem.CopyItems | c-blosc2/blosc/blosc.c:1757-1818 | The loop over the blocks gathers exactly the bytes asked for |
| BloscGetitem.FetchBlock | c-blosc2/blosc/blosc.c:1798-1808 | A block decoded to a buffer of its own is the block |
| BloscGetitem.WantedPart | c-blosc2/blosc/blosc.c:1764-1781 | The part of a block that is wanted, with its ends clamped |
| BloscGetitem.AnyOffset | c-blosc2/blosc/blosc.c:767-801 | Without the delta filter it does not matter where a block lies |
| BloscHeader.HeaderRoundTrip | c-blosc2/blosc/blosc.c:1274-1395 | The header tells the decompressor all parameters if it is extended, and otherwise those whose pipeline the flags can tell |
| BloscHeader.BaseRoundTrip | c-blosc2/blosc/blosc.c:1213-1255 | Sizes and flags read back from any chunk |
| BloscHeader.FlagsTell | c-blosc2/blosc/blosc.c:1101-1132 | Each bit of the flags says what it should: the shuffles, the copy, the delta filter, the splitting |
| BloscHeader.WriteHeader | c-blosc2/blosc/blosc.c:1274-1395 | The bytes written are those of the header, and no others but the filter bytes |
| BloscHeader.MarkCopied | c-blosc2/blosc/blosc.c:1423-1425 | Marking a copy changes the flags only |
| BloscHeader.SplitIsMultiple | c-blosc2/blosc/blosc.c:1263-1271 | A block that is split has been made a multiple of the type size, so that the pieces are whole |
| BloscHeader.TuneBlocksize | c-blosc2/blosc/btune.c:40-115 | The block size of each level for buffers of at least 32 KB, the buffer below that, or what the user asks for, 128 at least; in each case cut to the buffer and then to whole elements if it holds any |
| BlockLayout.BlocksLine | c-blosc2/blosc/blosc.c:1184-1190 | The blocks lie one after another and cover the buffer, the last one being the leftover |
| Pipeline.PipelineC | c-blosc2/blosc/blosc.c:577-617 | For every pipeline without TRUNC_PREC the block goes through the filters in order, the buffers taking turns; the result lies in the buffer and at the place returned |
| Pipeline.PipelineD | c-blosc2/blosc/blosc.c:753-825 | Undoing a pipeline with the delta filter first and the bit shuffle last restores the block in its place, although the scratch buffer can be the source itself and the delta filter works in place |
| Pipeline.PipelineToDelta | c-blosc2/blosc/blosc.c:765-821 | The same as far as the delta filter, where a thread may have to wait: the block lies in its place as that filter left it |
| Pipeline.SpareIsSource | c-blosc2/blosc/blosc.c:815-821 | For every pipeline: the scratch buffer a filter is given is its own source exactly if another filter has been undone before |
| Pipeline.TopDeltaMissesBlock | c-blosc2/blosc/blosc.c:765-770 | A delta filter in the last slot above another filter is undone in a buffer that the block is not in |
| Pipeline.ApplyFilter | c-blosc2/blosc/blosc.c:583-614 | One filter, TRUNC_PREC aside, does what it should, or is unknown |
| Pipeline.UndoFilter | c-blosc2/blosc/blosc.c:764-816 | One filter is undone from one buffer into another |
| Pipeline.UndoDelta | c-blosc2/blosc/blosc.c:780-801 | A difference is undone where it lies, the first block being whole |
| Pipeline.FindNext | c-blosc2/blosc/blosc.c:556-563 | The next active filter below |
| Pipeline.LastFilter | c-blosc2/blosc/blosc.c:566-574 | The lowest active filter, or -1 |
| Shuffle.UnshuffleShuffle | c-blosc2/blosc/shuffle-generic.h:32-79 | Unshuffling undoes shuffling, and the other way round, for every type size and length |
| Shuffle.ShuffleGeneric | c-blosc2/blosc/shuffle-generic.h:32-54 | The loops and the copy of the remainder give the shuffled block, if what was vectorised before is right; nothing else is touched |
| Shuffle.UnshuffleGeneric | c-blosc2/blosc/shuffle-generic.h:60-79 | The same for unshuffling |
| Shuffle.MoveElements | c-blosc2/blosc/shuffle-generic.h:41-50 | The two loops give the transpose, from any row and column on |
| Shuffle.TransposedTwice | c-blosc2/blosc/shuffle-generic.h:32-79 | Transposing twice gives the matrix back |
| Shuffle.TransposedAt | c-blosc2/blosc/shuffle-generic.h:41-50 | Where each element goes |
| Shuffle.TransposedDecides | c-blosc2/blosc/shuffle-generic.h:41-50 | If every element is where it should be, the result is the transpose |
| ShuffleSse2.ShuffleSse2 | c-blosc2/blosc/shuffle-sse2.c:505-556 | With vectors the result is that of the simple loops, for every block and every type size but 2, 4 and 8 |
| ShuffleSse2.UnshuffleSse2 | c-blosc2/blosc/shuffle-sse2.c:561-613 | The same for unshuffling |
| ShuffleSse2.NetworkTransposes | c-blosc2/blosc/shuffle-sse2.c:169-193 | The four layers of unpack instructions are the transpose of a 16x16 matrix of bytes |
| ShuffleSse2.UnNetworkTransposes | c-blosc2/blosc/shuffle-sse2.c:383-426 | Those of the unshuffle are too, in the order in which the registers are stored |
| ShuffleSse2.PutLayer | c-blosc2/blosc/shuffle-sse2.c:169-193 | The loop of a layer, with its index that jumps, pairs the registers as the layer says |
| ShuffleSse2.PutUnLayer | c-blosc2/blosc/shuffle-sse2.c:383-408 | The loop of an unshuffle layer |
| ShuffleSse2.LayerBytes | c-blosc2/blosc/shuffle-sse2.c:169-173 | Where the layer takes each byte from, in bits of register and position number |
| ShuffleSse2.LayerQuads | c-blosc2/blosc/shuffle-sse2.c:186-190 | The same for the last layer |
| ShuffleSse2.ShuffleWindow | c-blosc2/blosc/shuffle-sse2.c:223-251 | A window of 16 elements and 16 bytes is put where it belongs and disturbs nothing that is right |
| ShuffleSse2.UnshuffleWindow | c-blosc2/blosc/shuffle-sse2.c:446-498 | The same for unshuffling |
| ShuffleSse2.Shuffle16Tiled | c-blosc2/blosc/shuffle-sse2.c:202-253 | The windows, of which the first two overlap, cover every byte of the elements |
| ShuffleSse2.Unshuffle16Tiled | c-blosc2/blosc/shuffle-sse2.c:432-501 | The same with the loops the other way round |
| ShuffleSse2.Stored | c-blosc2/blosc/shuffle-sse2.c:189-193 | Storing a vector of right bytes keeps what is right, also where windows overlap |
| Bits.TransposedBit | c-blosc2/blosc/bitshuffle-generic.h:42-49 | TRANS_BIT_8X8 is the transpose of an 8x8 matrix of bits |
| Bits.TransposedSquare | c-blosc2/blosc/bitshuffle-generic.h:42-49 | The three masked exchanges each swap one bit of the row number with one of the column number |
| Bits.TransposedByte | c-blosc2/blosc/bitshuffle-generic.c:70-84 | Byte k of the result has the bits k of the eight bytes |
| Bits.ExchangedBit | c-blosc2/blosc/bitshuffle-generic.h:42-49 | One masked exchange, bit by bit |
| Bits.XorTwice | c-blosc2/blosc/delta.c:16-161 | XORing twice with the same byte changes nothing |
| Bitshuffle.TransBitElem | c-blosc2/blosc/bitshuffle-generic.c:126-142 | For counts divisible by 8, row k of byte j has bit k of byte j of every element; otherwise -80 and nothing is written |
| Bitshuffle.UntransBitElem | c-blosc2/blosc/bitshuffle-generic.c:209-220 | The exact inverse, from rows of bits to elements |
| Bitshuffle.StagesMakeRows | c-blosc2/blosc/bitshuffle-generic.c:126-142 | The byte, bit and row stages together make the rows |
| Bitshuffle.StagesUnmakeRows | c-blosc2/blosc/bitshuffle-generic.c:209-220 | The two stages of the inverse |
| Bitshuffle.OwnScratchExactly | c-blosc2/blosc/bitshuffle-generic.c:145-166 | The first stage of the inverse, with the source as its scratch buffer, transposes every matrix exactly if there are at most eight elements |
| Bitshuffle.RestoredExactly | c-blosc2/blosc/bitshuffle-generic.c:209-220 | So the inverse, with its source as scratch, restores every block if and only if there are at most eight elements |
| Bitshuffle.UntransInPlace | c-blosc2/blosc/bitshuffle-generic.c:209-220 | With the source as scratch the result is made of what the first stage leaves of the source that it overwrites |
| Bitshuffle.SecondByteLost | c-blosc2/blosc/bitshuffle-generic.c:145-166 | With two columns or more the second byte is overwritten before it is read |
| Bitshuffle.SweepEights | c-blosc2/blosc/bitshuffle-generic.c:145-166 | What the loops make of a matrix that they overwrite as they go |
| Bitshuffle.RowsDecideElements | c-blosc2/blosc/bitshuffle-generic.c:126-142 | The rows determine the elements |
| Bitshuffle.ElementsDecideRows | c-blosc2/blosc/bitshuffle-generic.c:126-142 | The elements determine the rows |
| Bitshuffle.TransBitByte | c-blosc2/blosc/bitshuffle-generic.c:52-86 | Bit rows of groups of eight bytes |
| Bitshuffle.TransElem | c-blosc2/blosc/bitshuffle-generic.c:97-111 | Cells of any width are transposed |
| Bitshuffle.MoveEights | c-blosc2/blosc/bitshuffle-generic.c:13-41 | The byte transpose in groups of eight rows |
| Bitshuffle.ShuffleBitEightElem | c-blosc2/blosc/bitshuffle-generic.c:168-206 | Groups of eight bytes are spread over eight elements |
| Filters.BitShuffle | c-blosc2/blosc/shuffle.c:389-407 | The dispatch on the number of elements |
| Filters.BitUnshuffle | c-blosc2/blosc/shuffle.c:410-426 | The inverse dispatch, where nothing was lost |
| Filters.BitShuffleInjective | c-blosc2/blosc/shuffle.c:389-407 | If the number of elements is not a multiple of 8, or no tail is left over, the output determines the input |
| Filters.BitShuffleLosesTail | c-blosc2/blosc/shuffle.c:392-404 | Otherwise two different inputs, which differ in the tail, have the same output |
| Delta.DeltaEncoder | c-blosc2/blosc/delta.c:16-93 | The block, XORed word by word with the beginning of the chunk, with words of 1, 2, 4 and 8 bytes for these type sizes, of 8 for other multiples of 8 and of 1 for any other: byte by byte for each of them |
| Delta.DeltaDecoder | c-blosc2/blosc/delta.c:96-161 | Undone in place, the reference being the beginning of the same chunk, byte by byte for each type size |
| Delta.FirstRoundTrip | c-blosc2/blosc/delta.c:16-161 | The reference block comes back if it consists of whole words |
| Delta.OtherRoundTrip | c-blosc2/blosc/delta.c:16-161 | So does any other block |
| Delta.FirstBehindFilters | c-blosc2/blosc/delta.c:16-161 | Behind other filters the reference block comes back exactly if what they have made of it agrees with the chunk as it was, but for the last word |
| Delta.TailIsLost | c-blosc2/blosc/delta.c:30-49 | Bytes that make up no word are lost: two blocks that differ there have the same code |
| BloscLzEncoder.EncodeMatch | c-blosc2/blosc/blosclz.c:260-389 | A match is written, its last two positions enter the hash table and the next run is opened, exactly as in the parse, or there is no room |
| BloscLzEncoder.PutLength | c-blosc2/blosc/blosclz.c:353-357 | The length bytes written are those of the format |
| BloscLzEncoder.PutDistance | c-blosc2/blosc/blosclz.c:347-379 | The distance bytes written are those of the format |
| BloscLzEncoder.PutHead | c-blosc2/blosc/blosclz.c:347-379 | The control byte written is that of the format |
| BloscLzDecoder.ReadLength | c-blosc2/blosc/blosclz.c:438-442 | The loop adds up the length bytes as the reading function does |
| BloscLzDecoder.CopyLiterals | c-blosc2/blosc/blosclz.c:485-496 | A run of literals is appended |
| LzCopy.CopyChunks | c-blosc2/blosc/blosclz.c:110-110 | Chunks of eight give the bytes of the plain copy |
| LizardEncoder.CStream.PutLiteralLength | c-blosc2/internal-complibs/lizard-1.0/lizard_compress_liz.h:57-65 | The token and what is behind it say the length of the literals |
| LizardEncoder.CStream.PutMatchLength | c-blosc2/internal-complibs/lizard-1.0/lizard_compress_liz.h:139-149 | The upper bits of the token and what is behind it say the length of the match |
| LizardDecoder.DStream.TakeLiterals | c-blosc2/internal-complibs/lizard-1.0/lizard_decompress_liz.h:80-86 | Literals are appended by a wild copy that touches nothing it should not |
| LizardDecoder.DStream.TakeTail | c-blosc2/internal-complibs/lizard-1.0/lizard_decompress_liz.h:203-209 | The last literals are appended if they fit |
| LizardParser.CountOnce | c-blosc2/internal-complibs/lizard-1.0/lizard_common.h:479-482 | A comparison of some bytes either extends the common prefix by all of them or shows that it ends within |
| LizardFrameDecoder.DCtx.ReadFrameHeader | c-blosc2/internal-complibs/lizard-1.0/lizard_frame.c:775-860 | A whole header is checked and saved |
| LizardFrameDecoder.DCtx.InitFrame | c-blosc2/internal-complibs/lizard-1.0/lizard_frame.c:1027-1042 | A frame begins empty, with buffers large enough for its blocks |
| LizardFrameDecoder.DCtx.GetHeaderTurn | c-blosc2/internal-complibs/lizard-1.0/lizard_frame.c:1015-1025 | The start of a frame |
| LizardFrameDecoder.DCtx.StoreHeaderTurn | c-blosc2/internal-complibs/lizard-1.0/lizard_frame.c:1027-1042 | A header that comes in pieces |
| LizardFrameDecoder.DCtx.SkipSizeTurn | c-blosc2/internal-complibs/lizard-1.0/lizard_frame.c:1273-1306 | The size of a skippable frame, in one piece or several |
| LizardFrameDecoder.DCtx.BeginBlock | c-blosc2/internal-complibs/lizard-1.0/lizard_frame.c:1070-1088 | What the four bytes before a block lead to |
| LizardFrameDecoder.DCtx.StoreSuffixTurn | c-blosc2/internal-complibs/lizard-1.0/lizard_frame.c:1248-1261 | A checksum that comes in pieces |
| LizardFrameEncoder.CCtx.CompleteTmp | c-blosc2/internal-complibs/lizard-1.0/lizard_frame.c:519-545 | The block begun earlier is completed and written, or grows; what is still to come out stays the same |
| LizardFrameEncoder.CCtx.TakeRest | c-blosc2/internal-complibs/lizard-1.0/lizard_frame.c:554-586 | The rest of the source becomes a last block or is held back |
| LizardFrameEncoder.CCtx.PutEnd | c-blosc2/internal-complibs/lizard-1.0/lizard_frame.c:655-668 | The end mark, and the checksum where the frame has one |
| LizardFrameEncoder.OneGo | c-blosc2/internal-complibs/lizard-1.0/lizard_frame.c:286-308 | The calls of LizardF_compressFrame make one frame of the blocks that an update makes of the source |
| BloscChunk.CompressOne | c-blosc2/blosc/blosc.c:966-1000 | One block of the serial loop: its start enters the table and its code follows the others |
| BloscChunk.CopyBlocks | c-blosc2/blosc/blosc.c:964-971 | Copying block by block copies everything |
| BloscGetitem.CopyPiece | c-blosc2/blosc/blosc.c:1784-1816 | The part of one block, copied or decoded |
| Delta.EncodeWords | c-blosc2/blosc/delta.c:30-93 | All words of a block from some word on are XORed with those of the reference |
| Delta.DecodeWords | c-blosc2/blosc/delta.c:110-161 | The same in place, where the reference must be undone first |
| ShuffleSse2.Load | c-blosc2/blosc/shuffle-sse2.c:212-215 | Sixteen loads put sixteen rows in the registers |
| ShuffleSse2.Store | c-blosc2/blosc/shuffle-sse2.c:246-250 | Sixteen stores put the transposed window where it belongs |
| ShuffleSse2.ShuffleElements | c-blosc2/blosc/shuffle-sse2.c:214-252 | All windows of sixteen elements |
| ShuffleSse2.UnshuffleColumns | c-blosc2/blosc/shuffle-sse2.c:446-499 | All elements of a window |

## Left out

- Linked blocks and dictionaries of Lizard, with LizardF_updateDict: only independent blocks; a frame that says otherwise ends in a state of its own.
- Huffman coding: the block codec is the one built with LIZARD_NO_HUFFMAN, levels 10 to 29, in which a stream marked as coded is refused.
- The other parsers of Lizard and the price functions: they choose other sequences for the same codewords.
- Malformed Lizard blocks: the decoders are specified on all streams for which `Decode` is not `Unknown`; where a copy may go past the end of a stream or of the buffer the model says nothing, as the decoder does not take stored blocks off the room it reckons with.
- Lizard streams as buffers of a fixed size: they grow as needed, as their capacity checks are commented out; the up to 8 bytes that the encoder's wild copy writes past a stream are not modelled.
- Counting common bytes with the intrinsics of the processor: the first byte that differs is found by recursion.
- LizardFrameEncoder.CCtx.Update: takes the block compressor as a function of the block and of the number of calls before, with the contract `BlockCodec`, which LizardFrameCodec.LizardIsBlockCodec proves of Lizard, instead of calling it.
- LizardFrameDecoder.DCtx.Decompress: the source is a sequence and not an array, so overlap of source and destination is not modelled; XXH32 is any function; the error codes are one.
- LizardFrameDecoder.DCtx.InitFrame: the buffers of the contexts are sequences; allocation does not fail.
- BloscLzEncoder.Compress: the share of the length that a level grants to the output is any number, in place of a table of floating-point factors.
- LzCopy.BlockCopy: chunks of 8 bytes, not the 32 of Windows.
- LizardPeriodic.RepeatedBlock: periods of 8 to 32 bytes and, in RunBlock, of one; periods of two to seven bytes, whose nearest repetitions are too near to be used, are not worked out.
- BloscBlock.RunCodec: BloscLZ writes to a buffer of its own that is then copied to the chunk.
- The other codecs, LZ4, LZ4HC, Snappy, Zlib and Zstd, and Lizard within a chunk.
- Pipeline.PipelineC: pipelines with TRUNC_PREC (code 4), which drops bits on purpose and is not undone.
- Pipeline.ApplyFilter: the same filter.
- BloscChunk.Compress: the same filter; and the delta filter with a type size above the number of bytes, where the filter writes beyond the block.
- BloscChunk.RoundTrip: the same two cases.
- BloscChunk.CompressContext: one thread; ParallelChunk.ParallelContext makes the same promise for several.
- ShuffleSse2.ShuffleSse2: the kernels for types of 2, 4 and 8 bytes are not part of this model; the others are those of shuffle16 and its tiled form, which are one method.
- ShuffleSse2.UnshuffleSse2: the same types are excluded.
- The AVX2 and NEON kernels, and the choice of an implementation at run time.
- BloscGetitem.GetItem: chunks with the delta filter, for which a block alone does not decode.
- BloscChunk.Decompress: chunks that a compressor made; malformed chunks are not modelled.
- ParallelDecompress.EveryRunKeeps: decoding a block as far as the delta filter is one step that gives bytes or an error, and so is compressing one in ParallelCompress, with the copy to the destination as a step of its own.
- ParallelRestore.Decompress: the steps of the threads are carried out one at a time, on one destination.
- ParallelChunk.ParallelContext: the runs are those of the interleaving models, with the memory and the job of blosc_c as relations; no array is shared between running methods.
- Starting and joining threads, and the change of their number; condition variables of pthread itself are taken as waking only at a broadcast, and in WinCondVar they are built from a semaphore and an event.
- Packed super-chunks, frames on disk, the Python layer, environment variables, tables of names.
