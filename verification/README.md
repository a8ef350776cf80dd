# Compression, streaming and settings of a media server: model and proofs

This project models, in Dafny, the parts of the media server's code base that do the most intricate work, and proves what
they promise:

- the DEFLATE compressor and inflater of `ext/miniz/miniz.c`: match finder and lazy parser over a ring buffer, the code
  buffer, Huffman code construction (radix sort, the in-place minimum-redundancy algorithm, length limiting, canonical
  codes), dynamic and static block headers, flushing, zlib wrapping and checksum; the inflater's fast lookup tables, bit
  buffer, block decoding and match copying; and the sorted index of a zip archive;
- the Huffman table optimiser and the entropy coder of the JPEG encoder in `ext/jpge/jpge.cpp`, both passes;
- the ring buffer that hands one stream to several readers in `src/pupnp/connection_proxy.cpp`;
- the file-backed settings map in `src/platform/inifile.cpp`.

The main results, each for all inputs:

- **What goes in comes out.** Whatever bytes a compressor is given, in however many calls and with whatever flushes between
  them, once finished its output inflates to exactly those bytes, by a reference reader of RFC 1950 and RFC 1951 and by the
  model of the inflater's own code. And it does finish: a call that its output does not hold up takes in all it is given, and
  a flush puts out all of it, whether the output goes to a callback or to buffers of any size; so compressing to memory and
  inflating again gives the source back. This needs that every block, in whichever form, finds room in the output buffer
  with all that a flush puts behind it. For dynamic blocks that follows from a bound on what limiting Huffman code lengths
  to 15 bits can cost. With zlib wrapping there is one exception: after 2^32 flushes the header is put out again.
  A run that gets there is shown, and how the second header is then misread is determined exactly: at a byte boundary, the
  stream is refused if a stored block, a dynamic one or one without data comes next, whatever follows; behind it a static
  block with data, or a second header within a byte, may be misread without being refused at once.
- **The format is the standard's.** What compressor and inflater share is stated by the numbers of RFC 1950, RFC 1951 and
  ITU-T T.81: headers, order of bits, code words, tables of lengths and distances, coefficients.
- **Matches are found.** The hash chains always hold what they should, across wrapping positions and full flushes; so the
  match finder misses a longer match that the ring still holds only behind as many others as it has probes.
- **Huffman codes are optimal and fit.** The in-place merge gives a code that no prefix code beats; the code builder's
  tables are prefix-free, use up the code space, respect the limit, and are optimal unless a length had to be limited. How
  large the total weight must be for a code of a given length is determined exactly, and the weights determine the lengths.
- **Every reader sees the stream.** In every run of the shared ring, however the critical sections of producer and readers
  interleave, each reader has got a prefix of the stream, no byte is written under a reader's window, and there is always
  someone who can go on. Readers that come late are let in as long as another one is before the detach threshold.
- **Scans decode, or cannot be coded.** From the bytes of a two-pass JPEG scan a decoder with the file's Huffman tables
  recovers every quantised coefficient, exactly if no measured code length is over 32, the longest the table optimiser has
  room for. So it is for fewer than 11405772 AC symbols to a table; and a scan with just so many is given for which it is
  not so.
- **Settings come back, except where they do not.** A saved map loads again as it was exactly if its keys are not of two
  bad forms, for which the failing saves are shown.

Code that works in place is modelled in place, by classes and by methods on arrays; each is proved against a specification
function or predicate, and the lemmas are about those.

## Model

| member | source | states |
|---|---|---|
| RadixSort.RadixSortSyms | ext/miniz/miniz.c:1819-1833 | The records come back sorted by key and, among equal keys, in their old order, in one of the two buffers, although passes over a digit that is 0 everywhere are skipped. |
| MinimumRedundancy.CalculateMinimumRedundancy | ext/miniz/miniz.c:1836-1854 | Working in place, with weights, links and lengths in one array and sums kept modulo the key's width, it replaces each key by the leaf's depth in the tree that the two-queue merge builds, and changes nothing else. |
| MinimumRedundancy.MergedIsComplete | ext/miniz/miniz.c:1836-1854 | Whatever the weights are, those lengths descend, lie between 1 and n - 1 and use up the code space exactly. |
| MinimumRedundancy.MergedIsMinimal | ext/miniz/miniz.c:1836-1854 | On sorted weights whose sum fits the key, no prefix code has a smaller weighted length. |
| MinimumRedundancy.MergedDepth | ext/miniz/miniz.c:1836-1854 | A longest code of d bits needs a total weight of at least 2 Fib(d + 1) - 1, since ties are decided in favour of leaves. |
| DeepMerge.DeepCode | ext/miniz/miniz.c:1836-1854 | That bound is exact: for every d from 4 on there are weights of just that total for which the algorithm gives d bits. |
| MinimumRedundancy.MergedLeaf | ext/miniz/miniz.c:1836-1854 | A symbol of weight v with a code of d bits needs a total of at least v Fib(d + 1). |
| MinimumRedundancy.MergedDepthLimits | ext/jpge/jpge.cpp:218-226 | Counts that fit 16 bits need no code of more than 22 bits, totals below 11405773 none of more than 32, for which the histogram of lengths has room. |
| MergeDetermined.MergedOnce | ext/miniz/miniz.c:1836-1854 | For any weights there is but one list of lengths: ties or not, the weights determine the run of the merge. |
| MergeDetermined.MeasureExists | ext/jpge/jpge.cpp:218-219 | Any records whose keys fit can be sorted and measured. |
| LengthLimit.EnforceMaxCodeSize | ext/miniz/miniz.c:1858-1869 | Folding the long codes and repairing terminates with as many codes as before, none over the limit, and the code space used up exactly; 32-bit sums do not overflow. |
| LengthLimit.RepairBalances | ext/miniz/miniz.c:1863-1868 | So many repairs as the space is overfull keep the number of codes and end with a full code. |
| LimitCost.LimitedCost | ext/miniz/miniz.c:1858-1869 | Lengths limited to 15 bits cost at most (n + extra) / 500 of the total weight more than the minimal ones, n being the number of codes. |
| HuffmanTables.OptimizeTable | ext/miniz/miniz.c:1871-1904 | Exactly the counted symbols get lengths, none over the limit, more frequent ones no longer than rarer ones; the lengths fit, use up the code space if there are two or more, and the codes are the canonical ones, bit-reversed. |
| HuffmanTables.FixedTable | ext/miniz/miniz.c:1871-1903 | For given lengths it assigns the canonical codes, bit-reversed. |
| TableCost.NoCodeIsCheaper | ext/miniz/miniz.c:1871-1904 | If no measured length is over the limit, no prefix code for the counted symbols, and so no other table, needs fewer bits for these counts than the table that was built. |
| TableCost.CostAgainst | ext/miniz/miniz.c:1871-1904 | In any case the table costs little more than any other table that has the counted symbols. |
| CanonicalCodes.CodesArePrefixFree | ext/miniz/miniz.c:1896-1903 | The canonical code words of two symbols are never prefixes of one another. |
| CanonicalCodes.DecodeInvertsCode | ext/miniz/miniz.c:1896-1903 | Reading bit by bit what starts with a symbol's code word gives that symbol and the word's length. |
| CanonicalCodes.CompleteDecodes | ext/miniz/miniz.c:1515-1518 | With a full code every long enough bit string starts with a symbol's code word. |
| CanonicalOrder.FirstCode | ext/miniz/miniz.c:1896-1903 | The first symbol of the shortest length has a code of zeros. |
| CanonicalOrder.NextCode | ext/miniz/miniz.c:1896-1903 | Symbols of one length have consecutive codes, in the order of the symbols. |
| CanonicalOrder.NextLengthCode | ext/miniz/miniz.c:1896-1903 | The first code of a longer length is the last of the length before it plus 1, with a zero for every bit more. |
| CanonicalOrder.BitOfCode | ext/miniz/miniz.c:1896-1903 | Code words are written from their highest bit on. |
| BitBuffers.BitWriter.PutBits | ext/miniz/miniz.c:1906-1915 | So many bits are added to what has been put, lowest first, whatever the bit buffer held; it never overflows 32 bits. |
| DeflateFormat.BitOfByte | ext/miniz/miniz.c:1906-1915 | Bit j of byte i is the bit at place 8 i + j of a stream. |
| BitBuffers.BitWriter.Restore | ext/miniz/miniz.c:2187-2211 | Going back to a mark undoes all that has been put since. |
| CodeLengthRuns.Packer.Pack | ext/miniz/miniz.c:1917-1971 | The run-length items unpack to just the given lengths, and are no longer than those; no three zeros and no four other equal lengths in a row are left as they are. |
| DeflateFormat.RepeatCodes | ext/miniz/miniz.c:1537-1544 | What code lengths 0 to 15 and the repeat codes 16, 17 and 18 with their extra bits stand for, by the numbers of section 3.2.7 of RFC 1951; a repeat of nothing is refused. |
| DynamicHeader.StartDynamicBlock | ext/miniz/miniz.c:1936-1996 | Both tables are built from the counts, with the end of block counted once, and the header that is put out reads back as their lengths without trailing zeros, whatever follows; it has at most 4551 bits, sends no trailing zeros but those it must, and no repeats one by one. |
| DynamicHeader.HeaderRoundTrip | ext/miniz/miniz.c:1952-1995 | A reader of section 3.2.7 of RFC 1951 gets from a header the lengths of both alphabets and what follows. |
| DeflateFormat.HeaderInOrder | ext/miniz/miniz.c:1982-1988 | On the bits of a header: three counts, then three bits each for the lengths of the codes 16, 17, 18, 0, 8, 7, 9, 6, 10, 5, 11, 4, 12, 3, 13, 2, 14, 1 and 15, as far as they are sent. |
| DeflateFormat.SizesReadInOrder | ext/miniz/miniz.c:1504-1505 | A reader puts those lengths back in the same order. |
| DynamicHeader.BuiltIsAccepted | ext/miniz/miniz.c:1511-1518 | The inflater accepts every table the compressor builds. |
| DeflateBlock.LengthCoding | ext/miniz/miniz.c:1767-1781 | For every match length the compressor's symbol and extra bits say the same as the inflater's base values. |
| DeflateBlock.DistCoding | ext/miniz/miniz.c:1783-1816 | Likewise for every distance. |
| DeflateFormat.LengthTable | ext/miniz/miniz.c:1430-1431 | The inflater's base values and extra bits for lengths follow section 3.2.5 of RFC 1951: from 3 on without gaps, a bit more for every four symbols, and 258 by itself. |
| DeflateFormat.DistTable | ext/miniz/miniz.c:1432-1433 | Likewise those for distances, from 1 to 32768. |
| DeflateBlock.WriteTokens | ext/miniz/miniz.c:2108-2151 | Puts out just the bits of the tokens and of the end of block, with any tables that have the symbols needed. |
| DeflateBlock.TokensRoundTrip | ext/miniz/miniz.c:2108-2151 | Those bits read back as the same tokens, and nothing behind them is touched. |
| DeflateBlock.CompressDynamicBlock | ext/miniz/miniz.c:2153-2160 | A block's own tables have codes for all its tokens, and header and tokens together read back as those. |
| DeflateBlock.CompressStaticBlock | ext/miniz/miniz.c:2108-2160 | The same with the fixed tables, which use up the code space. |
| DeflateBlock.FixedWords | ext/miniz/miniz.c:1998-2015 | The fixed code word of every literal and length symbol, by the numbers of section 3.2.6 of RFC 1951: 8 bits from 48 on, 9 from 400, 7 from 0, 8 from 192. |
| DeflateBlock.FixedDistWords | ext/miniz/miniz.c:1998-2015 | A distance symbol's fixed code word is its own five bits. |
| DeflateBlock.StartStaticBlock | ext/miniz/miniz.c:1998-2015 | Leaves just those lengths, and those words bit-reversed, in the arrays. |
| DeflateFormat.BlockKinds | ext/miniz/miniz.c:1457-1502 | The first bit of a block says whether it is the last, the next two, lowest first, whether it is stored, has fixed codes or its own; the fourth kind is refused. |
| DeflateCost.BlockCost | ext/miniz/miniz.c:2108-2151 | A block's length is what its two tables cost on its counts, plus extra bits that do not depend on the tables. |
| DeflateCost.DynamicBlockBits | ext/miniz/miniz.c:841-848 | Whatever its counts are, the tokens of a dynamic block and its end take at most 10.256 bits for every byte of the codes they are made from, and nine more: with the header less than the output buffer takes. |
| DeflateWriter.BlockWriter.Begin | ext/miniz/miniz.c:2177-2187 | Puts the zlib header when the count of flushes, modulo 2^32, is 0, and the final flag. |
| DeflateWriter.BlockWriter.CompressBlock | ext/miniz/miniz.c:2153-2160 | What is put reads back as a block of the recorded tokens and stays within the bound for coded blocks. |
| DeflateWriter.BlockWriter.PutStored | ext/miniz/miniz.c:2196-2206 | Length, complement and bytes, byte-aligned, read back as a stored block of those bytes. |
| DeflateFormat.StoredOnBytes | ext/miniz/miniz.c:1459-1464 | At a byte boundary a stored block is a byte 0 or 1, its length and the complement of that, low bytes first, and its bytes. |
| DeflateWriter.BlockWriter.EndFlush | ext/miniz/miniz.c:2215-2228 | Behind the block go the rest of the byte and the checksum, or an empty stored block; the stream then decompresses to, or goes on from, what the blocks so far stand for, unless a byte had no room or a second header was put out. |
| LzCodeBuffer.CodeBuffer.RecordLiteral | ext/miniz/miniz.c:2466-2473 | Adds a literal to the recorded tokens and to the counts, by its bytes and a flag bit. |
| LzCodeBuffer.CodeBuffer.RecordMatch | ext/miniz/miniz.c:2475-2495 | Adds a match. |
| LzCodeBuffer.CodeBuffer.ReadTokens | ext/miniz/miniz.c:2113-2148 | Reading a sealed buffer, flag by flag, gives back the recorded tokens in order. |
| LzCodeBuffer.CodeBuffer.CountsFit | ext/miniz/miniz.c:1836-1854 | A block's counts stay below 2^16 with the end of block, so the 16-bit keys never overflow. |
| LzWindow.ProbeCell | ext/miniz/miniz.c:2299-2325 | A 16-bit hash chain entry within reach names the ring cell at its distance, even after positions have wrapped. |
| LzMatch.FindMatch | ext/miniz/miniz.c:2299-2325 | A match it reports repeats what lies ahead, within the distance the ring still holds, and is longer than the one it was given, whatever the hash chains contain; and no link of the chain, as far as it goes on in reach, up to one less than there are probes, has a longer one. |
| LzMatch.FindRun | ext/miniz/miniz.c:2546-2554 | Reports how often the byte before is repeated, all of it, if at least three times. |
| LzMatch.RollOn | ext/miniz/miniz.c:2514-2520 | The hash that rolls along is that of the last three bytes. |
| LzMatch.LinkKeepsIndex | ext/miniz/miniz.c:2516-2536 | Linking a position in keeps the tables right: every bucket has the last position with its hash since the last full flush, every position in the ring the one before it with the same hash, in 16 bits. |
| LzMatch.MissedOnlyInCrowds | ext/miniz/miniz.c:2299-2325 | With such tables, a longer match that the ring still holds is missed only if as many positions with the same hash as there are probes lie between, itself among them, or one whose 16 bits are 0. |
| LzCompressor.Compressor.Fill | ext/miniz/miniz.c:2505-2540 | Takes in bytes in order until a longest match lies ahead; ring, mirror and positions keep standing for all bytes so far, and the hash tables for all positions with three bytes. |
| LzCompressor.Compressor.ChooseMatch | ext/miniz/miniz.c:2544-2562 | No match that is longer than the one it settles for is missed but in a crowd, or none of a run in run-length mode; it is dropped exactly if it has three bytes 8192 or more back, is at the distance of the ring's start, or has five bytes at most while the filter is on. |
| LzCompressor.Compressor.ParseStep | ext/miniz/miniz.c:2563-2594 | Which tokens lazy matching records, what it defers and how far it moves, case by case; and the tokens recorded since the block's start and the deferred literal stand for just the bytes passed. |
| LzCompressor.Compressor.ChooseForm | ext/miniz/miniz.c:2187-2213 | Stored, dynamic or static, the form chosen stands for the same bytes, and it and what the flush puts behind it have room. With the bytes still in the ring, a coded block is shorter than they are, and a stored one is asked for or the coded form would not be; static codes are taken if forced or for less than 48 bytes. |
| LzCompressor.CodedHasRoom | ext/miniz/miniz.c:2208-2228 | No coded block fills the output buffer: the fallback to static codes is never taken and the assertion at the end of a flush holds. |
| LzCompressor.Compressor.FlushBlock | ext/miniz/miniz.c:2162-2261 | The block put out stands for the bytes since the last one; flushing leaves no token pending; what is put out is handed to the callback or copied as far as there is room, and the result says how much waits or that the callback has failed. |
| LzCompressor.Compressor.CompressNormal | ext/miniz/miniz.c:2497-2613 | All of the source is taken in, and when flushing nothing is left ahead, unless a block was put out for which the output had no room or the callback failed; flushes that are not asked for are at least 31744 bytes apart. |
| LzCompressor.Compressor.AllAccountedFor | ext/miniz/miniz.c:2497-2613 | At any time the blocks put out, the pending tokens and the deferred literal expand to what the parser has passed. |
| LzCompressor.Stream.Compress | ext/miniz/miniz.c:2636-2690 | Over any sequence of calls: a call that nothing holds up takes in all of its source, a flushing one puts out all that has been taken in, a full flush forgets the dictionary and a finishing one finishes; one that is held up has put out a block. What has been put out is handed over in order, as far as there is room. Once finished, the blocks expand to all bytes taken in, the checksum is theirs, and the output decompresses to them unless zlib wrapping has seen more than 2^32 flushes, for which so many calls or 31744 times so many bytes are needed; calls that are refused take nothing and put out nothing. |
| DeflateOutlet.Outlet.Emit | ext/miniz/miniz.c:2236-2260 | What a flush has put out goes to the callback, all or nothing, or to the caller's buffer as far as there is room; the rest waits. |
| DeflateCalls.CompressToOutput | ext/miniz/miniz.c:2726-2733 | Succeeds exactly if the callback never fails; then what it has been given decompresses to the source, if with zlib wrapping that is shorter than 31744 times 2^32 bytes. |
| DeflateCalls.Deflate | ext/miniz/miniz.c:1064-1110 | Calls the compressor until the output is full, or the input taken in and nothing waits: when each answer is given, how much has been taken and handed over, and what a flush has achieved. |
| DeflateCalls.CompressToMemory | ext/miniz/miniz.c:1131-1153 | A whole source is compressed to at most so many bytes that decompress to it, or the buffer is full; sizes over 32 bits are refused. |
| SecondHeader.SecondHeaderReads | ext/miniz/miniz.c:1459-1464 | A second header at a byte boundary reads as the start of a stored block: of none exactly if the three bytes behind it are not some byte, 0xFE and that byte's complement, or too few bytes follow. |
| SecondHeader.SecondHeaderDooms | ext/miniz/miniz.c:2180-2183 | If what stands behind it can never be that, every stream that starts so is refused. |
| SecondHeader.CodedAtWrap | ext/miniz/miniz.c:2180-2228 | When a sound zlib stream of 2^32 flushes, at a byte boundary, goes on or ends with a dynamic block, or with a static one without data, it is refused whatever is put out behind that. |
| SecondHeader.StoredAtWrap | ext/miniz/miniz.c:2180-2228 | Likewise if it goes on or ends with a stored block of up to 32768 bytes. |
| SecondHeader.EmptyFlushes | ext/miniz/miniz.c:2681-2689 | A new compressor gets there: after 2^32 flushes without data and an end without data, what it has put out is refused. |
| Adler32.ComputeAdler32 | ext/miniz/miniz.c:977-990 | Eight bytes at a time, reduced once per block of 5552, gives the checksum defined byte by byte, without 32-bit overflow; a null buffer gives 1. |
| Adler32.PerByteIsReduced | ext/miniz/miniz.c:977-990 | Reducing after every byte and reducing once at the end agree. |
| Adler32.PerByteAppend | ext/miniz/miniz.c:977-990 | The sums over two pieces are those over the second, started with those over the first. |
| Adler32.ChecksumInPieces | ext/miniz/miniz.c:977-990 | Checksumming in pieces is checksumming the whole. |
| Adler32.ChecksumIsSums | ext/miniz/miniz.c:977-990 | From 1 on, the two halves are 1 plus the sum of the bytes and the number of bytes plus the sum of all prefix sums, modulo 65521. |
| Adler32.ChecksumByNumbers | ext/miniz/miniz.c:977-990 | The same as one number of 32 bits, for all data, with 65521 and 65536 written out. |
| InflateTable.BuildTable | ext/miniz/miniz.c:1508-1532 | Lengths are accepted exactly if they use up the code space or only one symbol is used; then lookup and tree arrays hold, at every cell a code word leads to, its symbol and length, and every index stays in bounds. |
| InflateTable.HuffDecode | ext/miniz/miniz.c:1394-1426 | Finds in the bit buffer the symbol that bit-by-bit decoding finds, drops just its bits, and near the end of the input reads no byte that the symbol does not need. |
| InflateTable.TableInvertsCodes | ext/miniz/miniz.c:1898-1903 | The bit-reversed codes of the compressor, found in the low bits of the buffer, decode to their symbols. |
| BitReaders.BitReader.GetBits | ext/miniz/miniz.c:1386-1388 | Takes just the next n bits of the input, lowest first, as a number. |
| BitReaders.BitReader.SkipToByte | ext/miniz/miniz.c:1387 | Drops just the bits up to the next byte boundary of the input. |
| Inflater.Decompressor.DynamicTables | ext/miniz/miniz.c:1502-1551 | Counts, code length codes and repeats give the tables of the lengths that the header stands for. |
| Inflater.Decompressor.CodedBlock | ext/miniz/miniz.c:1552-1669 | With two symbols per look-up, direct copying and all, the output after a coded block is the output before with the block's tokens applied, and the rest of the input is untouched. |
| Inflater.Decompressor.StoredBlock | ext/miniz/miniz.c:1460-1489 | Appends the stored bytes, those still in the bit buffer first. |
| Inflater.Decompressor.Run | ext/miniz/miniz.c:1457-1670 | Inflates blocks up to the final one to what the reference reader of section 3.2 of RFC 1951 gives. |
| Inflater.Decompressor.RunZlib | ext/miniz/miniz.c:1446-1700 | On a whole deflate stream with any two header bytes and any trailer, it succeeds exactly if header and checksum are right, and then the output is what the reference reader gives, and gives with any other header that is right. |
| ZlibFormat.AcceptedHeaders | ext/miniz/miniz.c:1452 | For every first byte with the deflate method and every level there is one five-bit check with which the header is accepted, and a second, 31, exactly if that is 0, which takes a window larger than the format has. |
| ZlibFormat.RefusedHeaders | ext/miniz/miniz.c:1452 | A preset dictionary or another method is refused, whatever the check. |
| ZlibFormat.ZlibExactly | ext/miniz/miniz.c:1446-1700 | A zlib stream stands for bytes exactly if its header is such a one, what follows inflates to them, and the next four whole bytes are their checksum, highest byte first. |
| ZlibFormat.HeadersAreAlike | ext/miniz/miniz.c:1449-1455 | Two streams with any two accepted headers and the same rest stand for the same bytes. |
| ZlibFormat.LiteralsInflate | ext/miniz/miniz.c:1457-1670 | The bits of any bytes as literals with fixed codes, in one final block, inflate to those bytes. |
| ZlibFormat.OneLetter | ext/miniz/miniz.c:1446-1700 | The bytes 78 9C 4B 04 00 00 62 00 62 stand for the letter a. |
| MatchCopy.CopyMatch | ext/miniz/miniz.c:1614-1667 | Copying a match byte by byte, three at a time or eight at a time gives what copying byte by byte gives, overlapping or not, in a linear buffer or a ring; exactly if the match has three bytes at least or is too near to the buffer's end for a straight copy. |
| MatchCopy.ThreesWrittenIs | ext/miniz/miniz.c:1651-1667 | The loop over three bytes puts out as many bytes as asked for exactly if these are three at least, and three otherwise. |
| ZlibRoundTrip.InflateToMemory | ext/miniz/miniz.c:1729-1734 | If the bytes stand for something that has room in the output, just that is put there. |
| ZlibRoundTrip.CompressedAndInflated | ext/miniz/miniz.c:1729-1734 | What a finished compressor has put out is inflated, by the model of the inflater's code, to what the compressor was given. |
| ZlibRoundTrip.CompressAndBack | ext/miniz/miniz.c:1131-1153 | Whatever the source, compressing it to memory and inflating what comes out, by the models of both codes, gives it back. |
| ArchiveIndex.FilenameLess | ext/miniz/miniz.c:3107-3122 | True exactly if the first name, in lower case, comes before the second. |
| ArchiveIndex.SameNameOnBytes | ext/miniz/miniz.c:2947 | Two names are the same, whatever the case, exactly if they are equally long and their bytes equal or 32 apart with the smaller one in 65 to 90. |
| ArchiveIndex.OrderOnBytes | ext/miniz/miniz.c:3107-3122 | Which of two names comes first, by the first bytes that are not the same in that sense, or by length. |
| ArchiveIndex.CaseDoesNotOrder | ext/miniz/miniz.c:3107-3122 | Names that differ in the case of letters only are ordered alike against any third. |
| ArchiveIndex.SortByFilename | ext/miniz/miniz.c:3127-3166 | The heap sort, in place, leaves a permutation of the file numbers, sorted by name. |
| ArchiveIndex.LocateBinary | ext/miniz/miniz.c:3476-3496 | Finds a file of that name, whatever the case of letters, exactly if there is one. |
| ArchiveIndex.LocateLinear | ext/miniz/miniz.c:3507-3535 | The first file with the name asked for, as a whole or as the last part of its path, with case or without, and with the comment asked for, if there is one; -1 exactly if there is none. |
| ArchiveIndex.LocateFile | ext/miniz/miniz.c:3498-3536 | With an index or without, whatever the flags and the comment, a file is found exactly if one answers the question. |
| JpegTables.DummyIsFirst | ext/jpge/jpge.cpp:209-218 | Since sorting is stable and no count is below one, the dummy symbol stays the first record, so that it gets a longest code. |
| JpegTables.OptimizeHuffmanTable | ext/jpge/jpge.cpp:209-242 | Exactly if the counts do not overrun the histogram of lengths: sizes of 1 to 16 bits with room for all codes, none all ones, and exactly the counted symbols, each once, most frequent first. |
| JpegTables.OverrunsAsMeasured | ext/jpge/jpge.cpp:218-224 | Counts overrun the histogram exactly if the longest measured length is over 32, however they are sorted and measured. |
| JpegTables.OverrunsNeeds | ext/jpge/jpge.cpp:218-224 | For that, 33 different symbols and a total of 11405773 with the dummy are needed. |
| JpegLimits.DeepTable | ext/jpge/jpge.cpp:218-226 | For counts of 37 symbols whose total is just that, the measured length is 33, for which the array of counts has no place. |
| JpegTables.ComputeHuffmanTable | ext/jpge/jpge.cpp:368-399 | Every listed symbol gets its canonical code and size, every other symbol 0. |
| JpegBits.ScanWriter.PutBits | ext/jpge/jpge.cpp:605-617 | Adds so many bits, highest first, to what has been put, with a zero byte stuffed behind every 0xFF, through an output buffer that is emptied when full. |
| JpegBits.ScanWriter.Terminate | ext/jpge/jpge.cpp:777-784 | Pads the last byte with ones and empties the buffer: the stream then holds all that was put. |
| JpegBits.UnstuffedOfStuffed | ext/jpge/jpge.cpp:605-617 | A decoder that drops the byte behind every 0xFF gets back the bytes before stuffing. |
| JpegBits.NoMarkers | ext/jpge/jpge.cpp:605-617 | No marker can appear in stuffed bytes. |
| JpegFormat.BitOfScanByte | ext/jpge/jpge.cpp:605-617 | The bits of a scan are those of its bytes, the highest first. |
| JpegFormat.Category | ext/jpge/jpge.cpp:628-634 | The category of a value, by powers of two. |
| JpegFormat.ExtraBits | ext/jpge/jpge.cpp:676-691 | A positive value's extra bits are its own, starting with a one; its opposite's are their complement. |
| JpegFormat.NextCoefficient | ext/jpge/jpge.cpp:693-717 | A coefficient behind zeros is coded as the symbol F0 for every sixteen of them and one with the rest in its upper and the category in its lower half. |
| JpegFormat.ZerosAtEnd | ext/jpge/jpge.cpp:718-719 | Zeros up to the end are coded as the symbol 0. |
| JpegFormat.ReadsCoefficient | ext/jpge/jpge.cpp:693-717 | A decoder makes of such a symbol and the bits behind it just those zeros and that value. |
| JpegFormat.ReadsZeros | ext/jpge/jpge.cpp:699-719 | And of F0 and 0 sixteen zeros and all that are left. |
| JpegFormat.ReadsFirst | ext/jpge/jpge.cpp:676-691 | The symbol of a first coefficient is the number of bits of its difference to the last one's. |
| JpegScan.CodeCoefficientsPassOne | ext/jpge/jpge.cpp:619-656 | The counts grow by just the symbols of the block: the difference to the last DC value, zero runs, run-length symbols and end of block. |
| JpegScan.CodeCoefficientsPassTwo | ext/jpge/jpge.cpp:658-720 | Puts out just the codes and magnitude bits of those symbols. |
| JpegScan.BlockRoundTrip | ext/jpge/jpge.cpp:658-720 | A decoder of section F.2.2 of ITU-T T.81 recovers all 64 coefficients of a block from those bits. |
| JpegScan.PassesAgree | ext/jpge/jpge.cpp:619-720 | Tables built from what the first pass counted have a code for every symbol the second puts out. |
| JpegScan.ScanRoundTrip | ext/jpge/jpge.cpp:722-730 | A decoder recovers a whole scan, block by block, components in turn. |
| JpegEncoder.TableHasRoom | ext/jpge/jpge.cpp:209-242 | Blocks of proper coefficients need at most 12 DC and 242 AC symbols. |
| JpegEncoder.FirstPass | ext/jpge/jpge.cpp:766-775 | Counts all blocks and builds two tables, or four if there are more components than one, exactly if the AC counts of those in use do not overrun the histogram. |
| JpegEncoder.EncodeScan | ext/jpge/jpge.cpp:766-784 | Both passes together, exactly if the AC counts do not overrun the histogram: from the bytes of the scan a decoder with the tables' lists recovers every block of every component, and only padding is left. |
| JpegEncoder.FewSymbolsAreEncodable | ext/jpge/jpge.cpp:209-242 | A condition to check beforehand: fewer than 11405772 AC symbols for each table. |
| JpegEncoder.SmallImagesAreEncodable | ext/jpge/jpge.cpp:209-242 | Scans of up to 181043 blocks satisfy it. |
| JpegEncoder.ImagesAreCountable | ext/jpge/jpge.cpp:619-656 | No 32-bit counter wraps for scans of up to 67108864 blocks, as many as the largest image of one component has. |
| JpegDeepScan.DeepScanOverruns | ext/jpge/jpge.cpp:209-242 | The condition cannot be weakened: a scan of 4356618 blocks, with 11405772 AC symbols for its coefficients of at most ten bits, has the counts of `DeepTable`, and is not coded. |
| StreamRing.EveryReaderSeesTheStream | src/pupnp/connection_proxy.cpp:204-278 | In every state of every run each reader has got a prefix of the stream, and its window in the ring shows just the next bytes of it. |
| StreamRing.RegionsAreDisjoint | src/pupnp/connection_proxy.cpp:229-236 | While the producer fills its block without the lock, no reader's window overlaps it. |
| StreamRing.NoDeadlock | src/pupnp/connection_proxy.cpp:210-256 | When the producer waits for room, some reader is not blocked. |
| StreamRing.SomeoneCanGoOn | src/pupnp/connection_proxy.cpp:204-256 | When all readers are blocked before the end, the producer has a step to take. |
| StreamRing.FailedReadMeansEnd | src/pupnp/connection_proxy.cpp:259-277 | A read fails only at the end, with the whole stream handed over. |
| StreamRing.SuccessfulReadIsNext | src/pupnp/connection_proxy.cpp:259-272 | A read that succeeds hands over at least one byte, the next ones of the stream. |
| StreamRing.SuccessfulReadIsFull | src/pupnp/connection_proxy.cpp:259-272 | They are a whole block, unless the ring's end or what has arrived comes first. |
| StreamRing.ThresholdsHold | src/pupnp/connection_proxy.cpp:320-343 | In every state of every run nothing has been given up, or as much as the detach threshold at least; nothing is given up exactly while some reader is before it; and nothing is handed over before the preload threshold or the end has come. |
| StreamRing.JoiningReaderStartsAtZero | src/pupnp/connection_proxy.cpp:183-194 | A reader may join exactly while nothing has been given up, and then sees the stream from its start. |
| StreamRing.LateReadersAreLetIn | src/pupnp/connection_proxy.cpp:183-194 | While others read, a reader that joins is admitted exactly if one of them is still before the detach threshold. |
| StreamRing.ConfiguredForRate | src/pupnp/connection_proxy.cpp:148-160 | The ring holds half a minute of data in whole blocks, and readers wait for a tenth of that. |
| ConnectionProxy.Source.constructor | src/pupnp/connection_proxy.cpp:137-167 | The buffer has room for the detach threshold and a block more. |
| ConnectionProxy.Source.Attach | src/pupnp/connection_proxy.cpp:183-194 | Takes the step of a joining reader and keeps the invariant; with others reading, it succeeds exactly if one of them is before the detach threshold. |
| ConnectionProxy.Source.Detach | src/pupnp/connection_proxy.cpp:196-202 | Takes the step of a leaving reader. |
| ConnectionProxy.Source.RecomputeBufferOffset | src/pupnp/connection_proxy.cpp:320-343 | Gives up whole blocks that every reader has passed, and only once some reader is past the threshold. |
| ConnectionProxy.Source.ContinueRead | src/pupnp/connection_proxy.cpp:252-278 | Waits exactly if the loop's condition says so; else hands over the next bytes, not before the preload threshold or the end has come, or fails with all of the stream handed over. |
| ConnectionProxy.Source.LookForRoom | src/pupnp/connection_proxy.cpp:208-225 | Finds a block to fill exactly if there is room for one besides what is in use; it is a whole one, or ends where the ring does. |
| ConnectionProxy.Source.Commit | src/pupnp/connection_proxy.cpp:233-236 | Makes the filled bytes available. |
| IniText.EscapeText | src/platform/inifile.cpp:203-235 | Escapes character by character. |
| IniText.UnescapeOfEscape | src/platform/inifile.cpp:113-139 | Unescaping undoes escaping. |
| IniForeign.EscapedCharacters | src/platform/inifile.cpp:203-235 | Which characters are escaped, and how, one by one. |
| IniForeign.BackslashThen | src/platform/inifile.cpp:113-139 | What a first backslash in any text stands for, with r, n, another character or nothing behind it. |
| IniText.CheckEscaped | src/platform/inifile.cpp:141-151 | Whether an odd number of backslashes precedes, leaving out index 0. |
| IniText.KeyComesBack | src/platform/inifile.cpp:185-195 | A key is read back from its own line exactly if behind its leading backslashes no '=' comes first and, if there are any, something follows. |
| IniText.EqualsSplits | src/platform/inifile.cpp:185-195 | Otherwise, if an '=' comes first, the entry comes back under the backslashes in front of it, with the rest of the key in its value. |
| IniText.BackslashesHide | src/platform/inifile.cpp:185-195 | And if the key is backslashes only, its line is no entry, unless an '=' in the value is not escaped. |
| IniText.HeaderComesBack | src/platform/inifile.cpp:173-183 | Every section name is read back from its header. |
| IniForeign.HeaderEnds | src/platform/inifile.cpp:173-183 | In any line that starts with '[' the name goes up to the first ']' behind an even number of backslashes, whatever follows. |
| IniForeign.PlainEntry | src/platform/inifile.cpp:185-195 | A key without backslash and '=' is read back, whatever its value is. |
| IniForeign.IdleLine | src/platform/inifile.cpp:171-195 | Empty lines, comments, headers without ']' and lines without '=' change nothing. |
| IniForeign.CarriageReturns | src/platform/inifile.cpp:153-201 | In a file whose lines end with carriage returns, these are left out of the names of sections and are part of the values. |
| IniFile.LoadText | src/platform/inifile.cpp:153-201 | Gives each entry of a text that ends with a newline the view of its value, later lines overriding earlier ones. |
| IniLoad.LoadOk | src/platform/inifile.cpp:153-201 | Views are stretches of single lines, and different entries have different lines. |
| IniLoad.PatchKeepsViews | src/platform/inifile.cpp:247-268 | Overwriting a value with one of the same length leaves every view where it is. |
| IniFile.File.Write | src/platform/inifile.cpp:504-538 | The map has the new value under the key, and a pending save of the kind that will do: none more for the same value, a soft one for a value as long as the old or a new entry of the only section, a hard one else. |
| IniFile.File.Erase | src/platform/inifile.cpp:565-580 | The map is as before without the entry. |
| IniFile.File.Save | src/platform/inifile.cpp:237-341 | Soft or hard, loading the saved file gives the map exactly if the keys written are good ones; for a hard save under the condition that no value has an '=' that is not escaped. |
| IniLimits.FailingSave | src/platform/inifile.cpp:237-341 | A map with the key "=" and the value 1 is saved, and loads again with an empty key and the value "=1". |
| IniLimits.BadKeysSwap | src/platform/inifile.cpp:185-195 | Without that condition bad keys can come back: two lines that are each read as the other's entry. |
| IniLimits.ForeignFile | src/platform/inifile.cpp:270-285 | In a file that ends with a header without entries, a new entry of another section, appended by a soft save, is found in the wrong section; files the program has written do not end so. |

## Left out

- Inflater.Decompressor.Run: proved for input that the reference reader accepts; for input it rejects nothing is stated. That includes the length symbols 286 and 287 and the distance symbols 30 and 31, for which the code has table entries of 0 and goes on.
- Inflater.Decompressor.DynamicTables: proved for headers that the reference reader accepts.
- Inflater.Decompressor.CodedBlock: proved for blocks that the reference reader accepts; of shorter matches than the format has, only the copying is modelled (MatchCopy).
- Inflater.Decompressor.StoredBlock: proved for stored blocks whose length matches its complement and whose bytes are all there.
- Inflater.Decompressor.RunZlib: proved for whole streams, of any header and trailer; not for streams that break off or have broken blocks.
- BitReaders.BitReader.GetBits: needs the bits to be there; the zero bytes that the code makes up behind the end of its input are not modelled.
- ZlibRoundTrip.InflateToMemory: proved for bytes that stand for a stream and have room; not for others.
- SecondHeader.CodedAtWrap: static blocks with data are left out; what is misread behind a second header then depends on the data, by the condition of `SecondHeaderReads`. Second headers that do not start at a byte boundary are not described.
- The inflater's returns for more input or more output and its resumption there, and output into a wrapping window: only matches are copied in a ring (MatchCopy).
- The inflater's internal checksum loop, which is that of `mz_adler32`, is replaced by it.
- The compressor's variants for small memory, for unaligned access and for level 1 (`tdefl_compress_fast`): the portable code writer and match finder are modelled. The PNG and zip writers.
- Allocation, file access and the zip directory's byte layout.
- DeflateOutlet.Outlet.Emit: whether a callback accepts bytes is an arbitrary value; of bytes it refuses nothing is said but that they were put.
- DeflateCalls.Deflate: the counters `total_in` and `total_out` are left out, and the checks for missing buffers and streams; `mz_deflateBound`, `mz_deflateReset` and the choice of flags by level are not modelled.
- JpegTables.OptimizeHuffmanTable: where a measured length has no place in the array of counts, the source counts it behind the array and goes on; the model stops. Tables of 255 or 256 symbols, which no scan needs, are left out, for there a bucket's count may not fit its byte.
- JpegEncoder.EncodeScan: scans in which a symbol occurs 2^32 times, so that its counter wraps, are left out.
- JpegEncoder.FirstPass: the same.
- The JPEG encoder's colour conversion, cosine transform and quantisation, which give the coefficients; its markers; and the single-pass mode with fixed tables. Coefficients are bounded as 8-bit samples make them, DC differences by 2047.
- JpegTables.ComputeHuffmanTable: lists with a symbol twice are not modelled; the optimiser never makes one.
- ConnectionProxy.Source.constructor: needs a data rate; without one the buffer grows as the stream does.
- The connection proxy's seek, its mode without a data rate and its destructor. Mutex and condition variable become steps that are atomic, and a wait that may end at any time; callbacks are left out.
- IniFile.LoadText: of a text whose last line has no newline the source takes another view, since the stream tells no position there.
- IniFile.File.constructor: files that lack the last newline or end with a header without entries, which editing by hand can make, are not modelled beyond `ForeignFile`; the program itself leaves no such file.
- The settings map's read-only mode, its callbacks, conversions of numbers, and failing file operations. Sections and keys are printed in some order, which covers the order of `std::map`, but with the nameless section first.
- Text is a sequence of characters where the source has bytes.
