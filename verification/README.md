# Compression, archives, block devices and code patching

This project models the algorithms at the heart of the boot loader and its bundled libraries, and proves what they are
for:

- the deflate compressor and decompressor of miniz, down to the bit and byte, with their Huffman construction, their
  hash chains and lazy LZ77 parser, their flushes and their resumable state machines;
- the index that finds files in a zip archive by name;
- the write-through block cache, the block splitter, the FAT chain walk and the byte-range reads and writes of the
  boot loader's file systems;
- the lists of unresolved jumps that TCC threads through the code it generates.

The two halves of miniz are proved against one specification of RFC 1951 and RFC 1950 over bit sequences
(`Deflate.dfy`, `Streams.dfy`), and `RoundTrip.Restore` puts them together: any text, given to the compressor in any
pieces, under any options, flushed in any way, and then given to the decompressor in any pieces with any room for
output, comes back.

What both halves share is fixed by lemmas that do not mention either: the tables by the ranges they tile, the codes by
their order, the checksum's modulus by being a prime, and the whole format by a small file decoded by hand
(`KnownAnswer.dfy`). The same goes for the other parts: a FAT entry is the little-endian number at its place, a jump
is what the processor does with it.

Code that works in place is modelled by classes, arrays and loops; what it computes is stated by functions and
predicates over sequences. One module is one file:

| part | modules |
|---|---|
| bits, canonical codes, the format | Bits, Canonical, Deflate, Streams |
| what the format's definitions mean | SymbolRanges, CodeOrder, TableFacts, StoredFacts, FormatFacts, Primes, KnownAnswer |
| Huffman codes | UsedSymbols, RadixSort, HuffmanTree, HuffmanOptimal, MinRedundancy, LengthLimit, LimitCost, TableCost, HuffmanTable |
| encoding blocks | Entropy, BitWriter, LzCodes, SymbolCounts, RunLength, BlockHeader, BlockEncoder, FixedCodes, BlockSize, Blocks, Stored, BlockWriter |
| the compressor | Lz77, HashChains, Dictionary, LzBuffer, Parser, Compressor, CompressorRun |
| the decoder's tables | PrefixNodes, LookupTable, FastTable, HuffmanDecode |
| the decoder | InputBits, MatchCopy, InflateMeaning, InflateSteps, InflatePrefix, Inflater, Decompressor, Adler |
| both | RoundTrip |
| zip archives | ZipIndex, NameFacts |
| block devices and files | BlockCache, BlockIo, FileBytes, FatChain, FileAccess, LittleEndian, FatEntries, DeviceFacts, StreamFacts |
| generated code | Machine, LinkedJumps, JumpPatch, JumpFacts, JumpRun |

`dafny verify dfyconfig.toml` checks everything. Proofs name what they do not look into with `hide`; predicates that
only travel through a proof are sealed behind a quantified key and opened by a lemma called `Open…`.

## Model

| member | source | states |
|---|---|---|
| RoundTrip.Restore | miniz/miniz.c:2636-2690 | whatever is compressed is decompressed to itself and its checksum found right, for all options, all cuts of the input into calls and flush modes, all cuts of the file and of the room on the way back; no condition on the text |
| CompressorRun.CompressAll | miniz/miniz.c:2636-2690 | the bytes handed over by any run of calls that ends with a finishing one are a deflate or zlib file for exactly the concatenated inputs; at every flush point on the way, the bytes handed over so far decode to everything put in so far and end in 00 00 FF FF, and behind every full flush the rest of the file, read alone, is a stream of exactly the later inputs |
| Compressor.Compressor.Compress | miniz/miniz.c:2636-2690 | one call: refused after an error or a finish, otherwise all input is taken in; a sync or full flush holds no bit back, ends in the empty stored block, and what has been handed over decodes to the whole source, whatever follows; a full one makes the blocks written later independent of everything before; a finish leaves a whole file |
| Compressor.Compressor.EndOpen | miniz/miniz.c:2222-2225 | the flush itself: the block of all that is parsed, then the byte boundary with its marker, then, for a full flush, an empty window |
| CompressorRun.HoldsToEnd | miniz/miniz.c:2686 | behind a full flush the file is a stream of its own |
| Streams.DecodesJoin | miniz/miniz.c:2162-2246 | two streams one behind the other decode to both texts, from any history |
| Compressor.Compressor.NeverFull | miniz/miniz.c:2228 | the assertion after every flushed block holds: whatever a flush writes, the output buffer has room to spare |
| Decompressor.DecompressAll | miniz/miniz.c:1428-1698 | chunk independence: for all cuts of a complete file and of the output room the verdict and the text depend on the file alone |
| Decompressor.DecompressFile | miniz/miniz.c:1428-1698 | a file that means a text under RFC 1951 or RFC 1950 is decoded to that text with verdict Done |
| Decompressor.Decompressor.Decompress | miniz/miniz.c:1428-1698 | one call consumes a prefix of its piece, the output so far is a prefix of the text, more input is asked for only when the piece is used up and the file is not, more room only when it is full and text is missing |
| Decompressor.Decompressor.Check | miniz/miniz.c:1680-1696 | the running Adler-32 of all output so far, carried over calls |
| Inflater.Inflater.Step | miniz/miniz.c:1428-1676 | every step of the state machine keeps "what is left to do gives the goal", never writes outside the room, and makes progress or stops for want of input or room |
| Inflater.Inflater.Advance | miniz/miniz.c:1428-1676 | the loop ends, at the end of the stream or where input or room is really missing |
| Inflater.Inflater.OutputSoFar | miniz/miniz.c:1428-1676 | in every reachable state the output is a prefix of the whole text, and a pending byte is one that the text still has |
| InflatePrefix.OutputIsPrefix | miniz/miniz.c:1428-1676 | the same for every continuation of the specification: decoding never takes back what it has put out |
| InputBits.Reader.Fill | miniz/miniz.c:1390-1408 | the slow refill fetches a byte only while the bits held do not determine a symbol, and stops with a determined one or at the end of the piece |
| InputBits.Reader.ReadSymbol | miniz/miniz.c:1409-1426 | decodes the next symbol of the bit stream, or leaves the stream as it was and waits for more |
| InputBits.Reader.FastSymbol | miniz/miniz.c:1409-1426 | the two-byte refill decodes the same symbol |
| InputBits.Reader.GetAligned | miniz/miniz.c:1363-1389 | a byte of a stored block is taken from the bits held and the input together |
| HuffmanDecode.Decode | miniz/miniz.c:1409-1426 | lookup table and tree walk together decode as the canonical code does |
| HuffmanDecode.Determined | miniz/miniz.c:1390-1404 | the refill loop's test holds exactly when the bits held contain a whole code |
| FastTable.FastTable.Build | miniz/miniz.c:1511-1532 | the tables are built exactly for the length lists a decoder must accept, and then decode their code |
| FastTable.CheckLengths | miniz/miniz.c:1512-1518 | the test on the code lengths accepts a complete code or at most one code and nothing else |
| PrefixNodes.NodesFew | miniz/miniz.c:1519-1532 | an accepted code needs at most 287 inner tree nodes, so the tree array is never overrun |
| MatchCopy.CopyInto | miniz/miniz.c:1614-1667 | all three ways of copying a match give the byte-by-byte overlapping copy, in a linear or a wrapping buffer, and stop at the end of the room with the right rest |
| MatchCopy.CopyMasked | miniz/miniz.c:1616-1628 | the masked byte loop gives that copy as far as there is room |
| MatchCopy.CopySplit | miniz/miniz.c:1614-1667 | copying a match in two parts is copying it at once |
| MatchCopy.Resume | miniz/miniz.c:1616-1628 | a copy interrupted for want of room goes on where it stopped |
| RadixSort.RadixSortSyms | miniz/miniz.c:1819-1833 | symbols come out as a permutation sorted by frequency, and by symbol among equals, also when the second pass is skipped |
| MinRedundancy.CalculateMinimumRedundancy | miniz/miniz.c:1836-1854 | the in-place Moffat-Katajainen construction turns frequencies into lengths of a minimum-redundancy code: Kraft's sum is one, no list of lengths that satisfies Kraft's inequality costs less, lengths fall as frequencies rise, and a symbol at depth l has at most one part in Fib(l + 1) of all uses |
| HuffmanOptimal.TreeOptimal | miniz/miniz.c:1836-1854 | merging the two lightest nodes gives a tree of least cost among all code lengths |
| HuffmanTree.DepthBound | miniz/miniz.c:1887 | weights below 65536 in all give depths of at most 22, so the length counts are never overrun |
| LengthLimit.EnforceMaxCodeSize | miniz/miniz.c:1857-1869 | the lengths are limited, their number is kept and the code stays complete; what was folded and split is bounded |
| LimitCost.LimitIsCheap | miniz/miniz.c:1857-1869 | limiting a minimum-redundancy code to 15 bits lengthens the whole by at most n/270 bits for each use of a symbol, n being the number of symbols |
| TableCost.LimitedNear | miniz/miniz.c:1871-1893 | the table is that close to every other code for the counts |
| HuffmanTable.OptimizeHuffmanTable | miniz/miniz.c:1871-1904 | counts become canonical codes within the limit: used symbols and only they have codes, more frequent ones no longer codes, the code is complete or has one symbol, and it is near the optimum |
| HuffmanTable.AssignCodes | miniz/miniz.c:1896-1903 | every code is the canonical one, bit-reversed for a writer that starts with the low bit |
| HuffmanTable.ReverseCode | miniz/miniz.c:1900-1902 | reversal spells a code's bits from the top |
| Canonical.PrefixFree | miniz/miniz.c:1896-1903 | no canonical code of lengths that satisfy Kraft's inequality starts another |
| Canonical.DecodeSymIff | miniz/miniz.c:1512-1532 | decoding finds a symbol if and only if the bits start with its code |
| SymbolRanges.DistancesTile | miniz/miniz.c:1432-1433 | the decoder's distance table: each symbol's range starts where the one before it ends, from 1 to 32768, two symbols for each number of extra bits |
| SymbolRanges.LengthsTile | miniz/miniz.c:1430-1431 | the length table likewise, from 3 on, four symbols for each number of extra bits, with 285 alone for 258 |
| SymbolRanges.ReadDistanceIs | miniz/miniz.c:1610-1612 | what is read is the start of the symbol's range plus the number in the extra bits |
| SymbolRanges.ReadLengthIs | miniz/miniz.c:1607-1608 | the same for lengths |
| SymbolRanges.DistSymIff | miniz/miniz.c:1783-1815 | the compressor's symbol for a distance is the one whose range it is in, and no other |
| SymbolRanges.LenSymIff | miniz/miniz.c:1767-1782 | the same for lengths |
| SymbolRanges.DistSymGrows | miniz/miniz.c:1783-1815 | longer distances have no smaller symbols |
| SymbolRanges.LenSymGrows | miniz/miniz.c:1767-1782 | longer lengths have no smaller symbols |
| SymbolRanges.MatchBounds | miniz/miniz.c:1607-1618 | all that the symbols can spell is a length from 3 to 258 and a distance from 1 to 32768, so that only the bytes there are decide whether a match is legal |
| CodeOrder.FirstIsZero | miniz/miniz.c:1896-1903 | the first code, by length and then by symbol, consists of zeros |
| CodeOrder.NextCode | miniz/miniz.c:1896-1903 | every other code is the one before it plus one, with zeros appended when it is longer |
| CodeOrder.FixedCodeword | miniz/miniz.c:1998-2012 | the fixed literal and length codes, number by number as RFC 1951 lists them |
| CodeOrder.FixedDistance | miniz/miniz.c:1496-1501 | the fixed distance codes are the symbols in five bits |
| TableFacts.AcceptsIff | miniz/miniz.c:1511-1518 | code lengths are accepted when none is above 15 and either at most one symbol has a code or the codes use up all bit strings |
| TableFacts.TableCounts | miniz/miniz.c:1502-1507 | the three sizes at the head of a dynamic block as parts of one 14-bit number |
| FormatFacts.BlockType | miniz/miniz.c:1459-1503 | the block type is the number in the second and third bit of a block |
| FormatFacts.ClenOrder | miniz/miniz.c:1434 | the order of the code length code's lengths in closed form |
| FormatFacts.RunCode | miniz/miniz.c:1917-1933 | which run lengths the symbols 16, 17 and 18 can spell |
| FormatFacts.RunRead | miniz/miniz.c:1537-1543 | the decoder's runs are those |
| FormatFacts.HeaderFields | miniz/miniz.c:1449-1455 | a zlib header is accepted exactly by its method, its flag and its check bits, and means what RFC 1950 says exactly when its window is legal besides |
| FormatFacts.CopyRepeats | miniz/miniz.c:1614-1667 | every byte of a copy is the one dist bytes before it |
| FormatFacts.StreamBit | miniz/miniz.c:1906-1915 | bit 8 i + k of a stream is bit k of byte i |
| FormatFacts.BigEndianByte | miniz/miniz.c:1671-1674 | the trailer's number has its high byte first |
| StoredFacts.StoredLayout | miniz/miniz.c:1460-1489 | a stored block byte by byte: the rest of the byte skipped, the length and its complement with the low byte first, and the bytes; anything else is refused |
| KnownAnswer.Decoded | miniz/miniz.c:1428-1698 | the five bytes 4B 4C 02 02 00 are the text abbbb |
| KnownAnswer.ZlibDecoded | miniz/miniz.c:1428-1698 | with header and checksum they are a zlib file of it |
| Entropy.LengthRestored | miniz/miniz.c:1767-1782 | the compressor's length symbols and extra bits give the decoder's base plus extra back, for all lengths |
| Entropy.DistanceRestored | miniz/miniz.c:1783-1815 | the same for all distances, over both of the compressor's tables |
| Entropy.InflateTokens | miniz/miniz.c:2108-2150 | a run of coded literals and matches is inflated to its expansion, whatever follows |
| Entropy.InflateBody | miniz/miniz.c:2108-2150 | the same for a block's tokens with the end-of-block code |
| LzCodes.CompressLzCodes | miniz/miniz.c:2108-2150 | the packed code buffer is read back token by token and written as coded bits, and false is returned exactly when the output is full |
| RunLength.PackCodeSizes | miniz/miniz.c:1917-1977 | the run-length coding of the code lengths expands to exactly them, and every packed symbol is counted |
| BlockHeader.ReadTablesBack | miniz/miniz.c:1936-1997 | a decoder reads both length tables back from the header of a dynamic block |
| Blocks.OptimizeTables | miniz/miniz.c:1936-1944 | every token of the block gets a code, and the block fits the output buffer's bound |
| Blocks.CompressBlock | miniz/miniz.c:2153-2160 | static or dynamic, what is written is a block that inflates to the tokens' expansion behind any text, in front of any bits, final or not, within the size bound |
| BlockSize.DynamicSize | miniz/miniz.c:843-847 | a full code buffer coded with the limited optimal tables stays within the bound |
| BlockSize.StaticSize | miniz/miniz.c:843-847 | and so with the fixed codes |
| BlockWriter.WriteBlock | miniz/miniz.c:2180-2213 | compressed, stored or compressed again: in each case a block for exactly the source bytes that the recorded tokens cover; when raw blocks are asked for and the bytes are still in the window, a stored one |
| Streams.AppendBlock | miniz/miniz.c:2162-2246 | a block appended to a stream adds its text and changes nothing before it |
| Streams.FinalBlock | miniz/miniz.c:2215-2221 | a final block ends the stream with its text |
| Streams.StoredBlock | miniz/miniz.c:2197-2206 | a stored block, aligned by the padding, inflates to its bytes |
| Stored.PutStored | miniz/miniz.c:2197-2206 | the stored block is written from the ring dictionary with the source's bytes |
| Stored.PutSync | miniz/miniz.c:2222-2225 | a flush leaves an empty stored block and a byte boundary |
| LzBuffer.Buffer.RecordLiteral | miniz/miniz.c:2467-2473 | a literal is appended to the block's tokens, packed and counted |
| LzBuffer.Buffer.RecordMatch | miniz/miniz.c:2475-2495 | a match is appended to the block's tokens, packed and counted under its two symbols |
| LzBuffer.Buffer.Finish | miniz/miniz.c:2177-2178 | closing the last flag byte leaves exactly the packed tokens |
| Dictionary.Dict.FindMatch | miniz/miniz.c:2299-2325 | a match that is reported repeats the source inside the window and is longer than the one at hand; it is at least as long as the match at every link followed, and links are followed up to a match as long as the lookahead, the chain's end or the number of probes |
| Dictionary.Dict.LongestFound | miniz/miniz.c:2299-2325 | no match in the window is longer than the one found, but for those behind as many nearer places with the same hash as there are probes, or behind a place whose link looks like none |
| Dictionary.Dict.Fill | miniz/miniz.c:2505-2540 | taking in input keeps the ring and the hash chains: every place whose three bytes are there is in its chain, behind all later ones with its hash |
| Dictionary.Dict.Compare | miniz/miniz.c:2317 | the length of the match at a place, no more and no less |
| HashChains.Inserted | miniz/miniz.c:2518 | a place put at the head of its chain keeps all chains, as far as the ring holds their places |
| HashChains.RollForgets | miniz/miniz.c:2517 | the rolling hash depends on the last three bytes only |
| HashChains.NthOfRank | miniz/miniz.c:2313-2316 | following a chain comes to a place after as many links as there are places with its hash from it on |
| Lz77.RingRead | miniz/miniz.c:2299-2325 | the mirrored ring dictionary gives the source bytes of the window without wrapping inside a match |
| Lz77.CopyIsSource | miniz/miniz.c:2299-2325 | expanding a reported match gives the source bytes it stands for |
| Parser.Parser.Step | miniz/miniz.c:2547-2608 | every decision of the lazy parser keeps: the recorded tokens, expanded behind the text since the last full flush, give the source up to a known place, and a held back match is a match there. The decision follows the lazy rule: a match held back is used unless the next byte has a longer one; and the match offered is the longest in the window within the probes, unless the options refuse it |
| Parser.Parser.AllParsed | miniz/miniz.c:2497-2613 | when the lookahead has run out, the tokens cover the whole source |
| Adler.Adler32 | miniz/miniz.c:977-990 | with the modulo taken once in 5552 bytes no sum leaves 32 bits, and the result is the checksum of RFC 1950: its halves are the total and the weighted total of the bytes |
| Adler.Continue | miniz/miniz.c:977-990 | a checksum continued over more data is the checksum of everything |
| Adler.SumsConcat | miniz/miniz.c:977-990 | for all cuts of the data |
| Adler.ClosedForm | miniz/miniz.c:977-990 | from any start the two sums are the total and the weighted total modulo the modulus |
| Adler.ChecksumIs | miniz/miniz.c:977-990 | the halves of a text's checksum, in closed form |
| Primes.LargestPrime | miniz/miniz.c:987 | the modulus is a prime, and no number from it to 65535 is |
| ZipIndex.Locate | miniz/miniz.c:3449-3535 | a file is found if and only if one in the archive matches, by the sorted index or by the scan |
| ZipIndex.MakeIndex | miniz/miniz.c:3127-3166 | the offsets become a permutation ordered by lower-cased name |
| ZipIndex.SortIndex | miniz/miniz.c:3127-3166 | the heap sort orders and permutes |
| ZipIndex.BinarySearch | miniz/miniz.c:3476-3496 | finds a file with the name exactly when there is one |
| ZipIndex.LinearSearch | miniz/miniz.c:3498-3535 | finds the first file that matches |
| NameFacts.MatchesIff | miniz/miniz.c:3498-3535 | when a name in the archive matches, character by character: with the flags for case and for paths |
| NameFacts.NamesIff | miniz/miniz.c:3460-3474 | when the index's comparison says that a file has the name |
| NameFacts.LessIff | miniz/miniz.c:3107-3125 | the index's order: at the first difference the smaller lower-cased byte decides |
| NameFacts.LetterIff | miniz/miniz.c:2947 | which bytes are the same letter |
| NameFacts.SeparatorIff | miniz/miniz.c:3521-3531 | which characters end a path |
| BlockCache.Run | rboot/block_cache.c:136-228 | over any run of reads and writes a cached device replies as the bare one would and leaves it in the same state |
| BlockCache.Cache.Read | rboot/block_cache.c:136-200 | a read gives what the device gives but for one block number; on a device without that block it does so if and only if the number is not mistaken for a cached one; a whole block is remembered in its slot, a part of one empties it, and a remembered block changes nothing |
| BlockCache.Cache.Write | rboot/block_cache.c:202-228 | the device gets the bytes and every slot still agrees with it |
| BlockCache.SlotCount | rboot/block_cache.c:57-129 | the largest power of two of slots that fits |
| BlockCache.EmptyTagHit | rboot/block_cache.c:160-200 | an input on which the cached read differs from the device |
| BlockIo.BlockRead | rboot/block.c:28-84 | a read split into blocks gives the device's bytes, at once or block by block |
| BlockIo.BlockWrite | rboot/block.c:86-131 | a split write replaces exactly the bytes written |
| FileBytes.ContentsSplice | rboot/libfs.c:268-360 | a change inside a block of a file changes the same place of the file and nothing else of it |
| DeviceFacts.ReadsDevice | rboot/block.c:28-84 | reading from a block on gives the bytes from its place on, as many as there are |
| DeviceFacts.WritesDevice | rboot/block.c:86-131 | writing to a block changes the bytes from its place on and no others |
| DeviceFacts.FileByte | rboot/libfs.c:189-266 | a byte of a file is the byte of the device in the block that the file has there |
| DeviceFacts.ClipIs | rboot/libfs.c:189-266 | as much is read as is asked for, unless the file ends |
| FatEntries.Entry16 | rboot/fat.c:333-351 | a sixteen-bit entry is the number at its place, low byte first; from 0xFFF8 on it ends the chain |
| FatEntries.Entry32 | rboot/fat.c:353-369 | a 32-bit entry is the low 28 bits of the number at its place; from 0x0FFFFFF8 on it ends the chain |
| FatEntries.EntryReadBack | rboot/fat.c:329-374 | an entry written with its low byte first is read back, whatever its top four bits are |
| FatEntries.ClusterSectors | rboot/fat.c:318-327 | cluster 2 has the data area's first sector, and clusters follow one another |
| FatChain.GetNextFatEntry | rboot/fat.c:329-374 | the entry of a cluster is read from its sector, for both widths |
| FatChain.BlockMap.Next | rboot/fat.c:411-433 | walking the chain from where the last walk stopped gives block idx of the file, or its end |
| FileAccess.FsRead | rboot/libfs.c:189-266 | a byte range is read exactly, clipped to the file, and the position moves by what was read |
| FileAccess.FsWrite | rboot/libfs.c:268-360 | exactly those bytes of the file are replaced, nothing else on the device changes, and position and length follow, also when appending |
| FileAccess.FatFread | rboot/fat.c:148-159 | the same read over a FAT file; a file without clusters gives an error |
| FileAccess.Fread | rboot/vfs.c:265-278 | as many whole items as are asked for and the file still has; on an empty FAT file the quotient of the error code |
| FileAccess.Fseek | rboot/vfs.c:391-422 | the new position, clipped to the file |
| StreamFacts.SeekNearest | rboot/vfs.c:391-422 | the position a seek goes to is the one nearest to the place asked for that the file has |
| FileAccess.RunFatFile | rboot/vfs.c:265-422 | any run of reads and seeks yields the matching slices of the file's concatenated clusters |
| JumpPatch.CodeGen.GsymAddr | tcc/i386-gen.c:138-147 | every jump of a list is patched to reach the address; other lists and all other bytes stay |
| JumpPatch.CodeGen.Gsym | tcc/i386-gen.c:149-152 | the same for the current address |
| JumpPatch.CodeGen.Append | tcc/i386-gen.c:646-652 | joining two lists gives their concatenation; only operands of the first one change |
| JumpPatch.CodeGen.JumpAround | tcc/i386-gen.c:653-656 | pending jumps that go the other way are resolved behind a new jump, and reach the code after it |
| JumpPatch.CodeGen.Gtst | tcc/i386-gen.c:635-676 | for each kind of test and every state of the processor, running the bytes emitted leaves for the list exactly when the test's value differs from the inverted one, and otherwise falls through behind them; pending jumps of the test go the same two ways; no other byte changes |
| Machine.CompareIff | tcc/tcc.h:739-751 | the ten comparison tokens, as conditions on the flags that comparing sets, are the ten comparisons of numbers |
| Machine.JccLeaves | tcc/i386-gen.c:640-643 | a conditional jump is taken exactly when its condition holds |
| Machine.TestLeaves | tcc/i386-gen.c:668-672 | a register tested against itself and the jump behind it go by whether it is zero |
| Machine.CondFlips | tcc/i386-gen.c:643 | the lowest bit of a condition's number negates it |
| JumpFacts.OperandIs | tcc/i386-gen.c:138-147 | an operand is the number in its four bytes, low byte first |
| JumpFacts.TargetIsRelative | tcc/i386-gen.c:138-147 | a jump goes to its own end plus its signed operand, modulo 32 bits |
| JumpPatch.CodeGen.Reserve | tcc/libtcc.c:371-385 | growing the section keeps the code |
| JumpPatch.Resolved | tcc/i386-gen.c:138-147 | after a list is resolved each of its operands leads to the address, modulo 32 bits |
| JumpPatch.ResolveKeeps | tcc/i386-gen.c:138-147 | resolving changes no byte outside the list's operands |
| JumpRun.Run | tcc/i386-gen.c:104-676 | over any run of emitting, testing, joining and resolving: every resolved jump goes where it was sent, every other jump is in the list it should be in, and no byte but jumps' operands has changed |
| JumpRun.NoneLost | tcc/i386-gen.c:138-676 | every operation keeps all jumps, pending or resolved, and adds just the one it emits |

## Findings

- rboot/block_cache.c:136-200: empty slots carry the tag 0xFFFFFFFF, so a read of block number 0xFFFFFFFF, no longer
  than a block, through a slot that is empty is answered from the slot's leftover memory. `BlockCache.EmptyTagHit` is
  such an input; `BlockCache.Cache.Read` states the reply in both cases, and that on a device without that block the
  cached reply is the device's exactly when the slot is not empty.
- rboot/fat.c:148-159 and rboot/vfs.c:265-278: reading a FAT file that has no clusters returns the error value
  0xFFFFFFFF as a number of bytes, and the stream function divides it by the item size: the caller is told of
  0xFFFFFFFF / size items and the position does not move. `FileAccess.FatFread` and `FileAccess.Fread` state this
  case; for every file with a cluster they state the right result.
- miniz/miniz.c:2228: the comment at miniz/miniz.c:843-847 asks for an output buffer that holds a block coded with the
  fixed codes; the dynamic case is left to the assertion, and miniz/miniz.c:2208 calls the retry "extremely unlikely
  (if not impossible)". It is impossible: `Compressor.Compressor.NeverFull`, from `BlockSize.DynamicSize`, which rests
  on how little the length limit costs.
- miniz/miniz.c:2313-2316: a link of 0 means that there is none, and places are stored in sixteen bits, so a place that
  is a multiple of 65536 ends every chain it is in, and older matches are missed although probes are left.
  `Dictionary.Dict.LongestFound` names this as one of the two ways to miss a longer match.
- rboot/vfs.c:391-422: seeking from the end counts backwards (`FileAccess.SeekTo`), where the C library's function
  counts forwards.

## Left out

- Decompressor.DecompressAll: the decoder is proved on complete files that mean something under RFC 1951 or RFC 1950,
  and on files whose zlib header or checksum is wrong. Its failure states, the zero bytes it takes for granted when
  the caller says that no input is left, and what it does with other inputs are not modelled. On other inputs miniz
  agrees with the specification only as long as no length symbol 286 or 287 and no distance symbol 30 or 31 is decoded
  (their table entries are 0: a length of 0 copies three bytes, a distance of 0 copies the place being written) and no
  such zero byte is used.
- Decompressor.Decompressor.Decompress: only a linear output buffer; the coroutine with a window that wraps around is
  left out, though `MatchCopy` covers the copy in a wrapping window.
- Compressor.Compressor.Compress: the callback form of the output is modelled, as an append to `out`; the form that
  fills a caller's buffer and comes back for the rest, and a callback that fails, are not. Of compressed blocks the
  writer with wide bit buffer is the same function as the portable one and is not modelled apart.
- Dictionary.Dict.constructor: hash heads start as zeros; the option that leaves them as they are, and so makes the
  choice of matches depend on what was in memory, is not modelled.
- Parser.Parser.Step: source positions are unbounded numbers; their wrap at 32 bits is not modelled.
- Entropy.LenSym: the compressor's symbol tables are given by their runs of equal entries.
- BitWriter.Writer.PutBits: joining disjoint bit fields is addition.
- MinRedundancy.CalculateMinimumRedundancy: the keys are an array of their own rather than the first field of each
  symbol record.
- BlockCache.Run: the device reports how many bytes it moved and does not fail.
- FileAccess.FsWrite: only files whose blocks are all there; extending a chain while writing is left out, as are
  directories and partitions.
- FatChain.GetNextFatEntry: FAT12, which the original rejects as well, and device errors.
- ZipIndex.Locate: the central directory's layout, file comments and archives that are damaged.
- JumpRun.Run: jumps to known addresses with one-byte operands, the prologue that is written after its function, and
  the size of a section beyond 31 bits.
- Deflate streams split by a preset dictionary, the zip writer, PNG output, the ELF loader, the linker, the C
  preprocessor and parser, USB and SD card drivers, and Lua bindings are not part of this model.
