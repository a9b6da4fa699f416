# PNG codec and memory-stick layer: verification model

This project models two parts of the emulator and proves what they are for.

**The PNG codec**, `user/lodepng/lodepng.c`:

- DEFLATE (RFC 1951) and zlib (RFC 1950). The table-driven decoder, which is modelled
  on mutable bit buffers and arrays as the source has it, refines a short reference
  decoder on arbitrary bytes; and whatever the encoder writes, that reference decoder
  reads back. On the way: canonical codes and the two-level table; LZ77, whose hash
  chains miss no longer match; and boundary package-merge, whose code lengths are
  complete and the shortest within the limit. The blocks of a stream are pinned down as
  well: their types, how they divide the data, the decisions of the LZ77 encoder, and
  trees with which no data would be shorter.
- The CRC by slicing, and Adler-32 with its deferred reduction.
- The image layer: filters and their unrolled inverses, the choice of a filter for every
  line, padding bits, Adam7, and the pipeline that decodes in place. It gives back all
  pixel bits.
- Colour modes of up to 8 bits a channel: conversion, statistics and the automatic choice
  of a mode. The choice loses nothing but greys of palettes below 8 bits, and exactly when
  is proved; where there are enough pixels it cannot be bettered.

**The memory-stick descriptor layer**, `user/msfs.c`. The host (`HostFiles`) keeps the
files but may drop any open handles between two calls. A run of requests through the
layer (`MsfsRun.Run`) gives the answers and the files of a system that has no handles.
For this the host must be willing: a *gentle* host reopens a file that exists and does
not drop the newest handle before it has been used twice, for the seek and for the retry.
Without that assumption the layer's results are still right whenever they are not errors
(`Msfs.Table.Read`, `Write`, `Lseek`).

Six claims of the code hold only under a condition, which the contracts give exactly:

- A compressed empty input decompresses only if it was compressed with type 2
  (`Deflate.Deflatev`, `Zlib.ZlibRoundTrip`; `Zlib.UnzippedNothing` is the input that fails).
- An image decodes only if every filter type given in advance for one of its lines is
  known (`Pipeline.ImageRoundTrip`).
- The automatic colour choice loses greys of a palette of d < 8 bits if and only if grey is
  allowed, all colours used are grey, no alpha is needed (nor a key for at most 16 pixels),
  fewer bits were counted than needed, and a palette is not allowed, not worth it, or not
  smaller than what was counted (`AutoColor.GreysLost`, `AutoColor.AutoChooseColor`,
  `AutoColor.ColorRoundTrip`; `AutoColor.LostPair` and `AutoColor.LostThree` lose some).
- A seek is recorded only when bit 31 of its target is clear, since the result is cast to
  int (`Msfs.Table.Lseek`, `Msfs.Recorded`, `Msfs.SeekBeyond`).
- After a write to a file open for appending, the recorded offset is right exactly when
  it was the end of the file before (`Msfs.Table.Write`, `MsfsCases.AppendMisplaced`).
- A lost handle can be replaced exactly when the file was not opened for exclusive
  creation (`Msfs.Table.ReopenFile`, `MsfsCases.ExclusiveLost`).

The comment on `searchCodeIndex` (lines 1440-1441) says that it returns the size of the
array when no entry is small enough; the code returns 0, and so does the model.

What encoder and decoder share, a round trip cannot check: tables, predictors, paths. So
these are stated on their own, in the terms of the standards or of the source:
`DeflateFormat`, `InflateTrees.CodeLengthFields`, `PngFilters.PredictMeaning`,
`Adler.AdlerMeans`, `Crc.TablePowers`, `Adam7.PassPattern`, `ColorModes.SamplesMean` and
`Msfs.PathsApart`.

Numbers that stand for bit patterns are unbounded naturals. Shifts and masks are
division and remainder, or on fields that share no bit is addition, and each 32-bit
or 16-bit wrap that matters is written out or proved not to happen. Structures the
source links by pointers are pools of nodes addressed by number.

## Model

| member | source | states |
|---|---|---|
| Bits.PackPush | user/lodepng/lodepng.c:420-429 | Writing one more bit changes only the last byte of the packed stream (or starts a new one), and never carries. |
| Bits.PackStream | user/lodepng/lodepng.c:420-429 | Packing bits into bytes and streaming the bytes LSB first gives the bits back, followed only by padding. |
| Bits.RevInvolution | user/lodepng/lodepng.c:577-584 | Reversing the low n bits twice gives them back. |
| Bits.RevPrefix | user/lodepng/lodepng.c:577-584 | The reversed prefix of a word is the top part of the reversed word. |
| BitReader.Reader.EnsureBits9 | user/lodepng/lodepng.c:488-501 | After the call the low 9 bits of the buffer are the zero-extended stream at bp, also at the end of the data. |
| BitReader.Reader.EnsureBits17 | user/lodepng/lodepng.c:503-518 | The same for 17 bits. |
| BitReader.Reader.EnsureBits25 | user/lodepng/lodepng.c:520-535 | The same for 25 bits. |
| BitReader.Reader.EnsureBits32 | user/lodepng/lodepng.c:538-555 | The same for 32 bits, including the fifth byte shifted in from above. |
| BitReader.Reader.ReadBits | user/lodepng/lodepng.c:570-574 | Returns the next n bits of the stream and leaves a buffer that holds the stream after them. |
| BitWriter.Writer.WriteBit | user/lodepng/lodepng.c:420-429 | Appends one bit to the packed stream although the position counter is an unsigned char that wraps. |
| BitWriter.Writer.WriteBits | user/lodepng/lodepng.c:432-442 | Appends the n low bits of any value, least significant first; a single bit must be 0 or 1, since the source writes it without a mask. |
| BitWriter.Writer.WriteBitsReversed | user/lodepng/lodepng.c:445-451 | Appends them most significant first. |
| Vectors.UcVector.Resize | user/lodepng/lodepng.c:280-297 | Sets the size, larger or smaller, reserving room first; the bytes that stay in use keep their values. |
| Canonical.PrefixFree | user/lodepng/lodepng.c:781-815 | No bit pattern begins with the codes of two symbols. |
| Canonical.Complete | user/lodepng/lodepng.c:660-774 | A code whose Kraft sum is 1 assigns a symbol to every bit pattern. |
| Canonical.Incomplete | user/lodepng/lodepng.c:660-774 | A code whose Kraft sum is below 1 leaves the all-ones pattern without a symbol. |
| Canonical.CodeZeros | user/lodepng/lodepng.c:1017-1030 | Trimming or padding trailing absent symbols changes no code. |
| HuffmanTree.MakeCodes | user/lodepng/lodepng.c:781-812 | The codes are those of RFC 1951 section 3.2.2 although absent symbols are counted too: the mask removes what they added. |
| HuffmanTable.Oversubscribed | user/lodepng/lodepng.c:676-692 | An oversubscribed code cannot be entered into the table without a collision. |
| HuffmanTable.AllUsed | user/lodepng/lodepng.c:731-738 | If every entry of the finished table is used, the Kraft sum is exactly 1. |
| HuffmanTree.MakeTable | user/lodepng/lodepng.c:660-774 | Returns 0 if and only if fewer than two symbols are present or the Kraft sum is exactly 1; the table then answers every lookup. |
| HuffmanTree.MakeFromLengths | user/lodepng/lodepng.c:781-833 | Accepts exactly the acceptable length vectors, and gives a tree whose codes and table are both right. |
| HuffmanTree.DecodeSymbol | user/lodepng/lodepng.c:1069-1081 | The two-level lookup returns the symbol whose canonical code comes next and advances by exactly its length. |
| InflateSpec.NextSymbolIs | user/lodepng/lodepng.c:1069-1081 | The reference decoder finds the one symbol whose code comes next. |
| InflateSpec.CopyUnique | user/lodepng/lodepng.c:1300-1315 | A buffer that repeats itself at a distance is the byte-by-byte copy. |
| Inflate.CopyMatch | user/lodepng/lodepng.c:1300-1315 | The split block copy, overlapping or not, equals the byte-by-byte copy. |
| Inflate.InflateStep | user/lodepng/lodepng.c:1252-1331 | One iteration, which may read two literals at once, makes the reference decoder's steps and adds at most 259 bytes. |
| InflateTrees.GetTreeInflateDynamic | user/lodepng/lodepng.c:1100-1231 | Fails exactly when the reference decoder rejects the header, and otherwise yields its trees and position. |
| InflateTrees.CodeLengthFields | user/lodepng/lodepng.c:1133-1141 | Each of the nineteen code length symbols has its length in three bits at its own offset of the header, 16 at 0, 17 at 3, 18 at 6, 0 at 9, 8 at 12, 7 at 15 and so on alternately; a length that is not sent is 0. |
| InflateTrees.ClLengthsAt | user/lodepng/lodepng.c:619-620 | The order of transmission in the source puts every field where the format has it. |
| DeflateFormat.LengthTable | user/lodepng/lodepng.c:598-605 | The length table is the one of the standard: single lengths, then four codes for each number of extra bits, 258 by itself. |
| DeflateFormat.DistanceTable | user/lodepng/lodepng.c:608-615 | So is the distance table: four single distances, then two codes for each number of extra bits. |
| DeflateFormat.FixedCodes | user/lodepng/lodepng.c:1033-1048 | The code of each literal/length symbol in a fixed block, as numbers. |
| DeflateFormat.FixedDistanceCodes | user/lodepng/lodepng.c:1051-1061 | A fixed distance code is the symbol itself in five bits. |
| InflateTrees.ReadLengths | user/lodepng/lodepng.c:1151-1212 | The in-place loop over two arrays computes the reference run-length expansion. |
| InflateStream.InflateHuffmanBlock | user/lodepng/lodepng.c:1234-1340 | A compressed block gives the reference decoder's bytes, or an error exactly when that has none or they do not fit. |
| InflateStream.InflateNoCompression | user/lodepng/lodepng.c:1342-1375 | The same for stored blocks. |
| InflateStream.Inflatev | user/lodepng/lodepng.c:1377-1401 | On arbitrary bytes the loop ends, returns 0 if and only if the reference decoder accepts the stream and the result fits the limit, and appends exactly its bytes. |
| PackageMerge.StepKeeps | user/lodepng/lodepng.c:913-936 | One boundary step keeps the invariant of all look-ahead chains: sorted, whole, and of the right number of items. |
| PackageMerge.RunKeeps | user/lodepng/lodepng.c:999 | After step k of the main loop the last chain stands for exactly k whole items. |
| PackageMerge.ChainIsComplete | user/lodepng/lodepng.c:1001-1003 | A final chain of 2n-2 items gives lengths whose Kraft sum is exactly 1. |
| PackageItems.PrefixHolds | user/lodepng/lodepng.c:913-936 | In package-merge in full, the first k items of every list are whole pairs and leaves, and the k-th weighs at least all of them and at most all later ones. |
| PackageItems.Cheapest | user/lodepng/lodepng.c:913-936 | No chain of at least k items, whatever leaves it counts, costs less than the first k items of its list. |
| PackageExact.StepExact | user/lodepng/lodepng.c:913-936 | A step of the boundary algorithm, which looks only two items ahead, finds the next item of the full list and keeps every look-ahead pair the right one. |
| PackageExact.RunExact | user/lodepng/lodepng.c:999 | So after step k the newest chain of the last list is item k of the full list. |
| CodeCost.EnoughItems | user/lodepng/lodepng.c:1001-1003 | Any lengths within the limit whose codes fit the code space make a chain of at least 2n-2 items. |
| CodeCost.LeastWeight | user/lodepng/lodepng.c:938-1014 | The weighted sum of the chain's lengths is the least among all lengths within the limit whose Kraft sum is at most 1. |
| SymbolCost.ChainIsShortest | user/lodepng/lodepng.c:938-1014 | The same for symbols and frequencies: no code within the limit for the present symbols takes fewer bits. |
| BpmLists.BPMLists.Create | user/lodepng/lodepng.c:861-887 | The node pool never runs dry and never hands out a node that a live chain still uses. |
| BpmLists.BPMLists.BoundaryPM | user/lodepng/lodepng.c:913-936 | The pointer version makes the step of the list version. |
| LeafSort.Sort | user/lodepng/lodepng.c:890-910 | Bottom-up merge sort yields a sorted permutation in which leaves of equal weight keep their order. |
| LeafSort.MergeSorted | user/lodepng/lodepng.c:900-904 | Merging sorted runs gives a sorted run. |
| LeafSort.MergeStable | user/lodepng/lodepng.c:900-904 | In a merge all leaves of one weight come from the first run before those from the second. |
| HuffmanLengths.HuffmanCodeLengths | user/lodepng/lodepng.c:938-1014 | Error 80 exactly when the alphabet is empty or too large for the limit; otherwise lengths within the limit with Kraft sum exactly 1, present symbols coded, with two or more present the absent ones not, and no code within the limit takes fewer bits. |
| Lz77.AddLengthDistance | user/lodepng/lodepng.c:1456-1477 | Every length 3 to 258 and distance 1 to 32768 has a code quadruple that stands for it; 258 gets its own length code. |
| Lz77.SearchCodeIndex | user/lodepng/lodepng.c:1442-1454 | Binary search finds the last entry not above the value, and 0 when there is none. |
| Lz77.ExpandMatch | user/lodepng/lodepng.c:1701-1726 | Appending a pair for a real repetition extends the expansion by exactly the repeated bytes. |
| HashChains.NextZeros | user/lodepng/lodepng.c:1616-1621 | The zero count equals the run of zeros at every position with a zero hash, although it is recounted only when it has run out, and is 0 elsewhere. |
| MatchSearch.NextByHash | user/lodepng/lodepng.c:1669-1678 | Following a link leads to the nearest earlier position with the same hash; when that is outside the window or the block, there is none left. |
| MatchSearch.NextByRun | user/lodepng/lodepng.c:1671-1673 | Switching to the chain of equal runs of zeros, once the match is longer than the run, skips no candidate that could match further. |
| MatchSearch.MatchLength | user/lodepng/lodepng.c:1643-1658 | The match length is the longest possible, whether or not zeros are skipped. |
| MatchSearch.LongestMatch | user/lodepng/lodepng.c:1629-1679 | What the chain search returns is a real match within the window, or none; unless it is nice enough, no earlier position of the block with the same hash, in the window and among the first maxchainlength of them, matches further, and none that matches as far is nearer. |
| HashChains.Hash.UpdateHashChain | user/lodepng/lodepng.c:1564-1572 | Keeps every head and link leading to the newest earlier position with the same hash or the same run of zeros while it is in the window, also when a position is inserted again. |
| HashChains.ChainInsert | user/lodepng/lodepng.c:1564-1572 | The same as a lemma on one chain. |
| Lz77Encoder.EncodeLZ77 | user/lodepng/lodepng.c:1583-1730 | Errors exactly on a bad window size; otherwise the codes expand, after the earlier data, to exactly the bytes of the block, and are those of the decisions the settings ask for (Parses): at each position the best match, deferred by one byte when lazy matching finds one longer by two, and a literal exactly where no match is worth a pair; and the loop ends although it steps backwards. |
| Lz77Encoder.BestIsLongest | user/lodepng/lodepng.c:1588-1589 | For windows of 8192 bytes and more, what is found at a position is the longest of all matches in the block and the window, and the nearest of the longest, unless it is nice enough. |
| LengthRuns.EncodeLengths | user/lodepng/lodepng.c:1898-1932 | The run-length coding stands for the same lengths, is never longer than they are, and codes each maximal run as a whole (RunsOf): zeros up to 138 at a time, other lengths once and then six repeats at a time. |
| DeflateTrees.MakeFromFrequencies | user/lodepng/lodepng.c:1017-1030 | A complete code for every counted symbol over the trimmed alphabet, and the shortest within the limit. |
| DataCost.LeastData | user/lodepng/lodepng.c:1866-1884 | No other pair of codes of at most 15 bits makes the data of a dynamic block shorter than the codes chosen for it. |
| DataCost.DataSize | user/lodepng/lodepng.c:1772-1793 | The size of a block's data: every symbol's code length as often as it occurs, and the extra bits. |
| DeflateTrees.CountFrequencies | user/lodepng/lodepng.c:1866-1876 | Every symbol is counted exactly as often as it will be written, the end code once. |
| DeflateTrees.CountRunFrequencies | user/lodepng/lodepng.c:1934-1940 | The same for the code length symbols; the repeat counts after 16, 17 and 18 are not counted. |
| DeflateTrees.TrimmedCount | user/lodepng/lodepng.c:1945-1951 | Only trailing zeros in the transmitted order are dropped, and at least four lengths stay. |
| DeflateTrees.WriteLZ77data | user/lodepng/lodepng.c:1772-1794 | Writes the codes and extra bits of all literals and pairs. |
| DeflateTrees.WriteHeader | user/lodepng/lodepng.c:1972-1992 | Writes the three counts, the code length code and the coded lengths. |
| DeflateSpec.SymbolAt | user/lodepng/lodepng.c:1069-1081 | Where the code of a symbol was written, the reference decoder reads that symbol. |
| DeflateSpec.SymbolsDecode | user/lodepng/lodepng.c:1772-1794 | The reference decoder undoes the writing of literals and pairs, up to the end code. |
| DynamicHeader.RunsDecode | user/lodepng/lodepng.c:1985-1992 | The reference decoder undoes the run-length coding and its Huffman coding. |
| DynamicHeader.HeaderDecode | user/lodepng/lodepng.c:1972-1992 | The reference decoder reads back both trees, padded to the full alphabets. |
| DeflateBlocks.FixedAppends | user/lodepng/lodepng.c:2019-2062 | A fixed block adds the bytes its codes stand for, wherever it occurs in a stream. |
| DeflateBlocks.DynamicAppends | user/lodepng/lodepng.c:1797-2017 | The same for a dynamic block. |
| DeflateBlocks.StoredAppends | user/lodepng/lodepng.c:1734-1765 | The same for a stored block, provided it is not empty. |
| Deflate.DeflateNoCompression | user/lodepng/lodepng.c:1734-1765 | The stored stream of non-empty data inflates to it, and is made of stored blocks of 65535 bytes with a shorter one at the end; that of nothing is nothing. |
| Deflate.StoredHeadAt | user/lodepng/lodepng.c:1743-1747 | Each stored block begins with a byte that says whether it is the last, with type 0. |
| Deflate.DeflateFixed | user/lodepng/lodepng.c:2019-2062 | Succeeds exactly when the window size is good, and then appends a block for data[datapos..dataend]: type 1, the values of the encoder's decisions in the fixed codes, and the end code. |
| Deflate.DeflateDynamic | user/lodepng/lodepng.c:1797-2017 | The same for dynamic blocks: type 2, a header with shortest codes for the values, trimmed, and with a shortest code for the runs of their lengths, then the values in those codes. |
| Deflate.BlocksCover | user/lodepng/lodepng.c:2074-2096 | The blocks lie end to end and cover the input. |
| Deflate.WriteBlock | user/lodepng/lodepng.c:2095-2096 | A block has the type that the settings ask for in its header, and the final flag exactly if it is the last. |
| Deflate.Deflatev | user/lodepng/lodepng.c:2064-2103 | Succeeds exactly on good settings; the result inflates to exactly the input, whatever follows it, if and only if the input is not empty or the type is 2. Every block of the stream has the type asked for in its header, only the last has the final flag, and the blocks divide the input as the type prescribes (StreamOf). |
| Deflate.NothingInflates | user/lodepng/lodepng.c:1738-1740 | The empty result of a stored empty input is rejected by the decoder. |
| Zlib.DeflateRoundTrip | user/lodepng/lodepng.c:1377-1401 | Inflating a deflated input returns error 0 if and only if the input is not empty or the type is 2, and it fits the limit; and then returns the input. |
| Adler.UpdateAdler32 | user/lodepng/lodepng.c:2133-2151 | Reducing once per 5552 bytes in 32-bit arithmetic equals reducing after every byte. |
| Adler.RunFits | user/lodepng/lodepng.c:2139-2141 | 5552 steps from 16-bit sums stay below 2^32. |
| Adler.AdlerMeans | user/lodepng/lodepng.c:2133-2155 | The checksum in one formula: one plus the sum of the bytes, and the sum of each byte times the number of bytes from it to the end, plus their number, both modulo 65521. |
| Zlib.Read32Bytes32 | user/lodepng/lodepng.c:337-350 | Reading back a written 32-bit number gives it. |
| Zlib.StreamTwoBytes | user/lodepng/lodepng.c:2196-2198 | Data that inflates has at least two bytes, so the checksum is read inside the input. |
| Zlib.Decompressv | user/lodepng/lodepng.c:2164-2203 | Succeeds exactly on a good header, stream and checksum, and yields the reference result. |
| Zlib.Compress | user/lodepng/lodepng.c:2245-2280 | The framed stream decompresses to the input, checksum and all; that of an empty input stored with type 0 does not decompress at all. The stream is the bytes 0x78 and 0x01, the deflated data, made of the blocks that the settings ask for, and the checksum. |
| Zlib.UnzippedFrame | user/lodepng/lodepng.c:2245-2280 | Header, DEFLATE data and checksum are recognised together. |
| Zlib.UnzippedNothing | user/lodepng/lodepng.c:2164-2203 | Header and checksum with no DEFLATE data between them are rejected. |
| Zlib.ZlibRoundTrip | user/lodepng/lodepng.c:2164-2280 | Decompressing a compressed input returns error 0 if and only if the input is not empty or the type is 2, and it fits the limit; and then returns the input. |
| Crc.TableNext | user/lodepng/lodepng.c:2373-2650 | Each of the eight tables follows from the one before it by the recurrence of a byte divided out. |
| Crc.TableSum | user/lodepng/lodepng.c:2373-2406 | The entry at an exclusive or of two indices is that of the two entries. |
| Crc.TablePowers | user/lodepng/lodepng.c:2373-2406 | The entries of table 0 at the eight powers of two are the literals of the source; with the two laws above they determine all eight tables. |
| Crc.PolynomialTerms | user/lodepng/lodepng.c:2390 | The entry at 128 is the polynomial of the PNG specification, term by term. |
| Crc.FourOnes | user/lodepng/lodepng.c:2656-2673 | Four bytes of ones, which cancel the initial register, have the CRC of all ones. |
| Crc.EightIsCrc | user/lodepng/lodepng.c:2654-2673 | Eight table lookups xor-ed together advance the remainder by eight bytes. |
| Crc.Crc32 | user/lodepng/lodepng.c:2654-2673 | The slicing-by-eight loop computes the bytewise CRC of every buffer. |
| PngFilters.PaethPredictor | user/lodepng/lodepng.c:4319-4330 | The 16-bit predictor picks the neighbour nearest to a + b - c, ties in the order of the PNG specification, section 9.4. |
| PngFilters.ReconFiltered | user/lodepng/lodepng.c:6055-6097 | For all five filter types, any pixel size and any previous line, reconstruction undoes filtering. |
| PngFilters.PredictMeaning | user/lodepng/lodepng.c:4319-4330 | What each filter type predicts: nothing, the left byte, the upper one, half of both rounded down, or the one nearest to left + upper - upper left in the standard tie order. |
| PngFilters.ReconLineMeans | user/lodepng/lodepng.c:4449-4638 | Every reconstructed byte differs from the filtered one by that prediction from the bytes reconstructed before it and the line above. |
| PngFilters.FilteredLineMeans | user/lodepng/lodepng.c:6055-6097 | Every filtered byte differs from the byte of the line by that prediction. |
| Scanlines.FilterScanline | user/lodepng/lodepng.c:6055-6097 | The split loops write the filtered line and nothing else; an unknown type writes nothing. |
| Unfiltering.UnfilterScanline | user/lodepng/lodepng.c:4449-4638 | Every unrolled path reconstructs the line byte by byte, also when output and input share memory with the output not after the input; each byte differs from the filtered one by what its filter type predicts (LineMeans). |
| ImageFilter.UnfilterLines | user/lodepng/lodepng.c:4640-4668 | All lines are reconstructed, in place if need be, each by its own type byte from the line above (ImageMeans); the error is 0 exactly when every type byte is at most 4. |
| ImageFilter.UnfilterFilter | user/lodepng/lodepng.c:4640-4668 | Reconstructing a filtered image gives the image, for any types of its lines. |
| FilterChoice.Ilog2Is | user/lodepng/lodepng.c:6100-6108 | The shifts find the integer logarithm of every 32-bit number. |
| FilterChoice.BestFilter | user/lodepng/lodepng.c:6156-6299 | The chosen filter is the first with the least score of all five, by the sum, by the entropy or, for brute force, by the size of a zlib stream that decompresses to the attempt; and the line it gives is that filter's. |
| FilterChoice.FilterLines | user/lodepng/lodepng.c:6120-6302 | Each line's type byte is the one the strategy asks for: always the same, the one given in advance, or the first of the five with the least measure for that line (TypesOf). With types of at most 4 the output is the filtered image; an unknown one leaves its line unwritten. |
| FilterChoice.Ilog2iIs | user/lodepng/lodepng.c:6111-6118 | The integer approximation of i log i is exact at powers of two and straight between them. |
| MsbBits.CopyBits | user/lodepng/lodepng.c:2704-2726 | Moving bits one at a time towards the front moves exactly them, also within one buffer. |
| Padding.UnpaddedPadded | user/lodepng/lodepng.c:6305-6322 | Dropping the padding of padded lines gives the bits back. |
| Padding.RemovePaddingBits | user/lodepng/lodepng.c:4721-4742 | Removes the padding bits of every line, also in place. |
| Padding.AddPaddingBits | user/lodepng/lodepng.c:6305-6322 | Appends zero bits to every line. |
| Adam7.PassCovers | user/lodepng/lodepng.c:4333-4376 | Every pixel of the image is in one of the seven passes. |
| Adam7.PlaceUnique | user/lodepng/lodepng.c:4333-4376 | No pixel is in two passes or at two places of one. |
| Adam7.PassPattern | user/lodepng/lodepng.c:4333-4338 | The passes of the pixels follow the eight by eight pattern of the PNG specification. |
| Adam7.AreasSum | user/lodepng/lodepng.c:4353-4376 | The areas of the passes sum to the area of the image. |
| PassLayout.GetPassValues | user/lodepng/lodepng.c:4353-4376 | Computes the sizes of the passes and where each starts, filtered, padded and packed. |
| PassLayout.StartsOrdered | user/lodepng/lodepng.c:4353-4376 | Every pass starts packed at or before where it starts padded, and padded at or before where it starts filtered. |
| PassLayout.RawSizeIs | user/lodepng/lodepng.c:3081-3085 | The split division equals the rounded up number of bytes of w * h pixels. |
| PassLayout.RawSizeIdatIs | user/lodepng/lodepng.c:3097-3102 | The split division equals h lines of one byte and the rounded up pixel bytes. |
| PassLayout.ExpectedSizeIs | user/lodepng/lodepng.c:5480-5494 | The closed form of the interlaced size is where the last pass ends, for all sizes and depths. |
| ImageSpec.FewestBytes | user/lodepng/lodepng.c:4653-4655 | The bytes for a pixel and for a line are as few as hold their bits. |
| Interlacing.ImageDetermined | user/lodepng/lodepng.c:4681-4719 | The reduced images determine every pixel of the image. |
| InterlaceImage.InterlaceBytes | user/lodepng/lodepng.c:6335-6354 | Every pixel of at least a byte goes to its place in its pass. |
| InterlaceImage.InterlaceBits | user/lodepng/lodepng.c:6355-6371 | The same for pixels below a byte, bit by bit. |
| InterlaceImage.DeinterlaceBytes | user/lodepng/lodepng.c:4681-4700 | Every pixel of at least a byte comes back from its place in its pass. |
| InterlaceImage.DeinterlaceBits | user/lodepng/lodepng.c:4701-4718 | The same for pixels below a byte, bit by bit. |
| ImagePipeline.InterlaceRoundTrip | user/lodepng/lodepng.c:4681-4719 | Deinterlacing an interlaced image gives the image, for every legal depth. |
| ImageSpec.RepresentsOne | user/lodepng/lodepng.c:4748-4789 | Filtered, padded, possibly interlaced data stand for one image at most. |
| Pipeline.PreProcessScanlines | user/lodepng/lodepng.c:6376-6447 | The bytes handed to the compressor stand for the image, interlaced or not, for every filter strategy, and their type bytes are those the strategy asks for, pass by pass; if a type given in advance for a line is above 4, they stand for none. |
| Pipeline.PostProcessScanlines | user/lodepng/lodepng.c:4748-4789 | Working in place over its input, succeeds exactly when all filter types are good, and yields the image the data stand for. |
| Pipeline.ImageRoundTrip | user/lodepng/lodepng.c:4748-4789 | The decoder succeeds if and only if every filter type given in advance for a line is at most 4, and then gives back all w * h * bpp pixel bits the encoder was given. |
| PackedPixels.AddColorBits | user/lodepng/lodepng.c:3432-3441 | A pixel of 1, 2 or 4 bits is or-ed into its byte; the pixels before it keep their values. |
| PackedPixels.ReadPacked | user/lodepng/lodepng.c:2711-2719 | Reading the bits at its position gives that pixel. |
| ColorTree.PathInjective | user/lodepng/lodepng.c:3471-3479 | Eight levels of one bit from each channel tell all colours apart. |
| ColorTree.Tree.Get | user/lodepng/lodepng.c:3471-3479 | Returns the index of a colour, or -1 when it has none. |
| ColorTree.Tree.Add | user/lodepng/lodepng.c:3490-3504 | Gives one colour an index and changes no other's. |
| ColorModes.GetPixel | user/lodepng/lodepng.c:3594-3663 | The colour that the stored samples of a pixel stand for, scaled, keyed or looked up. |
| ColorModes.PutPixel | user/lodepng/lodepng.c:3507-3558 | Stores a colour as the mode does, or fails with 82 exactly when the palette lacks it; earlier pixels keep their samples. |
| ColorModes.SamplesMean | user/lodepng/lodepng.c:3594-3663 | What samples stand for: a grey of d bits is the same fraction of white, an index its palette entry or, beyond the last, opaque black, the others themselves. |
| ColorModes.GreyRange | user/lodepng/lodepng.c:3507-3558 | Stored in d bits, a grey is the number of the one of 2^d equal ranges that it lies in. |
| ColorConvert.GetPixelColorsRgba8 | user/lodepng/lodepng.c:3668-3760 | The loop for each mode agrees with the conversion of single pixels. |
| ColorConvert.GetPixelColorsRgb8 | user/lodepng/lodepng.c:3764-3836 | The same without alpha. |
| ColorConvert.CodedMeaning | user/lodepng/lodepng.c:3507-3558 | Storing the colour that samples stand for gives the samples back. |
| ColorConvert.Convert | user/lodepng/lodepng.c:3864-3936 | Error 107 exactly for an input palette that is missing, 82 exactly when a colour cannot be named by an output index; otherwise every pixel shows its colour, or as much of it as the mode stores. |
| ColorStats.Stats.Compute | user/lodepng/lodepng.c:4032-4222 | For an image in any mode of up to 8 bits a channel, fresh statistics are exact in colour, in the number of colours and which, and in alpha, needed exactly when one transparent colour would not do; the grey depth is what was counted before counting stopped. |
| ColorStats.CountedOne | user/lodepng/lodepng.c:4045-4062 | For pixels of one bit no grey depth is counted at all. |
| ColorStats.CountedFirst | user/lodepng/lodepng.c:4142-4151 | For pixels of d bits counting stops at the first colour that needs at least d, with that colour's need. |
| ColorStats.CountedAll | user/lodepng/lodepng.c:4142-4151 | When no colour needs more than d bits, nothing is missed. |
| AutoColor.GreyKept | user/lodepng/lodepng.c:4024-4029 | A grey survives being cut to 1, 2 or 4 bits exactly when it needs no more. |
| AutoColor.DirectKeeps | user/lodepng/lodepng.c:4300-4311 | A mode without palette chosen from exact statistics gives every colour of the image back. |
| AutoColor.AtLeastLeast | user/lodepng/lodepng.c:4251-4314 | Any mode that keeps all colours needs at least the bits that the colours demand. |
| AutoColor.AutoChooseColor | user/lodepng/lodepng.c:4251-4314 | For every input mode, the chosen mode keeps every colour, or is the input's own palette, if and only if greys are not lost (GreysLost: too few bits were counted, and grey is chosen for them); its type and depth are the ones that the colours, the pixel count and the two permissions call for (TypeFor); and when there are enough pixels to justify a palette or a key, no mode that keeps all colours takes fewer bits for a pixel. |
| AutoColor.NeverLost | user/lodepng/lodepng.c:4032-4222 | For every input mode but palettes below 8 bits no greys are lost. |
| AutoColor.LostPair | user/lodepng/lodepng.c:4045-4062 | An image of two pixels that loses its greys: a palette of one bit with the greys 85 and 170. |
| AutoColor.LostThree | user/lodepng/lodepng.c:4142-4151 | And a family of any size: a palette of two bits, the first pixel grey 85, and greys 0x12 and 0x34 after it. |
| AutoColor.ColorRoundTrip | user/lodepng/lodepng.c:3864-3936 | Converting an image in any mode of up to 8 bits a channel to the mode chosen for it, and that to 8-bit RGBA, never fails, and shows all the colours of the image if and only if greys are not lost; an 8-bit RGBA image comes back byte for byte. |
| HostFiles.ReadTwice | user/msfs.c:299-321 | Two reads in a row are one. |
| HostFiles.WriteTwice | user/msfs.c:340-362 | Two writes in a row are one. |
| Msfs.Table.ReopenFile | user/msfs.c:128-140 | A new handle on the recorded path and flags, moved to the recorded offset; no other slot or handle changes. On a gentle host reopening a file that exists succeeds if and only if it was not opened for exclusive creation. |
| Msfs.Table.Read | user/msfs.c:291-324 | Whenever handles are lost, a result that is not an error is exactly the bytes at the recorded offset, which then is the live position again. If the handle of an exclusively created file is lost, the answer is ENODEV, and EBADF from then on. |
| Msfs.Table.Write | user/msfs.c:326-365 | The same for writing: all the data is in the file at the recorded offset. A file open for appending grows by the data, and the recorded offset is right afterwards exactly when it was the end of the file before. |
| Msfs.Table.Lseek | user/msfs.c:367-386 | The result is the target, also when the handle was lost or its low 32 bits look like the error; the recorded offset then agrees with the live position exactly when bit 31 of the target is clear or the target is the offset recorded before. |
| Msfs.Recorded | user/msfs.c:375-383 | The cast to int is not negative exactly when bit 31 is clear. |
| Msfs.SeekBeyond | user/msfs.c:375-383 | A seek to 2 GiB is an input whose offset is not recorded; one to 2147549203 is mistaken for the error. |
| MsfsCases.ExclusiveLost | user/msfs.c:128-140 | A run in which an exclusively created file is lost with its handle. |
| MsfsCases.SharedKept | user/msfs.c:128-140 | The same run without exclusive creation, which shows nothing of the loss. |
| MsfsCases.AppendMisplaced | user/msfs.c:326-365 | A run in which a byte is appended to a file opened at its beginning, and after the handle is lost reading goes on in the middle. |
| Msfs.Table.Open | user/msfs.c:168-198 | Takes the first free slot at offset 0; with no slot left the file has been made all the same. |
| Msfs.PathsApart | user/msfs.c:35-45 | Two names on the same side of the prefix, one leading slash dropped, lie at the same place on the host exactly when they are equal. |
| Msfs.PathEnds | user/msfs.c:35-45 | The place is the location, a slash and the whole name; a name with the prefix lies in the application's folder instead, under what follows the prefix. |
| Msfs.Table.Close | user/msfs.c:262-289 | Frees an open slot, counting a lost handle as closed; no other slot or handle changes. |
| Msfs.Table.SetFileDescriptors | user/msfs.c:146-156 | Restoring a saved table reopens every file at its saved offset, each on its own handle, and leaves the files alone. |
| MsfsRun.Serve | user/msfs.c:291-386 | One request of any kind is answered, and changes files and offsets, as by a file system that has no handles to lose. |
| MsfsRun.Run | user/msfs.c:168-386 | So is any run of opens, closes, reads, writes and seeks, however often the host drops its handles on the way. |
| MsfsRun.Undisturbed | user/msfs.c:291-386 | A run that leaves a slot alone and writes only to other files changes neither its offset nor the bytes it reads. |
| MsfsRun.TwoFiles | user/msfs.c:168-386 | Of two files opened under different names, a read of one does not see what is written to the other, whatever handles are lost. |
| MsfsRun.ReadBack | user/msfs.c:168-386 | What is written to a file is read back after rewinding, whatever handles are lost. |
| Msfs.ErrorCodes | user/msfs.c:265-375 | The error codes are the 32-bit patterns of the system, as signed numbers. |
| HostFiles.WriteAtIs | user/msfs.c:340-362 | After a write every byte is the one written, the one before, or a zero in the gap. |

## Left out

- Allocation failure (error 83) and the checks for overflow of size computations: sizes are unbounded and allocations succeed.
- Error codes are exact where a contract names them; for the inflate functions the contracts say when there is an error, not which.
- Deflate.Deflatev: excludes an empty input with type 1, where the source divides by a block size of 0 (lines 2075-2083); likewise Zlib.Compress, Zlib.DeflateRoundTrip and Zlib.ZlibRoundTrip.
- HuffmanLengths.HuffmanCodeLengths: excludes an alphabet of one symbol, for which the source writes lengths[1] past the end of the array (lines 966-970). Leaf weights are unbounded while BPMNode.weight is a C int, so the model assumes that the sums of weights that the algorithm compares fit one; frequencies counted from a block do.
- Lz77Encoder.BestIsLongest: speaks of matches that begin in the block being encoded; one that begins in an earlier block may be found too, but near a block's end its hash was taken of fewer bytes. For windows below 8192 bytes MatchSearch.LongestMatch says how many candidates are looked at.
- DeflateTrees.MakeFromFrequencies: excludes fewer than two codes at the least; the source only calls it with 19, 2 and 257.
- BitWriter.Writer.WriteBits: a single bit must be 0 or 1, because the source or-s it in unmasked.
- Crc.Crc32: the eight tables are computed from the polynomial. Crc.TablePowers has the literals of table 0 at the powers of two, and Crc.TableSum and Crc.TableNext the laws for all other entries; that the other literals of the source (lines 2373-2650) follow them is assumed.
- Custom zlib, inflate and deflate callbacks of the settings.
- The shortcut filter_palette_zero (lines 6139-6143), which only replaces the strategy.
- Colours of 16 bits a channel: conversion, statistics and the RGBA16 pixel functions.
- ColorStats.Stats.Compute: only fresh statistics, and only of images of up to 8 bits a channel; a palette image must have a palette, which the source reads without a check.
- ColorConvert.Convert: says nothing about the output after error 82, and nothing about bits past the last pixel.
- lodepng_convert_rgb, and everything that reads or writes PNG chunks, text, ICC profiles and the other ancillary data.
- The C++ wrapper, file access and the inspection functions of lodepng.
- msfs: directories, stat and time conversion, rename, remove and devctl; TruncateFix.
- Msfs.Table.Open: excludes opening with truncation; likewise Msfs.Table.Close, descriptors opened so. The root directory and the extra entry of a descriptor are not part of the slot, and paths are not cut to the size of the source's buffer, so Msfs.PathsApart and MsfsRun.TwoFiles speak of paths that fit it.
- Msfs.Table.Read: sizes below 2^31, as the source's int arithmetic needs; the same for Msfs.Table.Write.
- MsfsRun.Run: runs without exclusive creation; seeks whose target has bit 31 clear; and writes to files open for appending at their end. For the other requests the contracts of the single operations say exactly what is kept and what is not.
- The rest of the repository: user interface, network glue, kernel hooks and drawing.
