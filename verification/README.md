# arduino-k210 verification

Dafny models of the self-contained algorithms and protocols of the Arduino core for the K210, with
proofs of what they promise. `dafny verify dfyconfig.toml` checks everything.

Code that changes things step by step is modelled by methods and classes with the same branches and
loops, each proved against a specification; the laws are lemmas about the specifications, or drivers
that run the methods one after the other. C shifts and masks are doubling, halving and remainders on
unbounded integers (`Bits.dfy`), and widths are written out where they matter.

| part | files |
|---|---|
| JPEG entropy coder and decoder: canonical codes, fast tables, stuffing, bit buffers, block and scan round trip | `Bits`, `Canonical`, `JpegHuffman`, `JpegFormat`, `JpegEncoder`, `JpegDecoder`, `JpegCoding`, `JpegTables`, `JpegScan`, `JpegRoundTrip` |
| DEFLATE: the LZ77 compressor with fixed codes and stored blocks, the inflater, Adler-32 | `LsbBits`, `ZHuffman`, `ZFormat`, `ZInflate`, `Adler`, `ZCompress`, `ZRoundTrip` |
| BMP: the writer through its 64-byte buffer into the bounded sink, the loader | `Bmp`, `BmpBytes` |
| Publishing releases: version order, index merge, the protocol as atomic steps, its invariant, what holds along runs and what runs achieve | `Versions`, `MergePackages`, `Release`, `ReleaseProtocol`, `ReleaseSafety`, `ReleaseRuns`, `ReleaseProgress` |
| I2S double buffering under interrupts | `DoubleBuffer`, `I2S` |
| Single-producer single-consumer ring | `RingBuffer` |
| NOR flash read-modify-write | `Flash` |
| Streaming search, integer text and parsing, random numbers | `StreamSearch`, `IntegerText`, `Random` |
| The String class: small buffer, aliasing, failing allocations, growth | `WString` |
| IP address text: parsing, canonical text, and what any text denotes | `IPAddress`, `IPAddressNotation` |
| Shared by several parts: array copies, optional values, quotients, splitting texts | `Arrays`, `Wrappers`, `Arithmetic`, `Texts` |

A `ghost` parameter of a method carries the bits or tokens that the input stands for; it is how a
decoder is proved against what was encoded, and it does not influence the result. A failing
allocation, another publisher and a crash are nondeterministic: the contracts hold whatever happens.

## Findings

- 256 JPEG codes of at most nine bits: the builder marks an empty fast entry with 255, which is also
  the number of the last symbol of such a table, so that symbol is never decoded. `JpegHuffman.Lookup`
  holds for exactly the other buffers, and `JpegHuffman.ShadowedExists` gives a table and a buffer.
- 24-bit BMP files with a gap between the headers and the pixels: the loader skips the gap twice.
  `Bmp.PixelsAtOffset` says that the pixels are read where the header says exactly without a gap, and
  `Bmp.GapExists` gives a file that is loaded from elsewhere. Files that the writer makes have no gap.
- The BMP sink refuses what does not fit, and nobody asks: `Bmp.Save` shows that the file is complete
  exactly when the padding of all rows is at most 458 bytes, and `Bmp.OverfullExists` gives an image
  whose padding is more.
- A random number below a bound of more than 2^32 is never 2^32 or more. `Random.EveryResult` says that
  every number below a positive bound can come exactly when the bound is at most 2^32.

## Model

| member | source | states |
|---|---|---|
| JpegRoundTrip.RoundTrip | libraries/Image/src/jpege.c:775-949 | for every sequence of codable blocks, in any of three components: if the output buffer did not run full, decoding the emitted bytes gives every coefficient times its factor, as a short, or some block has a DC value or DC product outside a short |
| JpegRoundTrip.MisfitIs | libraries/Image/src/stb_image.h:1076-1081 | for factors that a file can hold, the decoder's overflow guard rejects only a DC value or product that is not a short |
| JpegRoundTrip.ToShortIs | libraries/Image/src/stb_image.h:2228-2258 | the short left of a product is the only short that differs from it by a multiple of 2^16 |
| JpegRoundTrip.OwnTablesOk | libraries/Image/src/jpege.c:536-731 | the four compiled-in code tables are the canonical codes of the lists written into the file, and cover every symbol the encoder can need |
| JpegScan.EncodeScan | libraries/Image/src/jpege.c:896-949 | what is written is a stuffed byte string whose bits start with the scan code of the blocks, then the end marker; holds whenever the overflow mark is clear, which is set only within 257 bytes of the end of the buffer |
| JpegScan.DecodeScan | libraries/Image/src/stb_image.h:2208-2261 | from a stream that starts with the scan code of the blocks, every block comes out dequantised and in row-major place, or some DC product does not fit |
| JpegScan.Scatter | libraries/Image/src/jpege.c:896-904 | coefficients are permuted by the zigzag order and the position returned is the last nonzero one |
| JpegScan.OwnOrders | libraries/Image/src/jpege.c:497-506 | the encoder's zigzag table and the decoder's dezigzag table undo each other |
| JpegFormat.ZigzagWalks | libraries/Image/src/jpege.c:497-506 | the zigzag table is the walk along the diagonals of figure A.6 of T.81, the odd ones downwards and the even ones upwards |
| JpegEncoder.JpegBuf.WriteBits | libraries/Image/src/jpege.c:775-789 | the codes written so far, flattened to bits, are always the bytes before stuffing followed by the pending bits of the accumulator |
| JpegEncoder.JpegBuf.WriteBlock | libraries/Image/src/jpege.c:906-949 | one block appends its DC code, its runs and values, and an end of block unless position 63 is nonzero; or writes nothing and leaves the overflow mark |
| JpegEncoder.BlockCode | libraries/Image/src/jpege.c:911-948 | the bits of the codes of a block are its T.81 block code: sixteen-zero runs, run and size symbols, magnitudes, end of block |
| JpegEncoder.CalcBits | libraries/Image/src/jpege.c:791-799 | size and bits are those of section F.1.2.1: the low bits of the value, or of the value minus one when negative |
| JpegFormat.ExtendMagnitude | libraries/Image/src/stb_image.h:2151-2164 | sign extension of the bits sent for a value gives the value back |
| JpegHuffman.BuildHuffman | libraries/Image/src/stb_image.h:2001-2046 | building succeeds exactly for counts of at most 256 codes where no length runs out of codes, and the tables then hold the canonical code |
| JpegHuffman.Lookup | libraries/Image/src/stb_image.h:2095-2139 | the decoded symbol is the only one whose code the valid bits start with, and decoding fails exactly when there is none; false only for shadowed buffers, which are never decoded as their symbol |
| JpegHuffman.ShadowedExists | libraries/Image/src/stb_image.h:2031-2046 | a table that the builder accepts and a buffer that is its last code, yet is shadowed |
| JpegDecoder.FastAcDecodes | libraries/Image/src/stb_image.h:2048-2071 | every nonzero combined entry is what Huffman decoding and then receiving and extending the value bits give |
| JpegDecoder.Jpeg.GrowBuffer | libraries/Image/src/stb_image.h:2073-2093 | refilling loses no promised bit, whatever mixture of data, stuffed and fill bytes comes |
| JpegDecoder.Jpeg.DecodeBlock | libraries/Image/src/stb_image.h:2208-2261 | a stream that starts with a block's code is decoded to the dequantised block, the stream moves past the code and the prediction moves on; fails exactly on the DC product guard |
| Canonical.PrefixFree | libraries/Image/src/stb_image.h:2008-2029 | no buffer starts with two code words |
| Canonical.SlowLookup | libraries/Image/src/stb_image.h:2118-2139 | the first length whose bound exceeds the top 16 bits is the length of the only matching code, and the delta gives its place |
| Canonical.Covered | libraries/Image/src/stb_image.h:2014-2029 | every number below the end of the code is covered by the interval of some code word |
| ZRoundTrip.RoundTrip | libraries/Image/src/stb_image_write.h:895-1022 | for every non-empty data and every quality the inflater accepts the compressed stream and gives the data back |
| ZCompress.Compress | libraries/Image/src/stb_image_write.h:895-1022 | the stream is two header bytes, a body that stands for the data, and the checksum in closed form, and is never longer than stored blocks would be |
| ZCompress.CompressFixed | libraries/Image/src/stb_image_write.h:913-978 | the block of tokens written expands to the data, through lazy matching and halved hash lists |
| ZCompress.FindBest | libraries/Image/src/stb_image_write.h:924-933 | the match taken is the last of the longest ones of at least three bytes within the window |
| ZCompress.MatchStands | libraries/Image/src/stb_image_write.h:957-966 | a match within the window, copied byte by byte, reproduces the bytes even when it overlaps itself |
| ZCompress.MatchLengthIs | libraries/Image/src/stb_image_write.h:859-865 | a match is as long as the bytes agree, at most 258 |
| ZInflate.Zbuf.ParseZlib | libraries/Image/src/stb_image.h:4460-4486 | every stream of that form is inflated to what its body stands for |
| ZInflate.Zbuf.ParseHuffmanBlock | libraries/Image/src/stb_image.h:4295-4349 | a block of tokens is decoded to its expansion; the end-of-data check cannot fire because at least 32 bits follow |
| ZInflate.Zbuf.ParseUncompressedBlock | libraries/Image/src/stb_image.h:4388-4415 | a stored block is taken exactly when the length agrees with its complement and that many bytes are left, and its bytes are appended |
| ZInflate.Zbuf.FillBits | libraries/Image/src/stb_image.h:4199-4209 | nothing already promised is lost; zeros are made up behind the end |
| ZInflate.Zbuf.ZhuffmanDecode | libraries/Image/src/stb_image.h:4240-4257 | decodes the symbol whose code word comes next |
| ZHuffman.ZBuildHuffman | libraries/Image/src/stb_image.h:4122-4178 | building succeeds exactly when no length runs out of codes |
| ZHuffman.ZLookup | libraries/Image/src/stb_image.h:4221-4257 | fast table and slow search find the one symbol whose code the buffer starts with, and fail exactly when there is none |
| ZHuffman.OneCoded | libraries/Image/src/stb_image.h:4122-4178 | no buffer starts with the codes of two symbols |
| ZFormat.FixedWord | libraries/Image/src/stb_image_write.h:884-889 | the compressor's fixed codes are the canonical code of the fixed lengths of section 3.2.6 of RFC 1951 |
| Adler.AddRun | libraries/Image/src/stb_image_write.h:1003-1012 | sums over a run of at most 5552 bytes, reduced afterwards, are the Adler-32 sums and do not overflow 32 bits |
| Adler.SumsAre | libraries/Image/src/stb_image_write.h:1003-1014 | the sums are those of section 2.2 of RFC 1950 in closed form: one plus the sum of all bytes, and the number of bytes plus the sum of each byte times its distance from the end, modulo 65521 |
| Adler.KnownChecksums | libraries/Image/src/stb_image_write.h:1003-1022 | the checksum of nothing, of one byte and of three bytes, the second sum first and high bytes first |
| Adler.RunFits | libraries/Image/src/stb_image_write.h:1004-1010 | 5552 is the longest run that cannot overflow |
| ReleaseRuns.LiveEntriesBacked | tools/release.py:264-386 | after every run of any publishers, interleaved and stopped anywhere, each own entry of a live index names a published release holding the advertised archive |
| ReleaseRuns.NamedStays | tools/release.py:237-261 | no step deletes, unpublishes or changes the archive of a release, or deletes a tag, that a live index names |
| ReleaseRuns.NeverBackwards | tools/release.py:300-310 | along every run the newest live snapshot never goes backwards |
| ReleaseRuns.NothingLost | tools/release.py:287-312 | along every run each advertised version stays with its checksum, unless it is a snapshot with a newer one listed |
| ReleaseRuns.StepKeeps | tools/release.py:264-386 | every step of every publisher keeps the invariant of the protocol |
| ReleaseProgress.UpdateLists | tools/release.py:300-312 | an update that moves the head lists the build with its bytes and address in the live development index, and in the live stable index unless it is a prerelease, when that index stays as it was |
| ReleaseProgress.Publishes | tools/release.py:264-386 | from every reachable state without a conflict, a newer snapshot or other bytes in its release, a publisher that nobody disturbs has a run that ends with the release public, with its tag, archive and classification, and the build listed in the live indexes |
| ReleaseProgress.PublishesSnapshot | tools/release.py:237-261 | for a snapshot the run goes on until no release and no tag is left of an older snapshot that the live indexes do not name and no full release has |
| ReleaseSafety.PruneSafe | tools/release.py:237-261 | what a publisher prunes is not named by the indexes live at that moment, even if others have published since it read them |
| ReleaseSafety.CommitKeeps | tools/release.py:179-199 | moving the head by compare-and-swap keeps the invariant |
| ReleaseSafety.NewestSeen | tools/release.py:302-310 | a snapshot that is not skipped is the newest of its merged index |
| Release.DownloadTagOfUrl | tools/release.py:213-216 | the tag read from a download address is the one it was made from |
| Release.RetainLatestDev | tools/release.py:219-234 | only superseded snapshots of the own package and architecture are dropped; the newest tag is returned |
| Release.RetainedLists | tools/release.py:219-234 | exactly which platforms are listed after dropping |
| Release.RetainedIs | tools/release.py:219-234 | exactly the snapshots of this package and architecture are dropped of which a later one is listed |
| Release.DevTagIs | tools/release.py:24-24 | snapshot tags are dev, fourteen digits and twelve lower-case hexadecimal digits, with hyphens between |
| Release.NewDevKeeps | tools/release.py:300-301 | the new development index keeps every advertised version and checksum except older snapshots |
| Release.NewStableKeeps | tools/release.py:311-312 | the new stable index keeps every advertised version and checksum |
| MergePackages.MergeIndexes | tools/merge_packages.py:18-36 | the merge of any number of indexes; it fails exactly when some version does not parse |
| MergePackages.AllSortableIs | tools/merge_packages.py:34-35 | the merge fails exactly when the version of some platform merged has no key |
| MergePackages.CollectFirstWins | tools/merge_packages.py:20-33 | what earlier indexes list stays as it is, and later ones add only identities not there |
| MergePackages.CollectCovers | tools/merge_packages.py:20-33 | every identity of every index is listed |
| MergePackages.SortDescending | tools/merge_packages.py:34-35 | platforms come newest version first |
| MergePackages.SortStable | tools/merge_packages.py:34-35 | platforms of equal rank keep their order |
| MergePackages.FirstIndexWins | tools/merge_packages.py:20-33 | all that the first index lists stays, and what comes from the others differs from it in architecture or version |
| MergePackages.MergedCovers | tools/merge_packages.py:18-36 | every architecture and version that some index lists is listed, and nothing that none lists |
| MergePackages.MergedSorted | tools/merge_packages.py:34-36 | in the merge each name comes once, and no platform is below a later one in SemVer's order |
| MergePackages.ToolsMerged | tools/merge_packages.py:26-33 | tools are merged by name and version, those there first winning |
| Versions.CompareIs | tools/merge_packages.py:9-15 | one key is below another exactly as section 11 of SemVer 2.0.0 says: by the first number that differs, a prerelease below its release, then by the first identifier that differs |
| Versions.KeyReads | tools/merge_packages.py:9-15 | the key of numbers joined by dots, with or without a leading v, identifiers behind a hyphen and a build behind a plus, is those numbers and identifiers |
| Versions.KeyFails | tools/merge_packages.py:13-13 | a version has no key exactly when some part between its dots is no number |
| Versions.IntegerIs | tools/merge_packages.py:13-13 | what stands for a number is groups of digits with single underscores between them and blanks around them, and nothing else |
| Versions.CompareTotal | tools/merge_packages.py:9-15 | version order is total, and equal only for equal keys (section 11 of SemVer 2.0.0) |
| Versions.BaseUnsigned | tools/merge_packages.py:11-13 | a number of a version never has a sign, so only spaces and underscores make `int` accept more than digits |
| Versions.CompareTransitive | tools/merge_packages.py:9-15 | version order is transitive |
| Flash.WriteData | cores/k210/k210-hal/k210-hal-flash.c:383-433 | from an idle chip, whose size 24 address bits can name: the range holds the data, nothing else has changed, exactly the sectors where a bit had to be set were erased, and the chip refused no command |
| Flash.WriteChunk | cores/k210/k210-hal/k210-hal-flash.c:396-429 | the same for a chunk within one sector |
| Flash.PrepareSector | cores/k210/k210-hal/k210-hal-flash.c:400-414 | the sector is erased exactly when some bit must go from zero to one |
| Flash.SectorProgram | cores/k210/k210-hal/k210-hal-flash.c:369-381 | programming sixteen pages and-s the whole sector with the buffer |
| Flash.SectorWritten | cores/k210/k210-hal/k210-hal-flash.c:400-426 | and-ing the old contents with the data in place over a sector that was erased, or needed none, leaves the data in place |
| Flash.PageIsRange | cores/k210/k210-hal/k210-hal-flash.c:337-350 | programming a whole page from its boundary does not wrap |
| Flash.MustEraseNext | cores/k210/k210-hal/k210-hal-flash.c:394-430 | one chunk leaves what the later chunks must erase as it was |
| Flash.MustEraseIs | cores/k210/k210-hal/k210-hal-flash.c:394-430 | the sectors erased are exactly those in which the data has a one where the memory has a zero |
| Flash.MustEraseAscends | cores/k210/k210-hal/k210-hal-flash.c:394-430 | each of them once, from the lowest to the highest |
| I2S.I2SClass.Run | libraries/I2S/src/I2S.cpp:84-258 | any sequence of writes, reads, sample reads with interrupts inside, peeks, both questions how much fits, flushes and completion interrupts: bytes given, with exactly the padding that fills the last word at each flush, are those handed to DMA then those waiting; bytes from DMA are those read, then unread, then a completed slot |
| I2S.I2SClass.Begin | libraries/I2S/src/I2S.cpp:34-58 | succeeds exactly when the configuration is valid, the device is free and memory and a channel are there; a failed start leaves nothing owned |
| I2S.I2SClass.Select | libraries/I2S/src/I2S.cpp:59-83 | a session has one direction, claimed by its first use |
| I2S.I2SClass.Service | libraries/I2S/src/I2S.cpp:84-116 | when sending, hands over the slot only if DMA is idle and it holds whole words; when receiving, never takes the slot over unread bytes |
| I2S.I2SClass.Write | libraries/I2S/src/I2S.cpp:170-180 | accepts as many bytes as fit, in order, never touches the slot that DMA is using, and leaves DMA idle only without whole words |
| I2S.I2SClass.Pad | libraries/I2S/src/I2S.cpp:205-208 | padding fills up the last word and always fits |
| I2S.I2SClass.FlushTurn | libraries/I2S/src/I2S.cpp:202-212 | adds exactly the padding and reports done exactly when everything accepted was handed over and DMA is idle |
| I2S.I2SClass.Flush | libraries/I2S/src/I2S.cpp:193-221 | for both outcomes the bytes accepted are those before and the padding; success means all were sent, and an error that DMA is busy |
| I2S.I2SClass.End | libraries/I2S/src/I2S.cpp:222-246 | the same padding, and the device is given up |
| I2S.I2SClass.Read | libraries/I2S/src/I2S.cpp:132-143 | gives the next bytes delivered, as many as are unread or in a completed slot behind none, and leaves DMA idle only if unread bytes keep it so |
| I2S.I2SClass.ReadSample | libraries/I2S/src/I2S.cpp:144-153 | a sample that was available is still there after any completion interrupts, of which only the first finds DMA busy, so the second error return cannot be reached |
| I2S.I2SClass.PeekSample | libraries/I2S/src/I2S.cpp:154-165 | shows the next sample and takes nothing |
| I2S.I2SClass.TransferComplete | libraries/I2S/src/I2S.cpp:252-258 | an interrupt never changes or removes unread bytes, and starts the next transfer exactly when whole words wait or nothing is unread |
| DoubleBuffer.I2SDoubleBuffer.SetSize | libraries/I2S/src/I2SDoubleBuffer.cpp:9-13 | a slot is a whole number of words, fixed once storage exists |
| DoubleBuffer.I2SDoubleBuffer.Write | libraries/I2S/src/I2SDoubleBuffer.cpp:36-46 | appends what fits; the other slot keeps its bytes |
| DoubleBuffer.I2SDoubleBuffer.Swap | libraries/I2S/src/I2SDoubleBuffer.cpp:67-74 | the slots change roles: unread bytes become the front of the DMA slot and its first bytes become unread |
| RingBuffer.IsQueue | cores/k210/RingBuffer.h:15-47 | in every interleaving of single memory accesses the bytes consumed are a prefix of those accepted, the count is their difference and within 0..N; told empty means all consumed, told full means N between |
| RingBuffer.UnreadSafe | cores/k210/RingBuffer.h:15-22 | storing never overwrites an unread slot |
| RingBuffer.NextKeeps | cores/k210/RingBuffer.h:15-31 | every single access keeps the invariant |
| RingBuffer.Stores | cores/k210/RingBuffer.h:15-22 | whatever has happened before, a producer that finds room has its byte accepted |
| RingBuffer.Consumes | cores/k210/RingBuffer.h:23-31 | whatever has happened before, a consumer that finds a byte takes the oldest |
| RingBuffer.RingBufferN.StoreChar | cores/k210/RingBuffer.h:15-22 | appends, or drops the byte when full |
| RingBuffer.RingBufferN.ReadChar | cores/k210/RingBuffer.h:23-31 | takes the oldest byte, or -1 when empty |
| StreamSearch.FindMulti | cores/k210/Stream.cpp:151-179 | consumes the shortest input that ends with some pattern and returns the least such pattern; -1 only if none occurs; an empty or null pattern decides at once |
| StreamSearch.FindUntil | cores/k210/Stream.cpp:144-150 | true exactly when the pattern ends the input consumed, which has neither pattern nor stop earlier |
| StreamSearch.Advance | cores/k210/Stream.cpp:166-173 | keeps the longest prefix that the consumed text ends with |
| StreamSearch.LongestBorder | cores/k210/Stream.cpp:167-170 | the border found is the longest shorter one |
| Random.Unbiased | cores/k210/Common.cpp:14-33 | for any modulus, every result comes from exactly the quotient many accepted draws |
| Random.RejectedCount | cores/k210/Common.cpp:20-26 | exactly the remainder many draws are rejected |
| Random.EveryResult | cores/k210/Common.cpp:14-33 | every number below a positive bound comes from some draw exactly when the bound is at most 2^32; otherwise 2^32 never comes |
| Random.ProductFits | cores/k210/Common.cpp:17-32 | up to 2^32 the source's 64-bit test and result are those that are counted, and the result is below the bound |
| Random.DrawnIs | cores/k210/Common.cpp:17-32 | for every bound the result is the high half of the product modulo 2^64 |
| Random.LimitAbove | cores/k210/Common.cpp:20-25 | above 2^32 the limit is the number below 2^32 that makes the bound a multiple of 2^32 |
| Random.Random | cores/k210/Common.cpp:14-33 | for every `long` bound: the result of the first draw that is not rejected, though the threshold is computed only when it may matter; below the bound when that is positive |
| Random.RandomBetween | cores/k210/Common.cpp:35-42 | the same shifted, with every earlier draw rejected; small itself for an empty range |
| Random.ComputeThreshold | cores/k210/Common.cpp:20-25 | negation, two subtractions and a remainder give the rejection threshold, for every positive bound |
| IntegerText.WriteInteger | cores/k210/k210_format.h:12-35 | writes the text with its terminator, within 66 bytes |
| IntegerText.TextDenotes | cores/k210/k210_format.h:21-27 | in every radix the text denotes the number |
| IntegerText.TextCanonical | cores/k210/k210_format.h:21-27 | no leading zero, and only digits of the radix |
| IntegerText.TextPlaces | cores/k210/k210_format.h:21-27 | each character is the digit that the number has at that place, from a table of 36 |
| IntegerText.WrittenDenotes | cores/k210/k210_format.h:12-35 | what is written denotes the value with its sign in decimal, and modulo the size of its type in any other radix |
| IntegerText.Stream.ParseInt | cores/k210/Stream.cpp:43-64 | the mathematical value of the digits consumed, clamped to the range of a long, and how much was consumed |
| IntegerText.NumberFound | cores/k210/Stream.cpp:34-64 | behind characters that the mode lets pass, given by their codes, a number gives the place value of its digits, clamped, whatever ignored characters stand between them, and is consumed up to the first other character |
| IntegerText.NoNumber | cores/k210/Stream.cpp:34-46 | where no number follows what the mode lets pass, the value is 0 and just that is consumed |
| IntegerText.NumberIs | cores/k210/Stream.cpp:52-60 | ignored characters do not count, and the digits count by their places |
| IntegerText.Saturate | cores/k210/Stream.cpp:54-57 | the overflow test is exact at every digit |
| IntegerText.LongRoundTrip | cores/k210/Stream.cpp:43-64 | every long, the least one included, is parsed back from its decimal text |
| WString.Run | cores/k210/WString.cpp:110-403 | any sequence of assign, concat, append, remove, replace, copy and move on two strings, arguments in either or in the own storage, allocations failing anywhere: storage stays sound and apart, and text, validity and capacity go through what the operations say about byte sequences, where only what does not fit may fail |
| WString.AppendChunks | cores/k210/WString.cpp:110-207 | from an empty string, growing has copied at most twice the bytes of the text; so n one-byte appends cost at most 2n |
| WString.GrowthPaid | cores/k210/WString.cpp:110-129 | each growth keeps what has been copied within twice the text, also onto the clamp of the capacity |
| WString.String.Reserve | cores/k210/WString.cpp:110-129 | room for the count, text unchanged, capacity at least doubled up to the clamp |
| WString.String.Assign | cores/k210/WString.cpp:130-150 | the text becomes what the pointer meant before the call, or the string is empty and invalid |
| WString.String.Concat | cores/k210/WString.cpp:192-207 | appends what the pointer meant before the call, or changes nothing; cannot fail when it fits |
| WString.String.Take | cores/k210/WString.cpp:151-167 | the heap block changes hands or the local buffer is copied; the other string is left empty and valid |
| WString.String.Move | cores/k210/WString.cpp:174-182 | move assignment, harmless on itself |
| WString.String.Replace | cores/k210/WString.cpp:379-394 | the text is the replaced one or everything is as before; what fits the local buffer cannot fail |
| WString.ReplacesLeftmost | cores/k210/WString.cpp:379-394 | the replaced text goes from one leftmost occurrence to the next |
| WString.ReplacesNothing | cores/k210/WString.cpp:379-394 | without an occurrence the text stays |
| WString.String.Remove | cores/k210/WString.cpp:395-403 | the bytes before and behind the cut remain, with the terminator |
| WString.RemovedIs | cores/k210/WString.cpp:395-403 | where each byte that stays comes from |
| WString.String.IndexOf | cores/k210/WString.cpp:332-340 | the least occurrence from start on, -1 exactly when there is none |
| WString.String.LastIndexOf | cores/k210/WString.cpp:352-362 | the greatest occurrence up to start, -1 exactly when there is none |
| IPAddress.RoundTrip | cores/k210/IPAddress.cpp:112-225 | the canonical text of every IPv4 and IPv6 address is parsed back to that address, and fits 48 bytes |
| IPAddress.IPAddress.PrintTo | cores/k210/IPAddress.cpp:189-225 | prints canonical text that is parsed back to the address |
| IPAddress.CanonicalForm | cores/k210/IPAddress.cpp:196-224 | printed IPv6 text is lower case, at most 39 characters, and has a double colon exactly when two words in a row are zero (section 4 of RFC 5952) |
| IPAddress.FindBest | cores/k210/IPAddress.cpp:196-210 | the run shortened is the first longest of at least two zero words |
| IPAddress.OneCanonical | cores/k210/IPAddress.cpp:189-225 | an address has only one canonical text |
| IPAddress.HexText | cores/k210/IPAddress.cpp:220-220 | hexadecimal words have no leading zero, no upper case, and denote the number |
| IPAddress.PrintWords | cores/k210/IPAddress.cpp:196-224 | the print loop builds the canonical text within its buffer |
| IPAddress.IPAddress.FromString | cores/k210/IPAddress.cpp:112-188 | succeeds exactly on parsable text, with the bytes in network order, and leaves the address alone otherwise |
| IPAddressNotation.TextDenotes | cores/k210/IPAddress.cpp:112-188 | a text is parsed to an address exactly when it is a notation of it: eight groups of one to four hexadecimal digits of either case, or fewer with one double colon for zeros, the last two perhaps four octets; or four octets alone |
| IPAddressNotation.CaseSame | cores/k210/IPAddress.cpp:32-41 | the letters A to F in lower case leave what any text denotes as it is |
| IPAddressNotation.ZeroSame | cores/k210/IPAddress.cpp:141-149 | a leading zero does not change what a group denotes |
| IPAddressNotation.QuadSame | cores/k210/IPAddress.cpp:150-158 | four octets at the end denote what two groups in hexadecimal do |
| IPAddress.ParseV4 | cores/k210/IPAddress.cpp:11-31 | four octets of one to three digits, at most 255, and nothing behind them |
| IPAddress.ReadGroup | cores/k210/IPAddress.cpp:138-171 | one turn over the groups does what the grammar of groups and separators says |
| IPAddress.FillHole | cores/k210/IPAddress.cpp:174-180 | the words behind the hole move to the end and zeros fill it |
| IPAddress.ParsedIsAddress | cores/k210/IPAddress.cpp:112-188 | whatever is parsed is an address |
| IPAddress.IPAddress.Equals | cores/k210/IPAddress.cpp:96-99 | comparing all sixteen bytes compares the addresses |
| Bmp.RoundTrip | libraries/Image/src/Image.cpp:2468-2525 | an image within the loader's limits whose row padding fits the sink is loaded back with its size and every pixel |
| Bmp.Save | libraries/Image/src/Image.cpp:2495-2529 | the bytes collected are the whole file exactly when the padding of all rows is at most 458 bytes |
| Bmp.Sink.Write | libraries/Image/src/Image.cpp:2468-2493 | while everything offered fits, everything is there in order |
| Bmp.Writer.Write3 | libraries/Image/src/stb_image_write.h:406-416 | three bytes join the stream through the 64-byte buffer |
| Bmp.Writer.WritePixels | libraries/Image/src/stb_image_write.h:451-475 | rows go out bottom-up, colours swapped, each padded |
| Bmp.Load | libraries/Image/src/stb_image.h:5447-5731 | accepts exactly the files that the headers and limits allow, and every row of the picture is the right row of the file, colours swapped back |
| Bmp.Flip | libraries/Image/src/stb_image.h:5711-5721 | row k becomes row h - 1 - k, in place |
| Bmp.RowInFile | libraries/Image/src/stb_image_write.h:467-475 | where each row of the image is in the file |
| BmpBytes.ByteInFile | libraries/Image/src/stb_image_write.h:451-500 | where every byte of the image and of the padding is in the file: rows bottom-up in whole words behind 54 header bytes, blue before green before red |
| BmpBytes.HeaderIs | libraries/Image/src/stb_image_write.h:487-500 | the 54 header bytes, low bytes first |
| BmpBytes.SizesValidIs | libraries/Image/src/stb_image.h:1012-1033 | the size check admits exactly pixels of less than two gigabytes |
| Bmp.GapExists | libraries/Image/src/stb_image.h:5563-5657 | a file with two bytes between header and pixels that is loaded, from two bytes too far |
| Bmp.OverfullExists | libraries/Image/src/Image.cpp:2468-2499 | an image, one pixel wide and 459 high, whose file does not fit the sink |
| Bmp.PixelsAtOffset | libraries/Image/src/stb_image.h:5563-5657 | pixels are read where the header says only when nothing is between header and pixels |

## Left out

- JPEG: the transform, quantisation and headers; the model starts from quantised integer blocks.
- JpegRoundTrip.RoundTrip: claims nothing when the overflow mark is set; the source can also return before the scan's end or drop the last marker on a nearly full buffer, and stops at the next row of blocks, which is not modelled.
- JPEG decoding: progressive scans, restart markers and the inverse transform.
- ZRoundTrip.RoundTrip: empty data, for which the stored fallback would write no block; data so long that an `int` size overflows; failed allocations.
- DEFLATE: dynamic Huffman blocks, and growing the inflater's output buffer.
- ZHuffman: the mask-and-shift steps of the 16-bit reversal; reversal is defined by bits.
- Bmp.Load: palettes, 16- and 32-bit pixels and other header sizes are told apart but not decoded.
- Bmp.Save: a size beyond the range of an `int`; reading and writing the file itself, and the loader's refusal of files under 256 bytes.
- Release: the network, JSON, archives and checksums themselves; a page of the release list may hold any releases; index files attached to releases; assets without a digest; Unicode digits and spaces that Python's `int`, `isdigit` and regular expressions accept, and its limit of 4300 digits; choosing version and channel from the event.
- ReleaseProtocol.Perform: at most one publisher works on a tag at a time, as the workflow's concurrency group arranges.
- Flash: SPI transfers in quad or standard mode, and erasing through `hal_flash_erase`, which does not wait for the chip between commands.
- I2S: pin, clock and DMA channel setup, callbacks, and null pointers; time limits are a number of turns.
- I2S.I2SClass.Flush: an interrupt between turns may or may not come, at most once in each.
- RingBuffer: weaker memory orders than sequential consistency, and `clear` beside a running thread.
- Random: the generator is a supply of draws.
- Random.RandomBetween: a range wider than the largest `long`, whose width overflows in the source.
- IntegerText: floating point parsing and printing; `char` values as integers.
- WString: pointers into the own storage past the terminator; comparison, case, trimming, substrings and numbers; indices that do not fit an `int`.
- IPAddress.IPAddress.FromString: a null pointer; writing bytes through an index out of range.
- Pin and timer allocators, UART, SPI, displays, camera, tone, file systems, HTTP, image resizing and the other image formats.
