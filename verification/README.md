# Wena, verified

A Dafny model of the computational core of Wena, a kanban server and desktop client written in C, and
of one of its Python scripts. Each module models one source file or one part of one; methods work
on arrays and fields where the source does, and are tied by their contracts to specifications that
are stated independently of them. `dafny verify dfyconfig.toml` checks everything.

## What is proved

- **Image decoding** (`models/image_decode.c`). The format's encoder is written as a specification and
  the decoder proved to invert it: DEFLATE (`BitReader`, `CanonicalCode`, `Huffman`, `Deflate`,
  `InflateSpec`, `Inflate`), GIF's LZW and row order (`LzwSpec`, `GifLzw`, `GifRows`), PNG's filters and
  Adam7 and packed samples (`PngFilter`, `Interlace`, `PngSamples`), JPEG's entropy coding (`JpegBits`, `JpegHuffman`, `Zigzag`,
  `JpegBlock`). For DEFLATE the converse is proved too: what inflates was written by some encoder. The
  numbers of each format are stated by themselves, and `DeflateExample`, `LzwExample` and `JpegExample`
  work real data through.
- **Fast forms against simple ones** (`models/charts.c`, `models/view_rows.c`): dates and ISO weeks
  (`Calendar`), the merge sort and the orders it is used with (`MergeSort`, `NaturalOrder`,
  `TableOrder`), the board as it was (`Timeline`), the replay of blocking edges (`BlockingEdges`,
  `BlockerReplay`), and the rectangles of a picture (`Rectangles`, for `scripts/png_to_svg.py`).
- **Text and wire formats**: UTF-8 in its three decoders (`Utf8`), trimming and lists of titles
  (`Trimming`, `TitleLists`), region responses (`Decimal`, `RegionWire`, `RegionResponse`), HTTP requests
  out of a growing buffer (`HttpRequests`, `HttpParser`), and the hash of a stream (`Sha256`).
- **The mutation pipeline** as one state machine (`FormValues`, `Security`, `MemoryStore`,
  `MutationServer`): single-use form tokens, a monotone dispatcher and a store with replay keys. The
  predicate `Server.Valid` holds initially and is kept by every step, so what it says holds over every
  run: distinct issues for distinct applied mutations, increasing versions, distinct card ids.
- **Card order** (`CardOrder`): snapshots of a column and the insertion of a block.

## Where the code is not what one might expect

- *The list of blocking episodes may be too short.* Its room is the edges at the start and four for
  every change and sixteen, and one change may bring more. `BlockerReplay.BlockerAnalysis` lists every
  episode exactly when the changes bring no more than that, and `BlockerReplay.ShortList` is a history
  that loses one.
- *The board as it was lacks cards that are archived or deleted now*, whatever they were then:
  `Timelines.ShownExactly` and `Timelines.ArchivedSinceIsAbsent`.
- *GIF minimum code sizes above 8.* The decoder accepts 9, 10 and 11 but stores indices in bytes.
  `LzwSpec.BytesAreExact` says exactly when the image comes back, and `LzwSpec.WideIndexIsCut` is one
  that does not.
- *NUL bytes behind an HTTP request.* They spoil a request that arrived together with them, but not
  one that was complete before. `HttpParsing.CuttingsAgreeExactly` says exactly when the pieces do not
  matter, and `HttpParsing.NulDependsOnCutting` is a stream for which they do.
- *Hashing 2^32 bytes or more in one update.* The byte counter loses multiples of 2^32.
  `Sha256Stream.OneShotLength` says exactly when the length is right, and `Sha256Stream.LengthLost`
  names the shortest message for which it is not.
- *Over-subscribed dynamic DEFLATE blocks.* The result of building the tables is not acted on, and a
  table that could not be built is read unfilled. The specification calls such blocks undefined, which
  `InflateSpec.UndefinedExactly` characterises and `InflateSpec.UndefinedStream` exemplifies, and the
  decoder is proved for all others.
- *Numbers on the wire* may have leading zeros, so an accepted response may be longer than its own
  encoding (`RegionWire.EncodeOfParse`).
- *A form token that is tried with the wrong session, route or operation* is used up all the same
  (`Security.SecurityStore.CsrfConsume`).

## Model

| member | source | states |
|---|---|---|
| BitReaders.BitReader.Take | models/image_decode.c:16-28 | The value is that of the next `need` bits of the stream, least significant first, and exactly those bits are gone; with too few bits left the error is set, the value is 0 and nothing is lost. |
| BitReaders.BitReader.AlignToByte | models/image_decode.c:117-118 | Dropping the buffer of a stored block drops exactly the odd bits before the next whole byte, because the reader never holds a whole byte between calls. |
| BitReaders.LoadByte | models/image_decode.c:21-22 | Or-ing a byte above the held bits leaves the stream of remaining bits as it was. |
| BitReaders.Split | models/image_decode.c:24-26 | Mask and shift split the held bits into the value read and the bits still held. |
| CanonicalCodes.PrefixFree | models/image_decode.c:50-65 | At most one canonical code begins any bit string, whatever the counts. |
| CanonicalCodes.ScanStep | models/image_decode.c:53-63 | One round of the scan by length: either the code of that length begins the bits, or all shorter codes still lie below them. |
| HuffmanTables.SymbolPrefixFree | models/image_decode.c:36-48 | For code lengths that are not over-subscribed no bit string begins with the codes of two symbols (section 3.2.2 of RFC 1951). |
| HuffmanTables.NextSymbolOfCode | models/image_decode.c:50-65 | Decoding a symbol's code gives that symbol after exactly its length in bits, whatever follows. |
| HuffmanTables.CodeOfNextSymbol | models/image_decode.c:50-65 | What is decoded was encoded: the bits are the code of the symbol followed by what is left. |
| HuffmanTables.Huffman.Build | models/image_decode.c:36-48 | Succeeds exactly when the lengths satisfy the Kraft inequality, and then the two arrays stand for their canonical code; the counts are filled even on failure. |
| HuffmanTables.Huffman.Decode | models/image_decode.c:50-65 | Over tables that stand for some lengths the count/first/index scan returns the one symbol whose code begins the remaining bits and consumes that code, or -1 when no code begins them or the bits run out. |
| DeflateFormat.CopyIsPeriodic | models/image_decode.c:95 | A back-reference that overlaps its own output repeats its last `distance` bytes. |
| DeflateFormat.EveryMatchHasAToken | models/image_decode.c:67-74 | Every length from 3 to 258 at every distance from 1 to 32768 has a symbol and extra bits in the two tables. |
| DeflateFormat.LengthsOfRfc | models/image_decode.c:67-70 | The bases and extra bits of the 29 length classes, number by number. |
| DeflateFormat.DistancesOfRfc | models/image_decode.c:71-74 | Each distance class begins where the one before ends, from the distance 1 up to 32768, by its extra bits. |
| DeflateFormat.BlockTypes | models/image_decode.c:111-114 | How the three types of block begin, bit by bit. |
| DeflateFormat.ExpandOpsGrows | models/image_decode.c:152-162 | Every run-length operation of a dynamic header adds at least one code length. |
| InflateSpec.BlockRoundTrip | models/image_decode.c:76-98 | Inflating the symbols of a compressed block, in any valid pair of codes, gives the LZ77 expansion of its literals and back-references when that fits, and stops at the end-of-block symbol. |
| InflateSpec.HeaderRoundTrip | models/image_decode.c:143-162 | A dynamic header, however its code lengths are run-length coded, gives back the two codes it was written for, unless one of them is over-subscribed. |
| InflateSpec.LengthsInOrder | models/image_decode.c:144-151 | The three-bit lengths of the code-length code go to the symbols 16, 17, 18, 0, 8, 7, 9, 6, 10, 5, 11, 4, 12, 3, 13, 2, 14, 1, 15 in turn, and those not sent are zero. |
| InflateSpec.HeaderCounts | models/image_decode.c:147-148 | The three counts at the front of a dynamic block and their limits, and that a header beyond them is corrupt. |
| InflateSpec.StoredRoundTrip | models/image_decode.c:115-126 | A stored block, padded to a byte boundary, gives its bytes. |
| InflateSpec.FixedCodesValid | models/image_decode.c:131-139 | The fixed codes of section 3.2.6 of RFC 1951 are proper prefix codes. |
| InflateSpec.FixedCodesOfRfc | models/image_decode.c:127-139 | Each fixed code, as the table of section 3.2.6 of RFC 1951 writes it. |
| InflateSpec.BodyRoundTrip | models/image_decode.c:115-168 | A block of any of the three types gives what it stands for and leaves what follows it. |
| InflateSpec.StreamRoundTrip | models/image_decode.c:110-170 | Inflate inverts DEFLATE: for every list of blocks, in any mix of the three types, with any parse into tokens and any codes, the result is the expansion. |
| InflateSpec.StreamOfBits | models/image_decode.c:110-170 | The other direction: whatever bits inflate successfully are the bits of some valid list of blocks with that expansion. |
| InflateSpec.InflateExactly | models/image_decode.c:110-170 | Bits inflate to some bytes exactly when they begin with the writing of some blocks that expand to those bytes within the capacity. |
| InflateSpec.ZlibExactly | models/image_decode.c:100-172 | A zlib stream inflates to some bytes exactly when its two header bytes pass the test of the code (RFC 1950) and the bits behind them do so. |
| InflateSpec.UndefinedExactly | models/image_decode.c:163-166 | A dynamic header has no meaning exactly when it is well formed and one of its two codes is over-subscribed. |
| InflateSpec.UndefinedStream | models/image_decode.c:163-166 | A zlib stream of one dynamic block with 257 literal codes of one bit, for which the inflater promises nothing. |
| DeflateExample.DynamicExample | models/image_decode.c:100-172 | A real dynamic stream of 25 bytes, with every kind of run-length operation and a back-reference with extra bits, and the text it inflates to. |
| DeflateExample.FixedExample | models/image_decode.c:100-172 | Likewise a block in the fixed codes with an overlapping back-reference. |
| DeflateExample.StoredExample | models/image_decode.c:100-172 | Likewise a stored block. |
| Inflater.LengthTables | models/image_decode.c:67-70 | The two literal length tables are the ranges of section 3.2.5 of RFC 1951. |
| Inflater.DistanceTables | models/image_decode.c:71-74 | Likewise for the distance tables. |
| Inflater.OrderTable | models/image_decode.c:144 | The literal order of the code-length code is the order of the format, which `InflateSpec.LengthsInOrder` spells out. |
| Inflater.CopyBack | models/image_decode.c:95 | The byte-by-byte copy is the overlapping copy of the format. |
| Inflater.ReadMatch | models/image_decode.c:88-94 | The length and distance of a back-reference, or failure, as the format reads them. |
| Inflater.InflateBlock | models/image_decode.c:76-98 | In place, the block decoder appends what the specification appends and fails exactly when it does; it never writes past the capacity, and each round uses up bits. |
| Inflater.InflateStored | models/image_decode.c:115-126 | The stored branch does what the specification of a stored block does, the complement check included. |
| Inflater.Repeated | models/image_decode.c:161 | A repeat operation appends that many copies. |
| Inflater.ReadLengths | models/image_decode.c:152-162 | The loop over the code lengths reads what the specification reads, with the same failures. |
| Inflater.ReadCodeLengths | models/image_decode.c:149-151 | The code-length code is put back from the format's own order. |
| Inflater.InflateFixed | models/image_decode.c:127-142 | The fixed branch, with tables built from the fixed lengths. |
| Inflater.InflateDynamic | models/image_decode.c:143-167 | The dynamic branch does what the specification of a dynamic block does, whenever neither code of the block is over-subscribed; the output behind what it wrote keeps its contents. |
| Inflater.InflateZlib | models/image_decode.c:100-172 | The whole inflater: the number of bytes written and those bytes are what the specification gives, -1 exactly when it fails; on success the rest of the output keeps its contents. Nothing is promised for a stream with an over-subscribed code. |
| LzwSpec.DecodingInvertsEncoding | models/image_decode.c:719-760 | For every minimum code size and every conforming encoding of an image, with clear codes anywhere, decoding the code stream gives the indices back as bytes, as many as are asked for: code widths, codes not in the table yet and the full table of 4096 included. |
| LzwSpec.BytesAreExact | models/image_decode.c:709-717 | The image itself comes back exactly when its indices are bytes, which minimum code sizes 2 to 8 guarantee and 9 to 11 do not. |
| LzwSpec.WideIndexIsCut | models/image_decode.c:709-717 | An image of the index 256 at minimum code size 9, which decodes to 0. |
| LzwSpec.CodesRoundTrip | models/image_decode.c:719-760 | The same from any point after a clear code, with the decoder one table entry behind the encoder. |
| LzwSpec.LearnAgrees | models/image_decode.c:751-757 | The entry the decoder adds is the one the encoder already has. |
| LzwSpec.GreedyEncodes | models/image_decode.c:719-760 | The greedy encoder, which writes the longest known string each time, is a conforming encoder. |
| LzwSpec.EveryImageEncodes | models/image_decode.c:719-760 | So every image has a conforming encoding. |
| LzwSpec.PayloadOfFramed | models/image_decode.c:721-730 | However the code stream is cut into sub-blocks, the decoder reads all of it. |
| LzwSpec.CodeWidths | models/image_decode.c:719-757 | Codes are read in the fewest bits, up to twelve, that can hold every code of the table, which has at most 4096. |
| LzwExample.GifExample | models/image_decode.c:719-760 | A real code stream with a wider code and a code that completes itself, and the pixels it stands for. |
| GifLzw.CodeReader.Next | models/image_decode.c:720-734 | The next code over sub-block boundaries, or the end of the data. |
| GifLzw.Tables.Cleared | models/image_decode.c:735 | After a clear code the three arrays again stand for the initial table without being written. |
| GifLzw.Tables.Unwind | models/image_decode.c:749-750 | Following prefixes puts the string of a code on the stack, last byte first; every step goes to a smaller code, and the guard of 4096 never cuts a string short. |
| GifLzw.Tables.TextOnStack | models/image_decode.c:743-750 | The same for a code that is only about to be added. |
| GifLzw.Tables.AddEntry | models/image_decode.c:751-757 | The new table entry and the width that goes with it are those of the specification. |
| GifLzw.PopAll | models/image_decode.c:758 | The stack is emptied into the image in order, up to its last pixel. |
| GifLzw.LaterCode | models/image_decode.c:743-758 | One code: what is written, what is learnt and the next width. |
| GifLzw.NextIndices | models/image_decode.c:743-759 | One code in the run of the decoder: the output so far and the decoding of what remains are together what they were. |
| GifLzw.DecodeIndices | models/image_decode.c:713-760 | The decoding loop writes exactly the indices that the code stream in the sub-blocks stands for. |
| GifRows.AllRows | models/image_decode.c:763-768 | The four passes have all rows between them. |
| GifRows.RowOrderIsPermutation | models/image_decode.c:764-772 | The interlaced row order is a permutation of the rows, with the inverse given. |
| GifRows.RowsInterlaced | models/image_decode.c:763-772 | The interlaced order itself: every eighth row from 0, every eighth from 4, every fourth from 2 and every second from 1, each group from the top. |
| GifRows.IndexOfPixel | models/image_decode.c:773-781 | The colour index of a canvas pixel is that of its row's turn and its column in the frame, and 0 past the end of the stream. |
| GifRows.CopyRow | models/image_decode.c:773-781 | One row of the stream goes to its row of the canvas, clipped. |
| GifRows.CopyFrame | models/image_decode.c:761-783 | Every pixel of the canvas that the frame covers gets the colour of the index of its own row and column, every other keeps its colour; the fallback row is never used. |
| PngFilters.Paeth | models/image_decode.c:180-185 | The predictor is one of the three neighbours, the nearest to the estimate, ties going left, above, above left (section 6.6 of RFC 2083). |
| PngFilters.FilteredByte | models/image_decode.c:187-210 | What each of the five filters predicts, and that the byte is what the filtered byte and the prediction add up to modulo 256. |
| PngFilters.RowRoundTrip | models/image_decode.c:187-210 | Restoring a filtered scanline gives the scanline, for each filter and pixel size. |
| PngFilters.UnfilterRoundTrip | models/image_decode.c:187-210 | Unfiltering undoes filtering for every matrix of scanlines and every choice of filters. |
| PngFilters.RestoreLine | models/image_decode.c:192-207 | The inner loop restores one scanline in place and touches nothing else. |
| PngFilters.Unfilter | models/image_decode.c:187-210 | In place, all scanlines become the restored ones; failure exactly at an unknown filter; bytes outside the pass keep their values. |
| PngFilters.SamePaeth | scripts/png_to_svg.py:78-81 | The index of the least distance picks what the comparisons of the C decoder pick. |
| PngFilters.PythonRow | scripts/png_to_svg.py:71-83 | The loop of the Python decoder restores the same scanline. |
| PngFilters.PythonRows | scripts/png_to_svg.py:64-86 | Its rows are those of the C decoder, and it raises exactly where that one fails. |
| Interlacing.PixelIsInItsPass | models/image_decode.c:298-338 | Every pixel lies in one pass, at a column and row that pass has. |
| Interlacing.PassPattern | models/image_decode.c:298-338 | The pass of a pixel by the 8 by 8 pattern of section 2.6 of RFC 2083. |
| Interlacing.PassShape | models/image_decode.c:283-303 | A pass has exactly the columns and rows that lie in the image, in their order; its lines take the bytes their pixels need, and passes follow one another in the data. |
| Interlacing.PassWritesItsOwn | models/image_decode.c:298-338 | What a pass writes lies in the image and belongs to that pass and place alone, so no pixel is written twice. |
| Interlacing.PlaceLine | models/image_decode.c:304-336 | One scanline goes to its pixels and no others. |
| Interlacing.PlacePass | models/image_decode.c:298-338 | One pass: restored in place and put into the image, the pixels of other passes kept. |
| Interlacing.RawLength | models/image_decode.c:283-289 | The size added up by the first loop is where the second loop ends. |
| Interlacing.PlacePasses | models/image_decode.c:298-338 | The second loop fails exactly when a pass has an unknown filter, and otherwise shows at every pixel what the pass of that pixel holds for it. |
| Interlacing.PassRoundTrip | models/image_decode.c:298-338 | The scanlines of a pass come back from their place in the encoded image. |
| Interlacing.ImageRoundTrip | models/image_decode.c:230-340 | For every width, height, filters and interlacing, and every packing of pixels into lines that can be read back, decoding an encoded image gives back every pixel. |
| PngSamples.BitsOfByte | models/image_decode.c:217-221 | Shifting a byte down and masking it takes out the bits of one sample. |
| PngSamples.SampleIs | models/image_decode.c:212-228 | A sample of any depth is its bits in the line, most significant first (section 2.3 of RFC 2083). |
| PngSamples.PixelSamples | models/image_decode.c:212-228 | The samples of a pixel stand one after another behind those of the pixels before it. |
| PngSamples.UpperHalfShown | models/image_decode.c:216 | Of a sample of 16 bits the upper eight are shown. |
| PngSamples.SamplesPack | models/image_decode.c:212-228 | Reading the samples of a line undoes packing them, for 1, 2, 4, 8 and 16 bits and any number of channels. |
| PngSamples.SamplesRoundTrip | models/image_decode.c:283-338 | So for every width, height, depth, number of channels, filters and interlacing, every sample of an encoded image comes back. |
| JpegBits.UnstuffedOfStuffed | models/image_decode.c:403-408 | Byte stuffing is undone, whatever stands behind the data. |
| JpegBits.StuffedExample | models/image_decode.c:399-412 | Bytes with a stuffed zero and a marker, and the data in them. |
| JpegBits.WindowExactly | models/image_decode.c:397-415 | What is read before the end of the data is its bits, and behind it zeros. |
| JpegBits.EntropyReader.Load | models/image_decode.c:399-412 | A byte of data, or zeros once a marker or the end was reached. |
| JpegBits.EntropyReader.Bit | models/image_decode.c:397-415 | The next bit of the unstuffed data, most significant first, followed by zeros for ever. |
| JpegBits.EntropyReader.Receive | models/image_decode.c:417-422 | The next `n` bits as a number. |
| JpegHuffman.ScanFinds | models/image_decode.c:429-440 | The scan finds whatever code begins the bits. |
| JpegHuffman.ValueRoundTrip | models/image_decode.c:429-440 | Reading the code of a value gives the value after exactly its bits (Annex C and section F.2.2.3 of ITU-T T.81). |
| JpegHuffman.SameSymbol | models/image_decode.c:381-440 | The max_code/val_offset form and the count/first/index form compute the same function of the same code and bits. |
| JpegHuffman.JpegTable.Define | models/image_decode.c:381-395 | The two arrays stand for the code of the segment. |
| JpegHuffman.JpegTable.Decode | models/image_decode.c:429-440 | The decoder returns what the specification reads and moves as far. |
| Zigzag.ZigzagIsTheWalk | models/image_decode.c:377-379 | The table of 64 entries is the diagonal walk of Figure A.6 of ITU-T T.81, and so a permutation. |
| Zigzag.WalkStep | models/image_decode.c:377-379 | The table begins at the top left and each entry is one step of the diagonal walk from the one before. |
| JpegBlocks.ExtendOfMagnitude | models/image_decode.c:424-427 | Extending undoes the coding of every integer by category and magnitude bits. |
| JpegBlocks.MagnitudeOfExtend | models/image_decode.c:424-427 | And every bit pattern is the coding of the number it extends to. |
| JpegBlocks.SmallNumbers | models/image_decode.c:424-427 | The numbers that one, two and three bits stand for. |
| JpegBlocks.CodedRoundTrip | models/image_decode.c:476-488 | A symbol and the bits behind it give back the symbol and the number. |
| JpegBlocks.AcRoundTrip | models/image_decode.c:480-491 | The run-length coded coefficients come back from any place on, runs of more than 15 zeros and the early end of a block included. |
| JpegBlocks.AcSymbols | models/image_decode.c:480-491 | What a symbol says at any place: its run, its size and where the coefficient goes; sixteen zeros, the end of the block, and failure past the last place. |
| JpegBlocks.DcSymbol | models/image_decode.c:471-479 | The first coefficient is the difference of up to eleven bits added to the prediction. |
| JpegBlocks.BlockRoundTrip | models/image_decode.c:471-493 | Every block an encoder can write comes back after exactly its bits, the first coefficient as a difference. |
| JpegBlocks.BlocksRoundTrip | models/image_decode.c:471-493 | So does every sequence of blocks of interleaved components with their own tables and predictions. |
| JpegBlocks.ScanRoundTrip | models/image_decode.c:397-493 | From padded and stuffed bytes followed by a marker or nothing, all blocks of a scan come back. |
| JpegExample.JpegExample | models/image_decode.c:471-493 | A real block of nine bits, with its tables, and its coefficients. |
| JpegBlocks.StoredNext | models/image_decode.c:489 | No two coefficients share a cell of the block. |
| JpegBlocks.Block | models/image_decode.c:471-493 | The method stores each coefficient, times its quantizer, in its cell and keeps the running prediction. |
| Rectangles.RunAt | scripts/png_to_svg.py:97-99 | A run ends at the first other colour. |
| Rectangles.RowRuns | scripts/png_to_svg.py:94-103 | A row's runs, with the row where each began; those that go on leave the active ones. |
| Rectangles.Close | scripts/png_to_svg.py:104-105 | The runs that ended are listed as rectangles, once each. |
| Rectangles.Vectorize | scripts/png_to_svg.py:89-108 | Listed are exactly the maximal stretches of equal runs, each once, under their colour. |
| Rectangles.CoveredOnce | scripts/png_to_svg.py:89-108 | No pixel lies in two of them, and each has the colour of its pixels. |
| Rectangles.Covered | scripts/png_to_svg.py:89-108 | Every pixel lies in one. |
| Rectangles.Lossless | scripts/png_to_svg.py:89-108 | So the picture drawn from the list is the picture: each pixel is covered by exactly one listed rectangle, of its own colour. |
| MergeSorting.StableIsPermutation | models/view_rows.c:19-37 | A stable rearrangement has the same elements. |
| MergeSorting.SortedStableUnique | models/view_rows.c:19-37 | Sorted and stable determine the result. |
| MergeSorting.MergedStable | models/view_rows.c:26-34 | Merging two sorted sequences keeps the order of elements that rank the same, the first sequence before the second. |
| MergeSorting.MergedSorted | models/view_rows.c:26-34 | And it is sorted. |
| MergeSorting.MergeInto | models/charts.c:207-219 | The three loops of a merge write the stable merge into the scratch array. |
| MergeSorting.MergePass | models/charts.c:207-219 | Two adjacent stretches are merged in place and the rest is kept. |
| MergeSorting.Pass | models/charts.c:221-233 | A pass makes sorted stretches of twice the width, and is stable. |
| MergeSorting.Sort | models/view_rows.c:19-37 | For every total preorder and every array the result is sorted and a stable rearrangement. |
| MergeSorting.TwoSorts | models/view_rows.c:215-220 | Sorting by one comparator and then stably by another sorts by the second and then the first. |
| NaturalOrder.NaturalIsPreorder | models/view_rows.c:46-71 | The natural order is antisymmetric and transitive, and two strings rank the same exactly when they read the same up to case and leading zeros of digit runs. |
| NaturalOrder.ShorterIsLess | models/view_rows.c:52-56 | Without leading zeros, fewer digits are a smaller number. |
| NaturalOrder.SameLengthCompares | models/view_rows.c:57-60 | Digits of one length compare as the numbers they spell. |
| NaturalOrder.ByCharacter | models/view_rows.c:39-44 | Of first characters that are not both digits the smaller goes first, capital letters counting as small ones; only such that count the same leave it to the rest. |
| NaturalOrder.ByNumber | models/view_rows.c:49-62 | Of whole numbers at the front the smaller goes first, however spelled; only equal ones leave it to the rest. |
| NaturalOrder.OneMoreDigit | models/view_rows.c:52-60 | The number that digits spell. |
| NaturalOrder.CompareNatural | models/view_rows.c:46-71 | The loop computes that order. |
| TableOrder.TableCompare | models/view_rows.c:111-136 | The branches compute the specified order of two rows. |
| TableOrder.OrderIsPreorder | models/view_rows.c:111-136 | For each field, direction and grouping the order is a total preorder. |
| TableOrder.EmptyLast | models/view_rows.c:111-136 | Empty values go last in both directions. |
| TableOrder.DirectionReverses | models/view_rows.c:111-136 | The direction reverses the order of two values that are set and nothing else. |
| TableOrder.EarlierFirst | models/view_rows.c:120-125 | For each of the four times, with both set and in one swimlane, the earlier goes first, and last in the other direction. |
| TableOrder.LesserFirst | models/view_rows.c:126-129 | The same for each of the six texts by the natural order. |
| TableOrder.OrderOfFields | models/view_rows.c:111-136 | The comparator says exactly which rows may stand before which, stated on the rows' own fields: swimlane position, title and id, then the field with empty values last, then the title. |
| TableOrder.BytesOfTitles | models/view_rows.c:138-141 | The order of the bytes of the titles: the first difference decides, then the length. |
| TableOrder.SortRows | models/view_rows.c:215-220 | The two sorts give rows sorted by the table order and then by the bytes of their titles, stably; and read row by row, every row may stand before every later one by its own fields. |
| Calendar.CivilIsTheDate | models/charts.c:17-29 | For every integer day the computed date is a valid Gregorian date whose day number is that day, with C's truncating division. |
| Calendar.DateOfNumber | models/charts.c:17-29 | And every valid date is computed from its number: a bijection. |
| Calendar.NextDay | models/charts.c:17-29 | The next day gives the next date, before and after day 0. |
| Calendar.NextNumber | models/charts.c:17-29 | The date after a date has the next number, over months, leap days and years. |
| Calendar.YearLength | models/charts.c:17-29 | Years of the calendar have 365 or 366 days by the rule of 4, 100 and 400. |
| Calendar.KnownDates | models/charts.c:17-29 | Dates about day 0, and about the leap days of 1900 and 2000. |
| Calendar.KeyIsTheDate | models/charts.c:31-39 | The ten digits of a day key are those of its date, the year cut to its last four. |
| Calendar.WeekOf | models/charts.c:559-563 | The Monday of a day's week, for negative days too. |
| Calendar.WeeksFromNewYear | models/view_rows.c:633-646 | The ISO year is the one its Thursday lies in, and the week counts from that year's first day. |
| Calendar.WeeksInTurn | models/view_rows.c:633-646 | Weeks are numbered 1 to 53, do not change from Monday to Sunday, and go on to the next number or to week 1 of the next year (section 4.1.4 of ISO 8601:2004). |
| Calendar.KnownWeeks | models/view_rows.c:633-646 | Day 0 is a Thursday; weeks about New Year of 1970, 2005, 2009 and 2010. |
| Calendar.YearBefore | models/view_rows.c:637-641 | Going back from New Year changes the last four digits of the year, so the search for it ends. |
| Calendar.ViewIsoWeek | models/view_rows.c:633-646 | The method ends and gives the week and the last four digits of the ISO year. |
| Timelines.RemovedIs | models/view_rows.c:521-530 | What removing an id does to the set. |
| Timelines.AddedIs | models/view_rows.c:532-540 | What adding an id does, up to the capacity. |
| Timelines.RemoveId | models/view_rows.c:521-530 | The in-place loop removes it. |
| Timelines.AddId | models/view_rows.c:532-540 | The loop adds it unless it is there or there is no room. |
| Timelines.TimelineCard.Undo | models/view_rows.c:583-597 | One activity is undone field by field as specified. |
| Timelines.TimelineCard.UndoAfter | models/view_rows.c:577-598 | All later activities of the card are undone, newest first, in the order of the stable sort. |
| Timelines.Timeline | models/view_rows.c:550-602 | The cards that are open now, in their order. Live, all nine fields of each are the card's own; otherwise each is what undoing everything after the time leaves. |
| Timelines.ShownExactly | models/view_rows.c:557-561 | A card is on the view exactly when it is neither archived nor deleted now. |
| Timelines.OpenInOrder | models/view_rows.c:555-561 | The view lists the open cards in the order of the board. |
| Timelines.FutureInOrder | models/view_rows.c:577-581 | What is undone is what the log says of the card after the time, in the order of the log. |
| Timelines.UndoLeaves | models/view_rows.c:583-597 | What undoing cannot change, whatever the log says: titles are cut at 128 bytes, ids that are not there are not removed, and no id is added that is empty, there already or the ninth. |
| Timelines.ArchivedSinceIsAbsent | models/view_rows.c:557-561 | A card that was open at the time shown and archived since is not on the view. |
| Timelines.NewestIsLast | models/view_rows.c:544-548 | With increasing times the sorted log begins with the last activity. |
| Timelines.HistoryUndone | models/view_rows.c:550-602 | Undoing a recorded history backwards leads through its states. |
| Timelines.TimelineIsUndo | models/view_rows.c:550-602 | When the log tells how a card changed up to what it holds now, the view at a time shows it field by field as it was at that time, whatever order the log has and whatever it holds of other cards. |
| Timelines.UndoInSteps | models/view_rows.c:550-602 | For every log at all, undoing to a time and from there to an earlier one is undoing to the earlier one. |
| BlockingEdges.FindCard | models/charts.c:1255-1278 | The first state of a card id. |
| BlockingEdges.FindEdge | models/charts.c:1350-1354 | The search for an edge in a buffer. |
| BlockingEdges.Edges | models/charts.c:1255-1278 | The buffer holds exactly the edges of the card states, once each, and eight places a card are always enough. |
| BlockingEdges.EdgeMade | models/charts.c:1260-1275 | The edge of one dependency, if both cards are there and open. |
| BlockingEdges.EdgeExactly | models/charts.c:1250-1275 | From the cards alone: one blocks another exactly when a dependency of the first that blocks names the second, or one of the second that is blocked by names the first, and neither is archived, deleted or ended; in the list of the blocked card. |
| BlockingEdges.ApplyChange | models/charts.c:1280-1309 | A change is applied or taken back on the state of its card. |
| BlockingEdges.ChangeBetween | models/charts.c:1280-1309 | A change that records two states of the cards leads from the one to the other, and backwards from the other to the one. |
| BlockingEdges.ChangeOfNothing | models/charts.c:1280-1309 | Which changes change nothing, and that of more than eight dependencies the first eight count. |
| BlockerReplay.Replay.constructor | models/charts.c:1336-1343 | The first edges are active with an unknown start. |
| BlockerReplay.Replay.Record | models/charts.c:1356-1362 | An episode is written while there is room. |
| BlockerReplay.Replay.Remove | models/charts.c:1363-1366 | Removing by swapping in the last entry keeps the three arrays in step. |
| BlockerReplay.Replay.DropEnded | models/charts.c:1350-1368 | Exactly the edges that ended leave, each as an episode while there is room. |
| BlockerReplay.Replay.AddNew | models/charts.c:1369-1380 | Exactly the edges that began are appended, and the buffer has room for them. |
| BlockerReplay.Replay.Step | models/charts.c:1345-1381 | After every change the active array holds precisely the edges of the current states, without duplicates and within its buffer. |
| BlockerReplay.Replay.Finish | models/charts.c:1382-1388 | What still exists becomes open episodes. |
| BlockerReplay.AllStretches | models/charts.c:1345-1388 | The recorded stretches and the open ones are all maximal stretches of existence. |
| BlockerReplay.StepsCovered | models/charts.c:1345-1388 | An edge exists at a step exactly when one maximal stretch of it covers the step, and only one does. |
| BlockerReplay.Rewind | models/charts.c:1333-1335 | All changes up to now are taken back, newest first. |
| BlockerReplay.ReplayChange | models/charts.c:1345-1381 | One change replayed, or skipped when it has no time or lies ahead. |
| BlockerReplay.WholeCount | models/charts.c:1345-1388 | There are as many maximal stretches as edges at the start and edges that the changes bring. |
| BlockerReplay.BlockerAnalysis | models/charts.c:1311-1388 | The episodes are different maximal stretches of the replayed history with their times. All of them are listed exactly when the changes bring at most four edges a change and sixteen more; otherwise the list, of the edges at the start and as many more, is full. |
| BlockerReplay.RelevantIs | models/charts.c:1333-1347 | The changes that count are those with a time up to now, in their order. |
| BlockerReplay.HistoryReplayed | models/charts.c:1333-1347 | Rewound from its last state and replayed, a recorded history goes through its own states. |
| BlockerReplay.ChartOfHistory | models/charts.c:1311-1388 | Read off a complete chart of a recorded history: at any time one card blocked another, as their states of that time say, exactly when one listed episode covers the time. |
| BlockerReplay.EpisodesCover | models/charts.c:1345-1388 | When all are listed, an edge exists at a step exactly when one listed episode of it covers the step, and no other does. |
| BlockerReplay.EpisodesAtTime | models/charts.c:1345-1388 | When moreover the changes are in order, an edge exists at a time exactly when one listed episode, by the start and end it shows, covers the time. |
| BlockerReplay.ShortList | models/charts.c:1337-1362 | Twenty-five cards that depend on a card taken out of the archive and put back: twenty-five episodes, and room for twenty-four. |
| Utf8Text.FirstIsWritten | models/text.c:4-32 | What the decoding rule accepts begins with the encoding of the scalar it reports (section 3 of RFC 3629). |
| Utf8Text.WrittenIsFirst | models/text.c:4-32 | What is written for a scalar is read as that scalar. |
| Utf8Text.DecodedIsEncoded | models/text.c:4-32 | A string decodes to some scalars exactly when it is their encoding. |
| Utf8Text.Utf8Examples | models/text.c:4-32 | One scalar of each length and its bytes. |
| Utf8Text.OneScalarFirst | models/text.c:4-32 | No string begins with the encodings of two scalars. |
| Utf8Text.NoNul | models/text.c:4-32 | Well-formed strings hold no NUL byte. |
| Utf8Text.Next | models/text.c:4-32 | The decoder succeeds exactly on a well-formed scalar, gives it and moves past it, and does not move on failure. |
| Utf8Text.RegionUtf8 | server/region_response.c:37-66 | Accepts exactly the well-formed strings of scalars its control policy allows. |
| Utf8Text.ModelTextValid | models/model.c:49-83 | Likewise with the policy for titles and descriptions and the limits on length. |
| Utf8Text.RegionTextExactly | server/region_response.c:37-66 | Which characters a region's content may hold. |
| Utf8Text.ModelTextExactly | models/model.c:49-83 | Which characters a title and a description may hold. |
| Utf8Text.DecodersAgree | models/model.c:49-83 | The three decoders agree on well-formedness. |
| Trimming.TrimmedOnce | models/text.c:41-60 | There is one way to cut a text into white space, a part without white space at its ends, and white space. |
| Trimming.TrimmedPlace | models/text.c:41-60 | The part kept runs from the first to the last character that is no white space. |
| Trimming.TrimmedExactly | models/text.c:34-60 | Trimming takes away just the white space of ECMAScript, listed, at both ends. |
| Trimming.TrimBounds | models/text.c:41-60 | The bounds are those of that part, in bytes; failure exactly on malformed text. |
| TitleLists.LineEnd | models/checklist_item_titles.c:47-49 | The end of a line, or of the text when it is not split. |
| TitleLists.CountTitles | models/checklist_item_titles.c:45-56 | The first pass accepts exactly what fits and counts its titles. |
| TitleLists.WriteTitles | models/checklist_item_titles.c:45-68 | The second pass writes those titles, forwards or backwards. |
| TitleLists.ParseTitles | models/checklist_item_titles.c:30-71 | Success is the text split at line feeds, trimmed, without blanks, reversed if asked; on failure nothing is written. |
| TitleLists.ParseBatch | models/checklist_item_titles.c:5-28 | The same for a batch with its limits and its ban on control bytes. |
| TitleLists.LinesKeepScalars | models/checklist_item_titles.c:42-50 | A text is well formed exactly when all its lines are. |
| TitleLists.PiecesJoined | models/checklist_item_titles.c:42-50 | The lines hold no line feed and joined by line feeds are the text. |
| TitleLists.TitlesInOrder | models/checklist_item_titles.c:45-68 | The titles are the trimmed lines that are not blank, in their order. |
| TitleLists.AcceptedExactly | models/checklist_item_titles.c:30-56 | The limits of a list of titles, in numbers. |
| Decimals.ReadNumber | server/region_response.c:127-142 | Accepts exactly the digits of a positive number within an unsigned long, leading zeros allowed. |
| Decimals.NumberOfPrinted | server/region_response.c:127-142 | A printed number is read as itself. |
| Decimals.PrintedIsShortest | server/region_response.c:127-142 | No spelling of a number is shorter than the printed one. |
| Decimals.NumberExactly | server/region_response.c:127-142 | Which texts are read as which number. |
| RegionWire.NameBytes | server/region_response.c:7-35 | Valid names hold no separator and no NUL. |
| RegionWire.NamesExactly | server/region_response.c:7-35 | The names there are, of at most 64 bytes. |
| RegionWire.ResponseLimits | server/region_response.c:68-92 | The limits of a response, in numbers. |
| RegionWire.NextOfFramed | server/region_response.c:165-196 | A framed region is read as that region, however its numbers are spelled, with line feeds in its content and whatever behind it. |
| RegionWire.FramedOfNext | server/region_response.c:165-196 | What is read as a region was one. |
| RegionWire.NextOfPrinted | server/region_response.c:149-198 | A printed list of regions is read back. |
| RegionWire.PrintedOfNext | server/region_response.c:149-198 | What is read as a list is valid and prints in no more bytes. |
| RegionWire.ParseOfEncode | server/region_response.c:77-198 | Every valid response within the size bound parses from its encoding to itself. |
| RegionWire.EncodeOfParse | server/region_response.c:77-198 | Every accepted input encodes again in no more bytes to something that parses to the same response. |
| RegionWire.WireExample | server/region_response.c:77-125 | A response of one region, line by line on the wire. |
| RegionWire.RegionsInOrder | server/region_response.c:109-121 | Regions stand on the wire in their order, the end line behind them. |
| RegionResponses.CheckRegion | server/region_response.c:68-75 | A region is valid. |
| RegionResponses.Size | server/region_response.c:97-107 | The first loop computes the size of the encoding. |
| RegionResponses.Encode | server/region_response.c:77-125 | The buffer holds the whole encoding, or is untouched. |
| RegionResponses.ParseHeader | server/region_response.c:171-179 | The three fields of a header line. |
| RegionResponses.TakeContent | server/region_response.c:184-195 | The content of the announced length, followed by its line feed. |
| RegionResponses.ParseRegion | server/region_response.c:165-196 | One region of the loop and where the next begins. |
| RegionResponses.Parse | server/region_response.c:149-209 | The cursor loop accepts what the specification accepts. |
| RegionResponses.RegionState.Accept | server/region_response.c:211-251 | Either all regions of a newer, consistent response take effect or none does. |
| RegionResponses.AcceptableExactly | server/region_response.c:211-245 | When a response is accepted, on the names and versions themselves. |
| HttpRequests.StartIsItsLine | server/http.c:66-78 | A request line is accepted as some method, target and version exactly when it is written like them. |
| HttpRequests.TrimIs | server/http.c:99-103 | Trimming leaves what stands between the blanks. |
| HttpRequests.LengthIsValue | server/http.c:118-127 | The digit loop accepts exactly the spellings of a number within the limit. |
| HttpRequests.HeaderRead | server/http.c:89-128 | A header line in any case and with any blanks about its value is read as that header. |
| HttpRequests.HeaderWritten | server/http.c:89-128 | What is read as a header was one, and it may follow the ones before it. |
| HttpRequests.RequestRead | server/http.c:49-142 | A written request is accepted as itself, whatever follows it. |
| HttpRequests.RequestWritten | server/http.c:49-142 | An accepted input begins with the request as it is written, and that is what is consumed. |
| HttpRequests.AcceptedIsWritten | server/http.c:49-142 | Both at once: exactly the inputs within the size and without NUL that begin with a valid request are accepted, and as that request. |
| HttpRequests.StartExactly | server/http.c:66-78 | A request line in its own words: GET or POST, the target's bytes and length, HTTP/1.0 or HTTP/1.1. |
| HttpRequests.HeaderExactly | server/http.c:89-112 | The bytes and lengths of a header's name and value. |
| HttpRequests.MayFollowExactly | server/http.c:89-128 | When a header may follow others: 32 in all, no name twice, no transfer coding, a content length of at most 8192. |
| HttpRequests.CompleteExactly | server/http.c:129-136 | What a request must have, and how long its body is. |
| HttpRequests.HeaderAsWritten | server/http.c:89-112 | How a header line is written, byte by byte. |
| HttpRequests.LengthVerdicts | server/http.c:118-127 | A length beyond the limit is told from one that is no number by what comes first. |
| HttpRequests.NextLineDecides | server/http.c:79-128 | Behind headers that were read, a length beyond the limit makes the request too large and any other line that may not follow makes it invalid. |
| HttpRequests.EndDecides | server/http.c:129-142 | At the empty line, what is missing makes the request invalid, and a body not there yet incomplete. |
| HttpRequests.FirstLineDecides | server/http.c:61-78 | A first line that is no request line makes it invalid; without a line end it is incomplete. |
| HttpRequests.NoLineYet | server/http.c:79-88 | Likewise behind headers that were read. |
| HttpRequests.RequestExample | server/http.c:49-142 | A request, line by line, and what is made of it. |
| HttpRequests.VerdictStays | server/http.c:49-142 | Once a verdict is reached, more bytes within the size keep it exactly when they hold no NUL or it was that the request is invalid. |
| HttpRequests.ConsumedIsTheRequest | server/http.c:137-141 | The consumed bytes alone are the same request. |
| HttpParsing.FindCrlf | server/http.c:6-12 | The first line end. |
| HttpParsing.CopyToken | server/http.c:14-29 | A token of visible bytes that fits its buffer. |
| HttpParsing.NameValid | server/http.c:31-37 | The bytes of a header name. |
| HttpParsing.TrimValue | server/http.c:99-103 | The two loops trim. |
| HttpParsing.LengthOf | server/http.c:122-126 | The loop over the digits gives what comes first of a byte that is no digit and a number that is too large. |
| HttpParsing.HttpRequest.HeaderValue | server/http.c:39-47 | The value of the first header of a name. |
| HttpParsing.HttpRequest.ParseStart | server/http.c:66-78 | The request line goes into the request. |
| HttpParsing.HttpRequest.ParseHeader | server/http.c:89-128 | A header line is appended, or rejected for the reason the specification gives. |
| HttpParsing.HttpRequest.ParseHeaders | server/http.c:79-131 | The loop over the lines. |
| HttpParsing.HttpRequest.End | server/http.c:131-141 | What is asked of the headers, and the body. |
| HttpParsing.HttpRequest.ParseInto | server/http.c:49-142 | The parser holds what the specification accepts and gives its verdict otherwise. |
| HttpParsing.HttpRequest.ParseRequest | server/http.c:144-153 | Anything but an accepted request leaves a cleared one. |
| HttpParsing.HttpRequest.Receive | server/http_listener.c:269-277 | The receiving loop ends with the verdict on the bytes received when it ends. |
| HttpParsing.EveryCutting | server/http_listener.c:269-277 | However a stream without NULs is cut into pieces, the verdict is that on as much of it as the buffer holds. |
| HttpParsing.CuttingsAgreeExactly | server/http_listener.c:269-277 | All cuttings of a stream reach one verdict exactly when what the buffer can hold has no NUL, or when what stands before the first NUL is incomplete or invalid. |
| HttpParsing.NulDependsOnCutting | server/http_listener.c:269-277 | With a NUL behind a request the verdict depends on the pieces: a concrete stream and two cuttings. |
| FormValues.DecodedExactly | server/router.c:97-111 | A text decodes to a value exactly when it spells it, byte by byte as it stands, as a plus or as two hexadecimal digits, and the value holds no control byte. |
| FormValues.Take | server/router.c:91-114 | The value of a pair is decoded, or copied, within the capacity. |
| FormValues.ReadFormValue | server/router.c:74-118 | The value of the one pair of a name; none when there are none or two, or when it is malformed. |
| FormValues.FormExactly | server/router.c:74-118 | Of a form written from entries, a name has a value exactly when one entry has the name, no other does, and its value, as it stands or decoded, is neither empty nor too long. |
| FormValues.FormOfValue | server/router.c:74-118 | The other direction: where there is a value the body was such a form. |
| Security.SecurityStore.Record | server/security.c:61-75 | The ring keeps the latest entries. |
| Security.SecurityStore.LastAudit | server/security.c:232-238 | The last entry made. |
| Security.SecurityStore.TokenExists | server/security.c:27-37 | Whether an active session or form token has this token. |
| Security.SecurityStore.NewToken | server/security.c:39-59 | Of up to three draws, the first that is not all zero and not in use. |
| Security.SecurityStore.FindSession | server/security.c:86-103 | The session a token opens at a time; one that is over is closed. |
| Security.SecurityStore.SessionCreate | server/security.c:105-132 | Exactly when a new session is made, with which token, and in a slot nobody needs. |
| Security.SecurityStore.Authenticate | server/security.c:134-149 | A user exactly when the token opens a session, and that session's; one audit entry either way. |
| Security.SecurityStore.CsrfIssue | server/security.c:160-198 | Exactly when a form token is issued, unlike every active one, for one session, route and operation. |
| Security.SecurityStore.CsrfConsume | server/security.c:200-230 | Accepted exactly when some slot holds the token unused, in time and for this session, route and operation; each issue is accepted at most once; a tried token is used up whatever the answer; one audit entry. |
| Security.SecurityStore.Revoke | server/security.c:151-158 | All sessions of a token are closed. |
| Security.FirstTokenExactly | server/security.c:39-59 | Which of the draws becomes the token. |
| Security.HexOfByte | server/security.c:50-55 | How its bytes are spelled. |
| Security.OpensExactly | server/security.c:86-103 | When a token opens a session. |
| Security.ConsumableExactly | server/security.c:200-230 | When a form token may be consumed, on the slots' own fields. |
| Security.SlotAfter | server/security.c:86-230 | What becomes of a slot whose token was tried, and of a session that is over or revoked. |
| MemoryStores.EditRaisesOneVersion | server/persistence.c:123-164 | Every command but a creation raises one card's version by one, from the version it expected, and touches no other card. |
| MemoryStores.StoredExactly | server/persistence.c:123-164 | What each command stores, field by field: the new card, the new title or the archive flag, the next version, and everything else as it was; and that it applies exactly when it can store that. |
| MemoryStores.CommandAddsOneVersion | server/persistence.c:123-164 | Every command that applies, a creation included, adds one to the sum of the versions of all cards. |
| MemoryStores.CardIdsDiffer | server/persistence.c:123-164 | Ids made from different request versions differ. |
| MemoryStores.SoundNext | server/persistence.c:123-164 | A command of a version above all earlier ones keeps card ids different, and the versions of the cards add up to the number of replay keys. |
| MemoryStores.MemoryStore.Begin | server/persistence.c:87-112 | A transaction begins exactly when its user, the room and the replay keys allow. |
| MemoryStores.MemoryStore.Apply | server/persistence.c:123-164 | The staged cards become those after the command. |
| MemoryStores.MemoryStore.Finish | server/persistence.c:166-180 | The staged cards and key are kept or dropped together. |
| MemoryStores.MemoryStore.Execute | server/persistence.c:53-77 | All of a command, with its replay key, or nothing: what is stored is what the command says, field by field, the key holds the command's user, route, operation and version, and the answer is the one region named board with the card's title. |
| MemoryStores.MemoryStore.ExecutableExactly | server/persistence.c:53-112 | When a command is executed, in numbers and on the fields of the keys. |
| MutationServer.Server.Route | server/router.c:132-177 | Exactly when a request is a mutation, with which user and operation; its token's issue was never consumed before and is now. |
| MutationServer.OperationNames | server/domain_operation.c:5-21 | The names of the operations; no other text is one. |
| MutationServer.Server.AdmitsExactly | server/router.c:132-177 | Which requests are admitted, on the form's values and the fields of the sessions and tokens. |
| MutationServer.Server.Verify | server/router.c:165-168 | The last two tests of the route. |
| MutationServer.Server.Dispatch | server/domain_operation.c:32-64 | Exactly when an intent is applied; the version goes up exactly then. |
| MutationServer.TracedNext | server/domain_operation.c:32-64 | One more applied mutation keeps the history of issues and replay keys. |
| MutationServer.Server.PostForm | server/domain_operation.c:32-64 | Every posted request is either refused or applies one mutation, of the user whose session posted it, under a token that no earlier mutation used: the stored cards are what the form says, field by field, the answer shows the card's title, and the invariant of the whole run is kept. |
| MutationServer.Server.IssueToken | server/security.c:160-198 | Issuing keeps the history of the run. |
| MutationServer.Server.OpenSession | server/security.c:105-132 | So does opening a session. |
| MutationServer.Server.CloseSession | server/security.c:151-158 | And closing one. |
| CardOrder.Unordered | models/card_order.c:17-21 | Without repetitions the tests on neighbours are about the set of slots. |
| CardOrder.SlotsExactly | models/card_order.c:30-45 | The slots of a column are those of the cards with its board, list and lane, field by field. |
| CardOrder.CapturableExactly | models/card_order.c:23-61 | When a column can be captured, in numbers and on its slots. |
| CardOrder.SlotLimits | models/card_order.c:6-45 | The limits of a slot: positions, archive flags and ids. |
| CardOrder.SortedAscends | models/card_order.c:51-56 | Sorted slots ascend exactly when no two neighbours share a position. |
| CardOrder.Capture | models/card_order.c:23-61 | A snapshot exactly of a column that can be captured, with its cards in ascending order. |
| CardOrder.CheckSlots | models/card_order.c:52-56 | Positions of neighbours and all ids differ. |
| CardOrder.Search | models/card_order.c:74-79 | The first slot at or after a position. |
| CardOrder.Current | models/card_order.c:62-87 | Over a valid snapshot, true exactly when the column still has the same ids, positions and archive flags, in whatever order the cards come. |
| CardOrder.CurrentMeansSame | models/card_order.c:62-87 | That is: exactly when every new snapshot of the column equals it in those. |
| CardOrder.SameIsCapturable | models/card_order.c:62-87 | And then the column can be captured again. |
| CardOrder.PlanIsTheColumn | models/card_order.c:111-117 | The plan has no repetitions and exactly the selected ids and those of the column; the block stands whole at its place, and without it the others stand in their order. |
| CardOrder.StayingInOrder | models/card_order.c:111-117 | What stays keeps its order. |
| CardOrder.PlannableExactly | models/card_order.c:89-110 | When a block can be planned. |
| CardOrder.CheckPlan | models/card_order.c:89-110 | Exactly when a selection can be planned, and which slots move. |
| CardOrder.CheckDestination | models/card_order.c:101-110 | The slots are a snapshot, nothing archived moves, and the plan is not too long. |
| CardOrder.InsertSelection | models/card_order.c:89-118 | The plan, exactly when there is one. |
| Sha256Stream.FoldedConcat | server/sha256.c:36-41 | Folding the compression step over whole blocks and then the rest is folding it over both. |
| Sha256Stream.PadSizeIs | server/sha256.c:51 | The padding ends on a block boundary. |
| Sha256Stream.PaddingExactly | server/sha256.c:48-52 | The padding byte by byte: the mark, zeros, and the number of bits in eight bytes. |
| Sha256Stream.InitialIsRoots | server/sha256.c:43-46 | The initial words are the fractions of the square roots of the first eight primes. |
| Sha256Stream.TwoBlocks | server/sha256.c:36-41 | Blocks of 64 bytes are compressed one after the other. |
| Sha256Stream.HexOfWords | server/sha256.c:53-54 | How the words of the digest are spelled. |
| Sha256Stream.TailIsPadding | server/sha256.c:50-52 | The two words of the length are its eight bytes, most significant first. |
| Sha256Stream.CounterBits | server/sha256.c:51 | The two-word byte counter gives the 64-bit number of bits. |
| Sha256Stream.Sha256.Update | server/sha256.c:36-41 | The message grows by the piece; the counter is its length as long as pieces are below 2^32 bytes, and loses the multiples of 2^32 of longer ones. |
| Sha256Stream.Sha256.Absorb | server/sha256.c:40 | The loop of the update, in whatever pieces. |
| Sha256Stream.Sha256.Fill | server/sha256.c:40 | One round: bytes into the block, and a full block compressed. |
| Sha256Stream.Sha256.FinalHex | server/sha256.c:48-54 | The final state is the fold of the compression step over the padded message (section 5.1.1 of FIPS 180-4), and the output its hexadecimal text. |
| Sha256Stream.OneShotLength | server/sha256.c:36-41 | Hashing a message in one update gives it its right length exactly when its length modulo 2^61 is below 2^32. |
| Sha256Stream.LengthLost | server/sha256.c:36-41 | 2^32 bytes in one update are counted as none, and no shorter message loses its length. |
| Sha256Stream.Hex | server/sha256.c:56-59 | The one-shot hash of every message below 2^32 bytes is its digest, and what it is of longer ones. |
| Sha256Stream.FileHash | server/sqlite_backup.c:27-34 | A file has the digest of its whole contents, however many bytes each read brings. |

## Left out

- Inflater.InflateZlib: says nothing of the output for a stream with an over-subscribed dynamic block, because the code then reads an array it never filled; a block whose distance code alone is over-subscribed and which has no back-reference counts as such a block too, although its literals would come out.
- Inflater.InflateDynamic: promises the same, for one block.
- CardOrder.Current: says nothing of slots that are no snapshot, since those come from `Capture` only.
- JpegHuffman.JpegTable.Define: takes a segment whose counts and values were already checked; the parsing of segments is not modelled.
- The zlib checksum and the CRCs of PNG chunks: the code does not look at them.
- The caching of the fixed tables in static variables: the tables are built anew, which gives the same ones.
- Chunk and segment parsing, palettes, transparency and size limits of the three image formats, and the scaling of samples to colours; the samples themselves are in `PngSamples`.
- JPEG restart markers, progressive scans, the inverse cosine transform and colour conversion: floating point, or branching without a deep property.
- Allocation failures and NULL arguments: allocation succeeds and pointers are valid. Character buffers with terminators are byte sequences with the capacity as a bound.
- Locales: `tolower`, `isalnum` and `isdigit` are those of the C locale; an `unsigned long` has 64 bits.
- Times and sort keys that are doubles are integers, card positions are reals; NaN and rounding do not occur.
- `qsort` in `models/card_order.c` is a sort by position, and its result the only one that matters: positions that tie are rejected.
- The SHA-256 compression step, entropy and clocks: arbitrary inputs.
- The pages and the operations of the user interface: given sets, as `imports/ui/page_contract.c` is not part of this model.
- Sockets: the listener's loop is modelled over a stream and the amounts each receive brings.
- `by_event_card` in `models/view_rows.c` answers -1 for equal cards, so it is no total preorder and the sort says nothing of it.
- The filters of `wena_view_table_rows`, the other charts and views, and the tables and texts made of episodes: straight-line or over floating point.
- The text of the SVG file: the rectangles are what is drawn.
- SQLite and FerretDB code: its meaning lies in SQL.
- The desktop client and its rendering.
