# Verified image codecs, query ring and source transform

This project models the parts of Topaz where something can go wrong in a way that is hard to see: the
image codecs that textures are loaded and written with (`lib/stb_image`), the ring of GPU timestamp queries
(`lib/tracy/TracyVulkan.hpp`) and the shader source transform of `tzslc` (`tools/tzslc`). It proves that they
do what their formats and callers expect. `dafny verify dfyconfig.toml` checks the whole project.

## Contents

- zlib (RFC 1950, RFC 1951): `Huffman` (canonical codes as intervals), `ZHuffman` and `ZBuf` (tables and bit
  buffer of the inflater), `InflateSpec` (what a stream denotes), `Inflater` (the methods), `Deflate`, `BitWriter`,
  `FixedCode`, `Compress`, `Adler` (the compressor), `ZlibRoundTrip`; `DeflateHeader` and `DeflateStream` (streams of
  any writer).
- PNG (RFC 2083): `PngFilter`, `PngLines`, `PngImage`, `PngUnpack`, `PngPacked`, `PngAdam7`, `PngSpec`, `PngReader`,
  `PngWriter`, `PngRoundTrip`, `PngFiles` (files of any writer).
- JPEG entropy coding (ITU-T T.81): `JpegHuffman`, `JpegTable`, `JpegCounts`, `JpegBits`, `JpegReader`, `JpegBlock`,
  `JpegDecode`, `JpegWriter`, `JpegEncode`, `JpegRoundTrip`, `JpegScan`, `JpegStandard` (the writer's constant tables).
- GIF (GIF89a): `GifRows`, `GifCursor`, `GifLzw`, `GifDecoder`, `GifImage`, `GifCoder` and `GifRoundTrip` (any coder).
- TGA: `TgaSpec`, `TgaWriter`, `TgaReader`, `TgaRoundTrip`. Radiance HDR scanlines: `HdrScanline`.
- `QueryRing`, `SourceTransform`, and the arithmetic all of them share: `Words`, `BitStream`, `BitReverse`, `Slices`.

Code that updates variables, fields and buffers in place is modelled by methods, classes and arrays, and each is
proved against a function of the bytes: for a reader, a function that says what any input denotes, errors included;
for a writer, the bits or packets it must produce. The main theorems connect the two. Machine words are
naturals with explicit remainders; `&`, `|` and shifts are functions on naturals (`Words`).

## What turned out to be false

- `tzslc::transform` is replacement from left to right exactly when every rest that still holds a match first occurs
  in the source at its true offset (`SourceTransform.TransformIff`), because the offset of a rest is looked up with
  `find`. A match written twice in a row fails (`SourceTransform.AdjacentPair`), and so does a line with one match
  written three times (`SourceTransform.RepeatedLine`).
- Loading a written TGA image is not the identity for every size the header can hold: it is exactly when width times
  height times channels fits an `int` (`TgaRoundTrip.RoundTrip`). 32768 by 32768 pixels of two channels are written
  and then refused (`TgaRoundTrip.LargeRefused`).
- JPEG decoding is canonical exactly when a table has at most 255 symbols or its last code is longer than nine bits
  (`JpegHuffman.ExactIff`; `JpegHuffman.DecodeAlways` says what is answered otherwise, and `JpegCounts.FullTable` gives
  a table). The number 255 stands both for the last symbol and for "not in the fast table".
- Where 255 does not stay free, the assertion behind the limit search fails as well (`JpegHuffman.AssertionIff`).
- Inflating does not refuse the two reserved distance symbols: the distance is zero exactly for them
  (`ZlibRoundTrip.ZeroDistance`), passes the only check on it and copies bytes never written
  (`ZlibRoundTrip.ReservedDistance`).
- The two reserved length symbols 286 and 287 of the fixed code are not refused either; they copy nothing
  (`ZlibRoundTrip.ZeroLength`).
- GIF89a lets a coder go on with a full table for as long as it likes. The decoder refuses it after 8191 strings
  less one for every colour, and draws it up to there (`GifCoder.RoomIff`, `GifCoder.RasterIff`).
- The replacement of a sampler does not hold the digits of its match if these start with a superfluous zero
  (`SourceTransform.KeepsNumber`).
- A decoded JPEG block is the written one times its quantisation table exactly when all products fit 16 bits
  (`JpegRoundTrip.ProductsIff`); 2000 times 255 is cut (`JpegRoundTrip.ProductCut`).
- A DHT segment may announce more symbols than the tables have room for, and nothing checks it: the size list
  with its terminator stays inside `size` exactly when the counts sum to at most 256 (`JpegTable.Table.ListSizes`). Counts of a prefix code can
  sum to 257 (`JpegCounts.OneTooMany`).
- Lengthening GIF codes when `avail & codemask` is zero does what Appendix F of GIF89a asks, to lengthen them when
  they are used up, only with at least two colours (`GifLzw.RulesAgreeIff`). With one colour there are three entries
  for one-bit codes from the start, and the test fires at other sizes (`GifLzw.OneColour`). `GifDecoder` follows
  the code. In the same loop `code == avail` is asked after `avail` was incremented and is never true; the other
  branch reads the entry just written and gives the right byte.
- `preprocess_samplers` always returns false, whatever `transform` reports; the model returns what `transform` returns.

## Model

| member | source | states |
|---|---|---|
| BitReverse.BitReverse16Correct | lib/stb_image/stb_image.h:3850-3857 | the mask-and-shift network reverses the order of sixteen bits, for every 16-bit number |
| BitReverse.BitReverseNCorrect | lib/stb_image/stb_image.h:3859-3865 | reversing a number of `bits` bits through the 16-bit network is reversing exactly those bits |
| Huffman.EndCodeIsKraft | lib/stb_image/stb_image.h:3880-3892 | the last code the builder would assign, counted out to 16 bits, is the Kraft sum of the lengths |
| Huffman.DecodableIff | lib/stb_image/stb_image.h:3886-3888 | the per-length test `code - 1 < 1 << i` passes for every length if and only if the Kraft sum is at most one |
| Huffman.ShortCodesFill | lib/stb_image/stb_image.h:3889 | left-aligned to 16 bits, the codes of at most `l` bits fill exactly the interval below `maxcode[l]` |
| Huffman.MatchUnique | lib/stb_image/stb_image.h:3867-3912 | no window of bits begins with the canonical codes of two symbols |
| Huffman.SymbolNone | lib/stb_image/stb_image.h:3959-3974 | no symbol matches a window exactly when the window lies at or above the limit of the longest codes |
| ZHuffman.Table.Build | lib/stb_image/stb_image.h:3867-3912 | the builder succeeds if and only if the Kraft sum is at most one, and then all six tables are those of the canonical code of section 3.2.2 of RFC 1951 |
| ZHuffman.SlotUnique | lib/stb_image/stb_image.h:3894-3900 | no two symbols are filed in the same slot of `size` and `value` |
| ZBuf.ZBuf.BufferBound | lib/stb_image/stb_image.h:3940-3957 | at every position the buffer holds a number below two to the number of buffered bits |
| ZBuf.ZBuf.FillBits | lib/stb_image/stb_image.h:3940-3947 | filling keeps one position in the zero-padded bit stream and leaves more than 24 bits buffered |
| ZBuf.ZBuf.Receive | lib/stb_image/stb_image.h:3949-3957 | returns the next `n` bits of the stream, first bit lowest, and moves the position by `n` |
| ZBuf.ZBuf.DecodeSlowly | lib/stb_image/stb_image.h:3959-3975 | the search through `maxcode` returns the symbol whose code comes next, or -1, and the assertion on `size` always holds |
| ZBuf.ZBuf.Decode | lib/stb_image/stb_image.h:3977-3989 | fast table plus slow path return the one symbol whose canonical code begins the stream and consume its length; -1 exactly when there is none |
| Inflater.CopyMatch | lib/stb_image/stb_image.h:4055-4061 | both copy loops, the one-byte shortcut included, append what a byte-by-byte back-reference appends, overlapping or not |
| Inflater.ParseHuffmanBlock | lib/stb_image/stb_image.h:4024-4064 | a compressed block yields the bytes and the position that section 3.2.3 of RFC 1951 gives for the bits, or fails where it fails |
| Inflater.DrainBuffer | lib/stb_image/stb_image.h:4119-4128 | at most three buffered bytes are drained, and they are the bytes at the next byte boundary |
| Inflater.StoredHeader | lib/stb_image/stb_image.h:4117-4131 | LEN and NLEN are the four consecutive bytes after the byte boundary, whatever was buffered |
| Inflater.ParseStoredBlock | lib/stb_image/stb_image.h:4115-4142 | a stored block appends exactly the LEN bytes behind its header, or fails on a bad header or a short file |
| Inflater.ComputeHuffmanCodes | lib/stb_image/stb_image.h:4066-4113 | the dynamic header is accepted exactly when it denotes two decodable codes, and the tables built are theirs |
| DeflateHeader.DezigzagIs | lib/stb_image/stb_image.h:4068 | the table of the code-length order is the order of section 3.2.7 of RFC 1951 by rule: the three repeat codes, zero, then outwards from eight |
| DeflateHeader.HeaderHeard | lib/stb_image/stb_image.h:4066-4113 | for all pairs of codes and every way to spell their lengths with the code-length alphabet: the bits a writer of section 3.2.7 puts down are read as those codes |
| DeflateHeader.HeaderFound | lib/stb_image/stb_image.h:4066-4113 | a header that is accepted is one that can be written so |
| DeflateHeader.HeaderIff | lib/stb_image/stb_image.h:4066-4113 | the reader accepts exactly the headers that can be written, as the codes they spell |
| DeflateHeader.EveryPair | lib/stb_image/stb_image.h:4066-4113 | every pair of decodable length lists has such a header |
| Inflater.FixedCodesDecodable | lib/stb_image/stb_image.h:4157-4172 | the fixed literal and distance lengths are valid lists with a Kraft sum of one |
| Inflater.ParseBlock | lib/stb_image/stb_image.h:4195-4208 | each block kind does what its bits denote; kind 3 is an error |
| Inflater.ParseBlocks | lib/stb_image/stb_image.h:4185-4211 | blocks are read until the final one; the output is what the sequence of blocks denotes |
| ZlibRoundTrip.ZeroLength | lib/stb_image/stb_image.h:4043-4045 | a length and distance pair has length zero if and only if its length symbol is one of the two reserved ones, 286 and 287 |
| ZlibRoundTrip.ZeroDistance | lib/stb_image/stb_image.h:4047-4050 | a length and distance pair has distance zero if and only if its distance symbol is one of the two reserved ones, 30 and 31 |
| ZlibRoundTrip.ReservedDistance | lib/stb_image/stb_image.h:4047-4061 | a four-byte stream whose fixed block uses distance symbol 30 is accepted by every check and copies bytes never written |
| Inflater.DecodeZlib | lib/stb_image/stb_image.h:4213-4240 | for every stream that ends and uses no reserved distance: gives the output the stream denotes, and fails exactly when it denotes none |
| DeflateStream.RowsByRule | lib/stb_image/stb_image.h:4010-4022 | the length and distance rows follow the rule of section 3.2.5 of RFC 1951: four lengths, or two distances, to a number of extra bits |
| DeflateStream.BlockHeard | lib/stb_image/stb_image.h:4024-4064 | the tokens of a block, in any pair of codes and behind any output, are read as the bytes they stand for |
| DeflateStream.StoredHeard | lib/stb_image/stb_image.h:4115-4142 | LEN, its complement and the bytes, behind any padding, are read as the bytes |
| DeflateStream.StreamHeard | lib/stb_image/stb_image.h:4185-4211 | any sequence of stored, fixed and dynamic blocks is read as what the blocks stand for, one after the other |
| DeflateStream.HeaderBytesIff | lib/stb_image/stb_image.h:4144-4155 | the two header bytes are accepted exactly as section 2.2 of RFC 1950 has them, without a dictionary |
| DeflateStream.InflateStream | lib/stb_image/stb_image.h:4213-4240 | the inflater returns what any stream of stored, fixed and dynamic blocks stands for, whoever wrote it |
| BitWriter.Writer.Flush | lib/stb_image/stb_image_write.h:767-775 | whole bytes leave the buffer in order; the bits written and pending stay the same sequence |
| BitWriter.Writer.Add | lib/stb_image/stb_image_write.h:808-809 | a field appends its bits, lowest first, to the bits written |
| Compress.BitRev | lib/stb_image/stb_image_write.h:777-785 | the loop reverses the low `codebits` bits |
| Compress.CountMatch | lib/stb_image/stb_image_write.h:787-793 | the longest agreement of the two places, at most 258 and at most the limit |
| Compress.FindMatch | lib/stb_image/stb_image_write.h:852-861 | a match of the chain inside the window that really repeats, and no longer one in the chain |
| Compress.HasLonger | lib/stb_image/stb_image_write.h:869-883 | answers yes if and only if the chain of the next position holds a longer match |
| Compress.Record | lib/stb_image/stb_image_write.h:862-867 | the position joins its chain, a full chain first loses its older half, and chains hold only positions already passed |
| Compress.ChooseMatch | lib/stb_image/stb_image_write.h:850-883 | uses the longest match of the chain unless the next position has a longer one |
| Compress.EmitLength | lib/stb_image/stb_image_write.h:888-890 | the bits of a length 3..258 as section 3.2.5 of RFC 1951 writes it |
| Compress.EmitDistance | lib/stb_image/stb_image_write.h:891-893 | the bits of a distance 1..32767 as section 3.2.5 of RFC 1951 writes it |
| Compress.EmitTokens | lib/stb_image/stb_image_write.h:849-902 | the tokens written so far expand to the input so far; the last bytes go out as literals |
| Deflate.CopyRepeats | lib/stb_image/stb_image_write.h:885-894 | copying back over bytes that really repeat reproduces them, also when source and target overlap |
| Deflate.TokensSize | lib/stb_image/stb_image_write.h:811-816 | fixed codes cost at most nine bits for each byte they stand for |
| FixedCode.NumberIsCode | lib/stb_image/stb_image_write.h:811-816 | the arithmetic of the symbol macros gives the canonical codes of the fixed lengths |
| FixedCode.DistanceIsCode | lib/stb_image/stb_image_write.h:891-892 | five-bit distance codes are the canonical codes of the fixed distance lengths |
| Compress.ZlibCompress | lib/stb_image/stb_image_write.h:823-933 | for every input and quality: the output codes tokens of lengths 3..258 and distances 1..32767 that expand to the input, ends with its Adler-32, and is at most 9/8 of the input and nine bytes long |
| ZlibRoundTrip.TokensRead | lib/stb_image/stb_image.h:4024-4064 | reading the bits of a token list gives the bytes the list expands to |
| ZlibRoundTrip.InflateEncoded | lib/stb_image/stb_image.h:4185-4211 | a stream that codes a token list inflates to its expansion |
| ZlibRoundTrip.CompressThenInflate | lib/stb_image/stb_image_write.h:823-933 | inflating what the compressor writes succeeds and returns the input, for every input and quality |
| Adler.AddBlock | lib/stb_image/stb_image_write.h:918-919 | inside a block no 32-bit sum wraps, and both sums are right modulo 65521 |
| Adler.Adler32 | lib/stb_image/stb_image_write.h:912-922 | the blocked loop computes the sums of section 8.2 of RFC 1950 for every length, zero and multiples of 5552 included |
| PngFilter.PredictIs | lib/stb_image/stb_image.h:4361-4370 | the five predictions are the ones sections 6.2 to 6.6 of RFC 2083 describe, and no others: for Paeth the neighbour nearest to left plus above minus upper left, ties broken in that order |
| PngFilter.ReconMeans | lib/stb_image/stb_image.h:4410-4460 | every reconstructed byte differs from its filtered byte by that prediction from the bytes of the image around it, modulo 256 |
| PngFilter.ReconFiltered | lib/stb_image/stb_image.h:4409-4471 | reconstruction undoes each of the five filters, modulo 256, for every row and every row above it |
| PngFilter.UnfilterLine | lib/stb_image/stb_image.h:4401-4497 | a filtered line appended to filtered lines unfilters to its row appended to their rows |
| PngLines.EncodeLine | lib/stb_image/stb_image_write.h:1003-1037 | all filter kinds, first-row variants included, compute the filtered form of section 6 of RFC 2083 |
| PngLines.DecodeLine | lib/stb_image/stb_image.h:4401-4471 | one line is reconstructed in place, and nothing else is changed |
| PngLines.DecodeLineAlpha | lib/stb_image/stb_image.h:4471-4497 | reconstructing while spreading pixels equals reconstructing and then putting 255 after each pixel |
| PngImage.FlatAlphaIs | lib/stb_image/stb_image.h:4471-4497 | inserting alpha row by row is inserting 255 after every pixel of the whole image |
| PngImage.CreateRaw8 | lib/stb_image/stb_image.h:4373-4500 | the image of 8-bit samples, or failure exactly for bad sizes, too little data or an unknown filter |
| PngUnpack.Ahead | lib/stb_image/stb_image.h:4502-4550 | while whole packed bytes remain, the write position stays left of the byte being read |
| PngUnpack.SamplesMake | lib/stb_image/stb_image.h:4515-4550 | the samples of a byte, the first one highest, make up the byte |
| PngUnpack.LargestSample | lib/stb_image/stb_image.h:4372 | the scale takes the largest grey sample to 255 and leaves palette indices alone |
| PngUnpack.UnpackRow | lib/stb_image/stb_image.h:4515-4550 | unpacking 1-, 2- or 4-bit samples in place equals expanding them out of place, and changes nothing else |
| PngUnpack.SpreadAlpha | lib/stb_image/stb_image.h:4551-4559 | the backward loop puts 255 after every sample of the row |
| PngUnpack.ExpandImage | lib/stb_image/stb_image.h:4502-4570 | every row of the image is the expansion of the bytes packed at its right end, with alpha if asked for |
| PngAdam7.PassSizeCounts | lib/stb_image/stb_image.h:4605-4607 | no pass size wraps in 32 bits: a pass has exactly the columns or rows that fall on its grid |
| PngAdam7.PassByPattern | lib/stb_image/stb_image.h:4599-4604 | the pass of a pixel is the one of the 8 by 8 pattern of section 2.6 of RFC 2083 |
| PngAdam7.OnePass | lib/stb_image/stb_image.h:4599-4604 | every pixel lies on the grid of exactly one of the seven passes |
| PngAdam7.Areas | lib/stb_image/stb_image.h:4605-4607 | the areas of the seven passes add up to width times height |
| PngAdam7.CopyPass | lib/stb_image/stb_image.h:4613-4620 | the copy loops put every pixel of a pass in its place and leave the other passes' pixels alone |
| PngAdam7.CreateInterlaced | lib/stb_image/stb_image.h:4585-4630 | the image is assembled from the pass images found one after the other in the data; it fails exactly when one of them fails |
| PngAdam7.AssembledOnce | lib/stb_image/stb_image.h:4596-4626 | the pass images determine the interleaved image |
| PngPacked.ParkLines | lib/stb_image/stb_image.h:4401-4500 | the lines of a packed image, unfiltered at the right ends of the rows, are the lines the data stand for; it fails exactly on a bad filter byte |
| PngPacked.CreatePacked | lib/stb_image/stb_image.h:4374-4570 | both passes over a grey image of 1-, 2- or 4-bit samples give the samples its lines stand for, scaled and with alpha if asked for, or fail as the data say |
| PngAdam7.Reassembled | lib/stb_image/stb_image.h:4596-4626 | assembling the sub-images of an image, as section 2.6 of RFC 2083 samples them, gives the image back |
| PngWriter.Estimate | lib/stb_image/stb_image_write.h:1067-1071 | the estimate is the sum of the bytes of the line, taken as signed and without their signs |
| PngWriter.FilterLine | lib/stb_image/stb_image_write.h:1058-1081 | the line is filtered with the forced filter, or with one of least estimate among the five |
| PngWriter.FilterImage | lib/stb_image/stb_image_write.h:1055-1085 | the filtered lines unfilter to the rows of the picture, whatever filters were chosen |
| PngWriter.WritePng | lib/stb_image/stb_image_write.h:1039-1123 | the file is the four chunks around a zlib stream that inflates to lines which unfilter to the rows |
| PngReader.ParseHeader | lib/stb_image/stb_image.h:4800-4825 | the IHDR fields and every reason to refuse them |
| PngReader.ParseChunk | lib/stb_image/stb_image.h:4790-4945 | one chunk changes the reader's state as the chunk rules say, or ends the file, or is an error |
| PngReader.FinishImage | lib/stb_image/stb_image.h:4886-4924 | inflate, unfilter, unpack or de-interlace, and alpha after IEND, with the reader's size checks |
| PngReader.ParseFile | lib/stb_image/stb_image.h:4776-4946 | the outcome of parsing is a function of the bytes of the file: the image, an error, or a feature left out |
| PngSpec.KindsSpelt | lib/stb_image/stb_image.h:4795-4886 | the chunk kinds spell the names of the chunks |
| PngFiles.PartsRead | lib/stb_image/stb_image.h:4866-4884 | image data cut into any number of chunks is put together in order, and ancillary chunks anywhere between change nothing |
| PngFiles.FileRead | lib/stb_image/stb_image.h:4776-4946 | however the data is cut and whatever ancillary chunks there are, a file is read as its header and all its data |
| PngFiles.LoadFile | lib/stb_image/stb_image.h:4776-4946 | the reader loads every such file, around any stream of stored, fixed and dynamic blocks, with the picture the stream stands for |
| PngRoundTrip.ChunksRead | lib/stb_image/stb_image.h:4776-4946 | the chunks written bring the parser to its end with the header fields and the data written |
| PngRoundTrip.WriteThenRead | lib/stb_image/stb_image_write.h:1039-1123 | written with any stride, filter and level and read with any requested channels, the rows come back, with 255 for a requested alpha |
| PngRoundTrip.RoundTrip | lib/stb_image/stb_image_write.h:1039-1123 | every 8-bit image of 1..4 channels within the reader's limits is read back with its size, channels and pixels |
| JpegTable.Table.ListSizes | lib/stb_image/stb_image.h:1804-1808 | for all counts: the size list with its terminator stays inside `size` if and only if the counts sum to at most 256, and then it lists the sizes in order |
| JpegTable.Table.Build | lib/stb_image/stb_image.h:1800-1840 | for all counts: the size list with its terminator leaves its array if and only if they sum to more than 256; otherwise the tables are built if and only if the counts make a prefix code, and are those of Annex C of ITU-T T.81 |
| JpegCounts.SizesAre | lib/stb_image/stb_image.h:1804-1808 | the Kraft sum of a segment is the weighted sum of its counts, and every length has the symbols its count says |
| JpegCounts.CodeOf | lib/stb_image/stb_image.h:1810-1826 | symbol `i` of a segment has the length its place among the counts gives, and the code that lies as far behind the first code of that length |
| JpegCounts.OneTooMany | lib/stb_image/stb_image.h:2918-2923 | two codes of 15 bits and 255 of 16 bits are a prefix code of 257 symbols |
| JpegHuffman.DecodeExact | lib/stb_image/stb_image.h:1901-1938 | for tables of at most 255 symbols, or with a long last code, fast table plus `maxcode` search equal canonical decoding |
| JpegHuffman.DecodeAlways | lib/stb_image/stb_image.h:1901-1938 | what the tables answer for every table that is built and every window: the canonical symbol, except for the last code of a full table with at most nine bits, where ten bits are taken and one of the last four symbols is found |
| JpegCounts.FullTable | lib/stb_image/stb_image.h:1901-1912 | one code of 8 bits and 255 of 9 bits: symbol 255 is read as 254 or 255, with ten bits instead of nine |
| JpegHuffman.FullTableMisreads | lib/stb_image/stb_image.h:1901-1912 | a 256-symbol table whose last code has at most nine bits is misread: 255 means both that symbol and no entry |
| JpegHuffman.ExactIff | lib/stb_image/stb_image.h:1891-1938 | decoding is canonical on every window if and only if there are at most 255 symbols or the last code is longer than nine bits |
| JpegReader.Reader.Grow | lib/stb_image/stb_image.h:1869-1885 | stuffed zeros and fill bytes are skipped, a marker stops the reading, and the buffer keeps denoting one position in the data |
| JpegHuffman.AssertionIff | lib/stb_image/stb_image.h:1930-1932 | the assertion behind the limit search holds on every window if and only if there are at most 255 symbols or the last code is longer than nine bits |
| JpegReader.Reader.HuffDecode | lib/stb_image/stb_image.h:1891-1938 | for every table that is built: returns what the tables answer and consumes its bits, which is the symbol whose code comes next, or -1, where 255 stays free as a flag |
| JpegReader.Reader.ExtendReceive | lib/stb_image/stb_image.h:1945-1958 | returns the next `n` bits extended as in figure F.12 of T.81 and consumes them |
| JpegBlock.FastAcExact | lib/stb_image/stb_image.h:1844-1867 | a non-zero entry gives the run, the value and the bit count that decoding the symbol and receiving its bits give |
| JpegBlock.FastTurn | lib/stb_image/stb_image.h:2025-2032 | the short way through the AC loop leaves the same state as the long way |
| JpegBlock.ZigZagPath | lib/stb_image/stb_image.h:1984-1996 | the order starts in the corner and goes on along the diagonals, up and down in turn, as Figure A.6 of ITU-T T.81 draws it |
| JpegBlock.ZigZagInverse | lib/stb_image/stb_image_write.h:1161-1162 | the writer's zigzag order and the reader's de-zigzag order undo each other |
| JpegDecode.BuildFastAc | lib/stb_image/stb_image.h:1844-1867 | every entry of the table is the one its nine bits call for |
| JpegDecode.DecodeAc | lib/stb_image/stb_image.h:2019-2048 | one turn of the AC loop, by either way, does what section F.2.2.2 of T.81 says |
| JpegDecode.DecodeBlock | lib/stb_image/stb_image.h:2000-2050 | the block, the DC value and the position that the bits denote, or failure at a code that does not exist |
| JpegWriter.Writer.WriteBits | lib/stb_image/stb_image_write.h:1164-1179 | appends the bits of a field, highest first; the output is the stuffed form of the whole bytes |
| JpegEncode.CalcBits | lib/stb_image/stb_image_write.h:1229-1237 | category and magnitude bits of a value |
| JpegEncode.ExtendMagnitude | lib/stb_image/stb_image_write.h:1229-1237 | extending the magnitude bits gives the value back |
| JpegEncode.WriteRun | lib/stb_image/stb_image_write.h:1280-1297 | a run of zeros, in pieces of sixteen, and the value behind it are written as run/size codes |
| JpegEncode.ProcessDU | lib/stb_image/stb_image_write.h:1261-1302 | a block is written as its DC difference, its runs and values, and an end-of-block code exactly when zeros remain |
| JpegRoundTrip.AcRead | lib/stb_image/stb_image.h:2019-2049 | reading the run/size codes of a block puts every coefficient in its de-zigzagged place |
| JpegRoundTrip.BlockRead | lib/stb_image/stb_image.h:2000-2050 | the bits of a block decode to its coefficients, times the quantisation table, and to its DC value |
| JpegRoundTrip.ProductsIff | lib/stb_image/stb_image.h:2010-2055 | the decoded block holds the products of coefficients and quantisation entries if and only if all of them fit 16 bits |
| JpegRoundTrip.ProductCut | lib/stb_image/stb_image.h:2010-2055 | 2000 times 255 does not |
| JpegScan.LoadTable | lib/stb_image/stb_image.h:2918-2933 | for every DHT segment: its symbols leave the arrays if and only if there are more than 256; otherwise it gives usable tables if and only if its counts make a prefix code |
| JpegScan.BuildDecoder | lib/stb_image/stb_image.h:2909-2935 | from the two segments of a component come tables that decode its codes, the combined AC table included |
| JpegScan.EncodeScan | lib/stb_image/stb_image_write.h:1452-1456 | blocks of all components are written one after the other, each with its component's prediction |
| JpegScan.WriteScan | lib/stb_image/stb_image_write.h:1429-1466 | the scan with its fill bits and end marker carries all the bits of the blocks |
| JpegScan.DecodeScan | lib/stb_image/stb_image.h:2762-2790 | blocks are read back in order, each with its component's tables and prediction |
| JpegScan.RoundTrip | lib/stb_image/stb_image_write.h:1429-1466 | any sequence of blocks in baseline range, of any components whose codes are those of their segments, comes back in de-zigzagged places, every coefficient times its quantisation entry and cut to 16 bits |
| JpegStandard.Entries | lib/stb_image/stb_image_write.h:1333-1368 | every entry of the four constant code tables is the canonical code of its symbol in the segment sent, or empty for a symbol that is not sent |
| JpegStandard.SendsOwn | lib/stb_image/stb_image_write.h:1306-1368 | for each of the four tables and every symbol the writer can write: its code is the canonical code of that symbol in the segment the writer sends |
| JpegStandard.WriterSound | lib/stb_image/stb_image_write.h:1306-1368 | the luminance and the chrominance component of the writer meet everything the round trip asks of tables |
| JpegStandard.RoundTrip | lib/stb_image/stb_image_write.h:1410-1466 | with the writer's own constants and nothing assumed of tables: any blocks of the three components in baseline range are read back, times the quantisation entries and cut to 16 bits, by a decoder built from the segments sent |
| GifRows.RowsInOrder | lib/stb_image/stb_image.h:6294-6301 | stepping by `step` and skipping passes without rows visits the rows in the order of Appendix E of GIF89a |
| GifRows.OrderDistinct | lib/stb_image/stb_image.h:6488-6494 | no row comes twice in the order, and none outside the frame |
| GifRows.OrderCovers | lib/stb_image/stb_image.h:6488-6494 | every row of the frame is in the order |
| GifRows.OrderLength | lib/stb_image/stb_image.h:6488-6494 | the order has as many rows as the frame |
| GifRows.EveryCell | lib/stb_image/stb_image.h:6278-6302 | every pixel of the frame is visited, for every width and height, interlaced or not |
| GifRows.CellOnce | lib/stb_image/stb_image.h:6278-6302 | no pixel is visited twice, and none outside the frame |
| GifCursor.Cursor.Describe | lib/stb_image/stb_image.h:6464-6494 | a frame is accepted exactly when it lies on the screen, and the cursor starts on its first pixel |
| GifCursor.Cursor.Put | lib/stb_image/stb_image.h:6277-6302 | one colour index is drawn on the pixel its place in the order asks for; past the last pixel it is ignored |
| GifCursor.Cursor.Advance | lib/stb_image/stb_image.h:6291-6301 | the cursor moves to the next pixel of the order |
| GifLzw.DecodeRules | lib/stb_image/stb_image.h:6377-6380 | with at least two colours, testing the mask lengthens the codes exactly when they are used up and below twelve bits |
| GifLzw.OneColour | lib/stb_image/stb_image.h:6377-6380 | with a single colour the mask test and the test for used-up codes give different pictures for the same data |
| GifLzw.RulesAgreeIff | lib/stb_image/stb_image.h:6377-6380 | the mask test decodes every raster as the test for used-up codes does if and only if there are at least two colours |
| GifDecoder.Feed.Take | lib/stb_image/stb_image.h:6343-6345 | the next code is the next `codesize` bits of the sub-blocks' data, first bit lowest |
| GifDecoder.Gif.OutCode | lib/stb_image/stb_image.h:6268-6303 | draws the string of a code, its prefixes first; the prefix of an entry is below the entry, so the recursion ends |
| GifDecoder.Gif.AddCode | lib/stb_image/stb_image.h:6363-6371 | the new entry spells the previous string and the first byte of the current one, also when the code is the new entry itself |
| GifDecoder.Gif.OneCode | lib/stb_image/stb_image.h:6347-6385 | one code does to table, code size and picture what it does to a dictionary of strings, errors included |
| GifDecoder.Gif.ProcessRaster | lib/stb_image/stb_image.h:6305-6388 | the raster draws exactly the indices that decoding with a dictionary of strings yields and ends behind the sub-blocks, or fails where that fails |
| GifCoder.SameTable | lib/stb_image/stb_image.h:6365-6374 | the string the decoder adds is the one the coder added: the last string and the index behind it, also when the code is the one just being added |
| GifCoder.WidthStep | lib/stb_image/stb_image.h:6377-6380 | codes get longer exactly when the number of the next entry does, up to twelve bits |
| GifCoder.Heard | lib/stb_image/stb_image.h:6316-6389 | whatever strings a coder cuts an image into and wherever it sends clear codes, the decoder draws the image, or refuses it when its table is full |
| GifCoder.RasterHeard | lib/stb_image/stb_image.h:6305-6389 | the same for a whole raster |
| GifCoder.RasterIff | lib/stb_image/stb_image.h:6305-6389 | a raster is drawn as an image if and only if some coder can send it for that image and leaves the table room |
| GifCoder.RoomIff | lib/stb_image/stb_image.h:6366-6369 | a coder that sends no clear code is drawn if and only if it sends at most 8191 strings less one for every colour |
| GifCoder.SimpleMaySend | lib/stb_image/stb_image.h:6305-6389 | every image has a coding: a clear code before every index |
| GifCoder.SimpleDraws | lib/stb_image/stb_image.h:6305-6389 | that coding stands for the image and always has room |
| GifCoder.ChunksHeard | lib/stb_image/stb_image.h:6330-6337 | data cut into sub-blocks in any way is put together again |
| GifRoundTrip.FrameRoundTrip | lib/stb_image/stb_image.h:6305-6389 | a frame coded by any coder, in any sub-blocks, shows the image that was coded, every pixel in the colour of its index |
| GifImage.DrawnPixel | lib/stb_image/stb_image.h:6278-6302 | after any raster the pixel of the `n`-th index shows the colour of that index |
| GifImage.NotDrawn | lib/stb_image/stb_image.h:6278-6302 | a pixel whose index did not come is unchanged |
| GifImage.DecodeFrame | lib/stb_image/stb_image.h:6460-6500 | a frame on a cleared canvas is drawn exactly when it lies on the screen and its data decodes, each pixel with its own index |
| TgaWriter.ChoosePacket | lib/stb_image/stb_image_write.h:494-521 | the next packet has 1..128 pixels inside the row, and a run packet only pixels equal to its first |
| TgaWriter.WriteRow | lib/stb_image/stb_image_write.h:490-534 | the packets of a row have 1..128 pixels, tile the row exactly, and the reader's pixel loop turns them into its pixels |
| TgaWriter.WriteRaw | lib/stb_image/stb_image_write.h:393-417 | the rows are written last to first, blue first |
| TgaWriter.WriteRle | lib/stb_image/stb_image_write.h:475-536 | the packets of the image stand for its rows, last to first, blue first |
| TgaWriter.WriteTga | lib/stb_image/stb_image_write.h:462-538 | header and body of the file in both forms |
| TgaSpec.PacketsRead | lib/stb_image/stb_image.h:5596-5651 | the pixel loop turns a list of packets into the pixels it stands for |
| TgaSpec.FlippedTwice | lib/stb_image/stb_image.h:5652-5668 | turning the rows over twice gives the image back |
| TgaSpec.StoredAt | lib/stb_image/stb_image_write.h:359-394 | red and blue change places in every pixel of three channels or more, and nothing else moves |
| TgaSpec.RawByteAt | lib/stb_image/stb_image.h:5541-5574 | where every byte of a loaded uncompressed image lies in the file: rows last one first unless bit 5 of the descriptor is set, colours blue first |
| TgaSpec.StoredTwice | lib/stb_image/stb_image.h:5676-5687 | exchanging red and blue twice gives the pixels back |
| TgaReader.ReadRaw | lib/stb_image/stb_image.h:5564-5569 | rows of an uncompressed image are read to their places, from the bottom up if the header says so |
| TgaReader.ReadRle | lib/stb_image/stb_image.h:5596-5651 | the loop over pixels with its packet counter computes the pixels of the packets |
| TgaReader.InvertRows | lib/stb_image/stb_image.h:5652-5668 | swapping rows in place turns the image over, odd heights included |
| TgaReader.SwapColours | lib/stb_image/stb_image.h:5676-5687 | first and third channel of every pixel are exchanged in place |
| TgaReader.LoadTga | lib/stb_image/stb_image.h:5505-5700 | the outcome of loading is a function of the bytes of the file |
| TgaRoundTrip.ParseWritten | lib/stb_image/stb_image_write.h:462-538 | a written file is loaded with its size, channels and pixels exactly when the reader accepts the size, and is refused as too large otherwise |
| TgaRoundTrip.LargeRefused | lib/stb_image/stb_image.h:5555-5556 | 32768 by 32768 pixels of two channels, whose offsets all fit the writer's `int`, are written and then refused |
| TgaRoundTrip.RoundTrip | lib/stb_image/stb_image_write.h:462-538 | for every size up to 65535 and 1..4 channels, with or without run lengths: the pixels come back if and only if width times height times channels fits an int |
| HdrScanline.FindRun | lib/stb_image/stb_image_write.h:655-662 | the first place where three equal bytes begin, or the end |
| HdrScanline.WriteDumps | lib/stb_image/stb_image_write.h:664-669 | dumps of 1..128 bytes that spell the bytes before the run |
| HdrScanline.WriteRuns | lib/stb_image/stb_image_write.h:672-680 | runs of 1..127 bytes that spell the run |
| HdrScanline.WritePlane | lib/stb_image/stb_image_write.h:652-683 | the nested scan ends, its packets spell the plane, and the reader makes the plane of them |
| HdrScanline.WriteScanline | lib/stb_image/stb_image_write.h:599-686 | the header of the line and packets for its four planes, which the reader makes the planes of |
| HdrScanline.PlanesRead | lib/stb_image/stb_image.h:6836-6855 | packets that spell planes are read as those planes |
| HdrScanline.DecodePlane | lib/stb_image/stb_image.h:6838-6854 | one plane into every fourth byte of the line, and nothing else; a count beyond the line is an error |
| HdrScanline.DecodeLine | lib/stb_image/stb_image.h:6808-6855 | one scanline of any bytes: its planes, interleaved, or the reason why not |
| HdrScanline.RoundTrip | lib/stb_image/stb_image_write.h:599-686 | for every width 8..32767 and any four planes, what is written is read back, whatever surrounds it |
| QueryRing.NextKeeps | lib/tracy/TracyVulkan.hpp:276-282 | handing out an id keeps the invariant, and the slot was reset since it was last handed out |
| QueryRing.CollectKeeps | lib/tracy/TracyVulkan.hpp:206-273 | a collection keeps the invariant: ready ones report the oldest ids in order and reset their slots, others remember the batch |
| QueryRing.RunKeeps | lib/tracy/TracyVulkan.hpp:206-282 | over every run that never fills the ring the invariant holds and nothing handed out or reported is lost |
| QueryRing.RunFromEmpty | lib/tracy/TracyVulkan.hpp:206-282 | over every run: reported ids are a prefix of the ids handed out, a remembered batch lies inside the outstanding slots, no slot is reused before it was reported and reset |
| QueryRing.RefusedBatch | lib/tracy/TracyVulkan.hpp:222-236 | over runs: after a first refusal, any ids handed out and any further refusals, the next ready collection reports exactly the slots that were outstanding up to the end of the pool at that refusal, and none handed out since |
| QueryRing.Drained | lib/tracy/TracyVulkan.hpp:206-273 | three collections that are ready report everything outstanding |
| QueryRing.VkCtx.NextQueryId | lib/tracy/TracyVulkan.hpp:276-282 | hands out the head, which is clean, and moves it around the ring |
| QueryRing.VkCtx.CollectResults | lib/tracy/TracyVulkan.hpp:206-273 | both branches for the count, the not-ready return, the reports with their times and the reset |
| SourceTransform.MatchLocal | tools/tzslc/preprocessor.cpp:19 | a match that lies within a part of the text is a match of the part, and back |
| SourceTransform.SpansIff | tools/tzslc/source_transform.hpp:27-44 | the loop records the true spans of the matches if and only if every rest that still holds a match first occurs in the source at its true offset |
| SourceTransform.TrueSpans | tools/tzslc/source_transform.hpp:27-44 | the true spans are matches of the source, increasing and disjoint |
| SourceTransform.SpliceIsReplace | tools/tzslc/source_transform.hpp:49-55 | splicing true spans from the last to the first is replacing from left to right |
| SourceTransform.WrongShows | tools/tzslc/source_transform.hpp:27-55 | one rest looked up too early always shows: the result and left-to-right replacement differ in a character, counted from the end |
| SourceTransform.TransformIff | tools/tzslc/source_transform.hpp:16-58 | the result is replacement from left to right if and only if every rest that still holds a match first occurs in the source where it is |
| SourceTransform.AdjacentPair | tools/tzslc/source_transform.hpp:36-37 | any match written twice in a row gives a wrong result |
| SourceTransform.RepeatedLine | tools/tzslc/source_transform.hpp:36-37 | any line with one match written three times gives a wrong result: what is left behind the second match occurs behind the first |
| SourceTransform.OneSamplerLine | tools/tzslc/preprocessor.cpp:19 | a concrete line of that kind |
| SourceTransform.Transform | tools/tzslc/source_transform.hpp:16-58 | for every source: replacement from left to right if and only if every rest that still holds a match first occurs where it is; a number that does not fit throws; reports whether there was a match |
| SourceTransform.DigitChars | tools/tzslc/preprocessor.cpp:22-29 | the digits are the characters from 0 to 9 in their order |
| SourceTransform.ValueDecimal | tools/tzslc/preprocessor.cpp:22-29 | the digits of a number are read as the number |
| SourceTransform.DecimalValue | tools/tzslc/preprocessor.cpp:22-29 | any string of digits, read and written again, loses its leading zeros and nothing else |
| SourceTransform.KeepsNumber | tools/tzslc/preprocessor.cpp:22-29 | a replacement holds the digits of its match without leading zeros, so exactly the digits of the match if and only if there are none |
| SourceTransform.NothingLeft | tools/tzslc/preprocessor.cpp:17-32 | after replacement no match remains, not even across the seams of the replacements |
| SourceTransform.SecondRun | tools/tzslc/source_transform.hpp:16-58 | where the transform replaces, its result holds no match, and a second run records no job and changes nothing |

## Left out

- Inflater.DecodeZlib: promises nothing for streams that never end or use a reserved distance; the source reads zeros past the end of the input and may go on for ever, so the claim is for streams that end within some number of blocks and symbols, a ghost parameter.
- Inflater.ParseHuffmanBlock: as for `Inflater.DecodeZlib`; nothing is promised either for the two reserved distance codes, which copy from a distance of zero.
- Inflater.ParseBlock: as for `Inflater.ParseHuffmanBlock`.
- Inflater.ParseBlocks: as for `Inflater.DecodeZlib`.
- PngReader.ParseFile: palettes, transparency chunks, 16-bit samples, CgBI files and samples of less than 8 bits that are interlaced or not grey are reported as outside the model; nothing is promised for an interlaced image too large to allocate, whose allocation the source does not check.
- PngReader.FinishImage: as for `PngReader.ParseFile`.
- PngUnpack.ExpandImage: one channel only; RFC 2083 has no other images of less than 8 bits, though the header check lets them through.
- PngPacked.CreatePacked: grey images only, as for `PngUnpack.ExpandImage`.
- PngAdam7.CreateInterlaced: 8-bit samples; the allocation of the final image always succeeds.
- PngWriter.FilterLine: the least estimate is claimed for lines shorter than 2^24 bytes, where the `int` sum cannot overflow.
- PngWriter.WritePng: the CRC is a function parameter, because the reader skips checksums; flipping on write is off.
- Compress.ZlibCompress: 32-bit bit buffer and `int` lengths are not exceeded by the model's sizes; malloc and the stretchy buffers always succeed.
- JpegTable.Table.Build: says that a size list of more than 256 symbols leaves its array with its terminator at the latest, not what is overwritten then.
- JpegReader.Reader.HuffDecode: promises nothing for a code that runs past the data, where the source uses zeros; the assertion behind the limit search is not part of the method, `JpegHuffman.AssertionIff` says when it holds.
- JpegReader.Reader.ExtendReceive: promises nothing for bits past the data.
- JpegDecode.DecodeAc: promises nothing when the data runs out.
- JpegDecode.DecodeBlock: promises nothing when the data runs out or a DC category above 15 is read; `int` overflow of the DC prediction is not modelled.
- JpegScan.DecodeScan: for data the writer wrote, which has no restart markers.
- JpegScan.RoundTrip: components are arbitrary, so their codes are required to be the canonical ones of their segments; `JpegStandard.RoundTrip` discharges this for the writer's constants. Restart markers are not used by the writer.
- GifDecoder.Gif.ProcessRaster: a picture half drawn when an error is met is not described.
- GifImage.DecodeFrame: a first frame on a cleared canvas; disposal of earlier frames and colour table parsing are not modelled.
- TgaReader.LoadTga: colour maps and 15- or 16-bit colours are reported as outside the model; bytes that an uncompressed file does not hold are not defined by the source either.
- TgaWriter.WriteTga: the writer computes the offset of a pixel, or of a row with run lengths, in an `int`; for images whose offsets do not fit, the overflow is not modelled and the contract does not speak of the code.
- TgaRoundTrip.ParseWritten: as for `TgaWriter.WriteTga`; most sizes the reader refuses are sizes the writer's offsets do not fit, and `TgaRoundTrip.LargeRefused` is one whose offsets do.
- TgaRoundTrip.RoundTrip: as for `TgaWriter.WriteTga`; the refusal as too large speaks of the code only while the writer's offsets fit an `int`.
- HdrScanline.DecodePlane: as for `HdrScanline.DecodeLine`.
- HdrScanline.DecodeLine: promises nothing when the zeros past the file are read as empty dumps, where the source does not end; flat scanlines are only recognised.
- QueryRing.VkCtx.CollectResults: the on-demand branch that clears the ring while no profiler is connected is not modelled, nor is calibration.
- SourceTransform.Transform: the regular expression engine is a function for the one pattern; builds without a graphics backend are not modelled.
- JPEG transforms, quantisation from floats, colour conversion, up-sampling, SIMD kernels and progressive scans; RGBE float conversion.
- BMP, PSD, PIC and PNM loaders and the BMP writer: long, and mostly straight-line.
- CRC-32 contents.
- `src/core` and `src/gl`: window, OpenGL and Vulkan calls around data that is not computed there.
- The other Tracy headers and the allocator library: foreign calls, or simpler forms of the same ring.
