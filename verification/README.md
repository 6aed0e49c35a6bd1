# A verified model of png-mask.py

`scripts/png-mask.py` turns an 8-bit RGBA PNG into a grayscale coverage mask: it parses the chunks of the
source, decompresses the joined IDAT bodies, undoes the row filters in place, keeps the alpha bytes,
quantises them to sixteen levels, filters the result row by row with the cheapest of the five PNG filters,
and writes a three-chunk grayscale PNG. This project models that codec in Dafny and proves what it
promises. The formats are those of RFC 2083.

`dafny verify dfyconfig.toml` checks the whole project.

| file | what it holds |
|---|---|
| `Bytes.dfy` | bytes, Python slices and slice assignment, big-endian words, the exceptions as `Result` |
| `Raster.dfy` | rows in flat buffers: flattening and cutting |
| `Predictor.dfy` | the predictors, what Average and Paeth mean, and the equations of the filter types |
| `Filters.dfy` | filtering and reconstructing rows and images at any pixel distance; the raw stream |
| `Planes.dfy` | distance 4 against distance 1: the four byte planes |
| `Reader.dfy` | the in-place unfilter loops and the row loop of `read_rgba`; the two-dimensional recurrence |
| `Writer.dfy` | the filter loops of `write_gray`; optimality of its choice |
| `Chunks.dfy` | the `chunks` loop and the inner `chunk`; how the end of the data decides where the loop stops |
| `Quantiser.dfy` | `quantise` in exact rationals |
| `PngFile.dfy` | whole files read and written, byte by byte |
| `Pipeline.dfy` | the main block, from source file to mask file |

A loop of the script is a method over arrays and reassigned sequences; its contract equates the outcome with
a specification function, and the lemmas are about that function. Every exception is a value: a method
returns `Err` exactly where the script raises. zlib is a pair of functions of which only
`decompress(compress(x)) == x` is ever assumed, and the CRC is any function.

`Span(h, n)` stands for `h * n`, by repeated addition, so that proofs about offsets stay linear
(`Raster.SpanIsProduct`). Rows are filtered under a prediction rule, a function of the three neighbours, so that
what holds of every rule is proved without looking into the five; `RuleOf(f)` is the rule of filter type `f`. What
the five mean is `Predictor.Encoded`, one equation mod 256 for each type over the bytes concerned: both the
reader's output and the writer's stream are characterised by it (`Reader.DecoderMeetsRecurrence`,
`Writer.StreamMeetsRecurrence`).

Where the code departs from what one would expect, the model follows the code:

- A filter type byte outside 1..4 is read as "none".
- The reader never compares a CRC. How a file ends decides what becomes of it, and `Chunks.ParserStops` says so
  in both directions: whole chunks are parsed to the end; a last chunk that has lost bytes, but not its length
  field, is accepted as far as it reaches (`CutExample`); one to three bytes behind the last whole chunk are an
  error. So a file may lose up to eight bytes of its IEND, or all of it, unnoticed (`LostEnd`), but not nine to
  eleven (`StrayEnd`).
- The promise that the reader returns `width * height * 4` bytes is false. A stream that ends inside its last
  row is accepted when that row's filter never touches the missing bytes, and the image comes out short:
  `ShortImageExample` is an input, `Readable` is the exact condition for acceptance, `FullSizeExactly` says
  when the size is right, and `ShortImageTail` says what the short image is. The main block then fails on it
  (`AlphaExactly`).
- The reader refuses every mask the writer makes, since it wants RGBA (`ReaderRefusesMask`). Decoding a mask
  therefore means the reader's row decoder at distance 1.
- `quantise` raises for one level only; zero and negative level counts give the table of their mirror image
  (`MirroredLevels`).

## Model

| member | source | states |
|---|---|---|
| Bytes.Be32RoundTrip | scripts/png-mask.py:59 | packing a 32-bit word and unpacking it are inverse, both ways |
| Bytes.Be32Order | scripts/png-mask.py:115 | words are ordered exactly as their four bytes, compared from the first on; with the round trip this leaves big-endian and no other packing (section 2.1 of RFC 2083) |
| Bytes.WordWeights | scripts/png-mask.py:59 | the bytes of an unpacked word weigh 2^24, 2^16, 2^8 and 1, in this order |
| Predictor.PaethIsNearest | scripts/png-mask.py:99-106 | the predictor is the one neighbour nearest to a + b - c with ties in the order a, b, c, and no other value is |
| Predictor.AverageIsHalf | scripts/png-mask.py:92 | the Average predictor is the one integer q with 0 <= a + b - 2q <= 1: half, rounded down |
| Filters.PlusMinusExactly | scripts/png-mask.py:84-107 | adding the prediction and taking it away give exactly the bytes that meet the equation of the filter type mod 256 (sections 6.2 to 6.6 of RFC 2083), which `Predictor.Encoded` states without any predictor function |
| Filters.ReconRowAt | scripts/png-mask.py:84-107 | each rebuilt byte is its filtered byte plus the prediction from already rebuilt neighbours, mod 256 |
| Filters.RowBijection | scripts/png-mask.py:84-107 | for every prediction rule, distance and row above, a row rebuilds from a filtered row if and only if it filters to it |
| Filters.ReconstructFilterImage | scripts/png-mask.py:118-155 | whatever filter type each row is given, the rebuilt image is the original |
| Filters.ImageBijection | scripts/png-mask.py:81-109 | a stream of scanlines rebuilds to an image if and only if it is that image filtered with the stream's own types |
| Filters.LinesOfSerialise | scripts/png-mask.py:153-154 | the written stream has n + 1 bytes per row and is taken apart into the same scanlines, whatever follows it |
| Filters.SerialiseLines | scripts/png-mask.py:81-83 | conversely the first rows of a stream are exactly the bytes of its scanlines: none skipped, none used twice |
| Planes.PlaneOfReconRow | scripts/png-mask.py:84-107 | one plane of a row rebuilt at distance 4, under any prediction rule, is that plane of the filtered bytes rebuilt at distance 1 |
| Planes.ChannelSeparation | scripts/png-mask.py:77-109 | reconstruction of RGBA rows at distance 4 is the interleaving of the four planes rebuilt on their own at distance 1 |
| Planes.PlaneIndependence | scripts/png-mask.py:77-109 | streams that agree on the filter types and on one plane of filtered bytes agree on that plane of the image |
| Reader.UndoSub | scripts/png-mask.py:84-86 | in place, the row becomes its reconstruction; fails exactly when the row is cut short where the loop reads it |
| Reader.AddAt | scripts/png-mask.py:86 | the store all four loops end in: bytes before x are rebuilt, bytes from x on are still filtered, and x moves on by one |
| Reader.UndoUp | scripts/png-mask.py:87-89 | same for Up, from the row above |
| Reader.UndoAverage | scripts/png-mask.py:90-93 | same for Average, from bytes already rebuilt in place and the row above |
| Reader.UndoPaeth | scripts/png-mask.py:94-107 | same for Paeth |
| Reader.PredictPaeth | scripts/png-mask.py:99-106 | the reader's inline copy computes the one Paeth predictor |
| Reader.Unfilter | scripts/png-mask.py:84-107 | the branch on the filter byte: other values leave the row alone |
| Reader.ReadRow | scripts/png-mask.py:82-107 | a row is rebuilt from its own bytes and the row above; fails exactly when bytes are missing that its filter reads |
| Reader.ReadRaw | scripts/png-mask.py:77-110 | the row loop, its hand-over of `prev` and its slice assignments give the rebuilt rows end to end if and only if the stream is readable, and IndexError otherwise |
| Reader.DecoderMeetsRecurrence | scripts/png-mask.py:77-109 | given all rows, the output is the one image in which at every place the raw byte, the final byte and its final left, above and above-left bytes (zero outside the image) meet the equation of the row's filter type |
| Reader.ByteDecoded | scripts/png-mask.py:81-108 | the same equation at flat offsets: raw byte at y * (stride + 1) + 1 + x, filter type in front of its row, neighbours bpp and stride bytes back in the output |
| Reader.FullSizeExactly | scripts/png-mask.py:78-110 | an accepted image has height * stride bytes if and only if no byte of the stream is missing, and never more |
| Reader.ShortImageTail | scripts/png-mask.py:83-108 | what a tolerated short last row leaves: the complete rows and then the remaining raw bytes unchanged |
| Reader.ShortImageExample | scripts/png-mask.py:78-110 | a concrete stream that is accepted and yields no pixel |
| Reader.StreamingPrefix | scripts/png-mask.py:80-109 | the first k rows depend only on the first k * (stride + 1) bytes; decoding that prefix gives a prefix of the image, and surplus bytes are ignored |
| Reader.StreamEncodesExactly | scripts/png-mask.py:77-110 | a full-size image is returned if and only if the stream begins with that image's rows, each filtered under some type |
| Writer.PredictPaeth | scripts/png-mask.py:141-148 | the writer's inline copy computes the same Paeth predictor as the reader's |
| Writer.FilteredByte | scripts/png-mask.py:132-149 | the five-way choice gives the byte minus its prediction, mod 256, which meets the equation of the filter type |
| Writer.Candidate | scripts/png-mask.py:126-149 | a candidate is the row filtered from the unfiltered row above; fails exactly when the line is short |
| Writer.CandidateEncodes | scripts/png-mask.py:127-149 | every byte of every candidate row, chosen or not, meets the equation of its filter type with its left, above and above-left bytes, zero to the left of the row |
| Writer.ChooseFilter | scripts/png-mask.py:124-152 | the running minimum ends at the best filter and its row |
| Writer.CostIsSignedMagnitude | scripts/png-mask.py:150 | a byte costs the one number from 0 to 128 that is congruent to it, or to its negative, mod 256 (section 9.6 of RFC 2083) |
| Writer.ScoreIsSum | scripts/png-mask.py:150 | a score is a sum: nothing scores 0, one byte scores its cost, and stretches score what their parts score together |
| Writer.PickIsCheapest | scripts/png-mask.py:124-152 | on every row the pick is the only filter with the least score and, among equals, the lowest number |
| Writer.FlatRowExample | scripts/png-mask.py:124-154 | a first row of four bytes 17 scores 68, 17, 68, 44 and 17, and is written as Sub, 17, 0, 0, 0 |
| Writer.FilterGray | scripts/png-mask.py:118-155 | the row loop gives the stream of the image's rows if and only if the image has height * width bytes, and IndexError otherwise |
| Writer.RasterRoundTrip | scripts/png-mask.py:118-155 | the stream rebuilds to exactly the image, has height * (width + 1) bytes, and every row's type is in 0..4 |
| Writer.StreamMeetsRecurrence | scripts/png-mask.py:118-155 | the written stream meets the equations of sections 6.2 to 6.6 of RFC 2083 at every byte of the image, at distance 1 |
| Writer.GreedyIsOptimal | scripts/png-mask.py:122-154 | among all streams that rebuild to the image, whatever their filter bytes, none has a smaller total score (section 9.6 of RFC 2083) |
| Writer.TotalIsScoreOfAll | scripts/png-mask.py:150-154 | the total being minimised is the score of all filtered bytes of the image end to end |
| Writer.GreedyBeatsAssignments | scripts/png-mask.py:122-154 | in particular none of the assignments of filter types to rows does |
| Writer.FirstRowFilter | scripts/png-mask.py:119-152 | the first row never uses Up or Paeth |
| Writer.NarrowFilter | scripts/png-mask.py:127-152 | an image one byte wide never uses Sub or Paeth |
| Chunks.ParseChunks | scripts/png-mask.py:56-62 | the loop yields the chunks of the specification and stops where it stops; the offset grows, so it ends |
| Chunks.TurnTaken | scripts/png-mask.py:59-62 | one turn at offset i yields the chunk with kind at i + 4 and body from i + 8, as long as the word at i says, and goes on at i + 8 + length + 4 |
| Chunks.FramingRoundTrip | scripts/png-mask.py:56-62 | the parser yields given chunks and ends exactly at the end of the data if and only if the data is those chunks printed, with any check bytes |
| Chunks.ParseFrames | scripts/png-mask.py:114-116 | printed chunks are yielded first, and what follows them is parsed as if it stood alone |
| Chunks.ChunkFields | scripts/png-mask.py:114-116 | a printed chunk is the length of its body, its kind, its body, and the low 32 bits of the checksum of everything between the length and the checksum |
| Chunks.ParserStops | scripts/png-mask.py:57-62 | the loop stops at the end, short of it, or beyond it if and only if the data is printed chunks, those and one to three bytes, or those and a cut chunk |
| Chunks.CutFrameExactly | scripts/png-mask.py:59-61 | a byte string is a proper prefix, of four bytes or more, of a printed chunk if and only if it is shorter than its length field says |
| Chunks.CutParses | scripts/png-mask.py:60-62 | the chunks in front of a cut chunk are yielded whole, the cut one as far as it reaches, and the offset passes the end |
| Chunks.StrayParses | scripts/png-mask.py:59 | the chunks in front of stray bytes are yielded whole, and the offset stays short of the end |
| Chunks.CutExample | scripts/png-mask.py:60-62 | a chunk of nine bytes cut after the first byte of its kind is yielded, with that byte as its kind and no body |
| Quantiser.RoundIsNearest | scripts/png-mask.py:169 | rounding gives the nearest integer, the even one of two, and nothing else does |
| Quantiser.StepsNeverTie | scripts/png-mask.py:169 | the inner rounding is off by less than one half always; the outer by at most one half |
| Quantiser.LevelExactly | scripts/png-mask.py:167-170 | for two or more levels an entry is exactly the nearest integer to the nearest whole number of steps, even ones winning ties in both roundings |
| Quantiser.ValueTieExample | scripts/png-mask.py:169 | the outer rounding does tie, at three levels |
| Quantiser.ClampNeverActs | scripts/png-mask.py:169 | for two or more levels every value is in 0..255 before the clamp |
| Quantiser.QuantiseOrder | scripts/png-mask.py:167-170 | the table is monotone and fixes 0 and 255 |
| Quantiser.QuantiseError | scripts/png-mask.py:167-170 | no byte moves by more than (step + 1) / 2 |
| Quantiser.ShippedLevels | scripts/png-mask.py:164-170 | at sixteen levels the result is the one multiple of 17 within 8 of the byte |
| Quantiser.QuantiseIdempotent | scripts/png-mask.py:167-170 | for every level count there is a table for, quantising twice is quantising once |
| Quantiser.QuantiserImage | scripts/png-mask.py:167-170 | for 2 to 256 levels the table takes exactly that many values, which are exactly its fixed points |
| Quantiser.FineTableIsIdentity | scripts/png-mask.py:167-170 | from 256 levels on nothing changes |
| Quantiser.MirroredLevels | scripts/png-mask.py:168-169 | a negative step undoes its own sign |
| PngFile.HeaderRoundTrip | scripts/png-mask.py:158 | the header body unpacks to the fields it was packed from (section 4.1.1 of RFC 2083) |
| PngFile.PackedFields | scripts/png-mask.py:158 | the header body holds width in bytes 0 to 3, height in 4 to 7, and then depth 8, the colour type and three zeros |
| PngFile.ReadRgba | scripts/png-mask.py:65-110 | the whole reader, with the order in which its errors take effect |
| PngFile.ReaderReturnsExactly | scripts/png-mask.py:65-110 | which image is returned, if and only if: thirteen-byte IHDR bodies with depth 8 at byte 8, colour type 6 at byte 9 and interlace 0 at byte 12, the width and height in bytes 0 to 7 of the last of them, and the rows of the joined and decompressed IDAT bodies |
| PngFile.ReaderAcceptsExactly | scripts/png-mask.py:65-110 | if and only if condition for some image to be returned, stated over the bytes: among others bytes 8, 9 and 12 of every IHDR body, and a stream readable at the size in bytes 0 to 7 of the last one |
| PngFile.FirstBadDecides | scripts/png-mask.py:71-73 | the first IHDR body that is not so ends the reader: by a StructError if it has not thirteen bytes, by a BadHeader otherwise |
| PngFile.ReaderErrors | scripts/png-mask.py:65-110 | which error the reader ends in otherwise, and in which order they take effect |
| PngFile.SplittingIsInvisible | scripts/png-mask.py:67-76 | any two byte strings with the same first eight bytes, the same IHDR chunks and the same joined IDAT bodies, that break off the same way, read the same, image or error |
| PngFile.CutIdat | scripts/png-mask.py:70-76 | cutting an IDAT into any number of them, with any chunks but IHDR in between, changes nothing, behind any chunks and in front of any bytes |
| PngFile.LostEnd | scripts/png-mask.py:57-62 | a file without up to eight bytes of its IEND, or without all of it, reads as before |
| PngFile.StrayEnd | scripts/png-mask.py:59 | a file that keeps one to three bytes of its IEND breaks the reader, unless a chunk in front did |
| PngFile.ReaderRecoversImage | scripts/png-mask.py:65-110 | a full-size image is returned if and only if the file carries it: with any filter types, compression, cutting, other chunks and check bytes |
| PngFile.PlainFileEncodes | scripts/png-mask.py:65-110 | a header, one IDAT with the compressed stream of an image and an end are a file that carries it |
| PngFile.WriteGray | scripts/png-mask.py:113-160 | the whole writer: the specified file, or the error of the first step that fails |
| PngFile.WrittenBytes | scripts/png-mask.py:157-160 | a written file byte by byte, n of them compressed stream: signature and IHDR with width, height, 8, 0, 0, 0, 0 in 33 bytes, IDAT in 12 + n, IEND in 12, as literals and words at fixed offsets, each checksum that of the kind and body in the file |
| PngFile.WholeFileRoundTrip | scripts/png-mask.py:113-160 | a file is made if and only if the image is complete and sizes fit 32 bits; its chunks are IHDR (width, height, 8, 0, 0, 0, 0), one IDAT and IEND, and the IDAT decodes to the image; otherwise an IndexError if bytes are missing, a StructError if not |
| PngFile.ReaderRefusesMask | scripts/png-mask.py:73 | the reader refuses every file the writer makes |
| Pipeline.MakeMask | scripts/png-mask.py:178-180 | the main block: read, take alpha, quantise, write |
| Pipeline.AlphaExactly | scripts/png-mask.py:179 | the alpha of a decoded image can be taken if and only if its stream had all its bytes |
| Pipeline.AlphaIsGrayPlane | scripts/png-mask.py:179 | the alpha taken is what the alpha bytes of the raw stream rebuild to as a gray image of their own |
| Pipeline.MaskMadeExactly | scripts/png-mask.py:178-180 | a mask is made if and only if the source is read with all its pixels and the compressed mask fits a chunk; otherwise the script ends in an IndexError or a StructError |
| Pipeline.MaskShowsAlpha | scripts/png-mask.py:178-180 | decoding the mask gives at every pixel the quantised alpha of the same source pixel |
| Pipeline.MaskDetermines | scripts/png-mask.py:179-180 | two images have the same mask if and only if they have the same size and the same quantised alpha |
| Pipeline.MaskIsStable | scripts/png-mask.py:178-180 | an image whose alpha is a decoded mask gives that mask again, byte for byte |
| Pipeline.TwiceIsOnce | scripts/png-mask.py:178-180 | any file that carries an image built around a decoded mask, with any colours, filter types and chunks, goes through the pipeline to the same mask file |

## Left out

- `checked_path`, argument handling, opening and writing files, and printing: path and I/O plumbing.
- zlib and CRC-32 internals: library code outside the repository; an inverse pair and an arbitrary function here. The compression level is part of that function.
- Quantiser.Round: exact fractions in place of binary floating point. At the shipped sixteen levels the step is the integer 17 and no fraction comes near a tie; for other level counts the rounding of the float division itself is not modelled.
- Running out of memory on a large header size.
- Laziness of the `chunks` generator: the chunks are collected first; the errors still take effect in the order of the script.
- `prev = line` in the reader shares the buffer, as in the script; in the writer, where neither is changed afterwards, rows are values.
- The other parts of the repository (the Rust crates, the schema fixture script, translations): not part of this model.
