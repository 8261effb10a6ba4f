# png_decode in Dafny

A model of `png_decode`, a small PNG reader written in Rust. The reader
splits a PNG file into its chunks (`read_chunks`, built on the big-endian word
reader `eat_u32`). It decodes the IHDR header (`process_ihdr`). `process_png`
checks the header fields, gathers the IDAT payloads, checks the closing IEND
chunk, inflates the image data and hands it to `convert_to_rows`. That
function undoes the per-scanline filters of 8-bit truecolour images
(`filter_pixel`, `paeth_predictor`). `process_png` finally counts the black
pixels of the rows it gets back.

Every `assert!`, out-of-range index and `panic!` of the original becomes an
error value (`Result`/`Option`). The decompressor is a parameter of the
model: a total function from bytes to bytes, because the original ignores the
result of `read_to_end`.

Modules, one per part of `src/lib.rs`:

- `Bytes`: the byte and 32-bit word types, `Result`/`Option`, and `eat_u32`.
- `Chunks`: `read_chunks` as a loop proved against the recursive reading
  `ChunksFrom`, with a record encoder and the framing round trip.
- `Header`: `IHDRInfo` and `process_ihdr`, with the header round trip.
- `Filter`: `RGBA`, `filter_pixel` and `paeth_predictor`. It adds the
  inverse filter and the proof that the Paeth predictor picks the nearest
  neighbour.
- `Rows`: `convert_to_rows` as written.
  - Its column loop works over an `array` like the original's `build`.
  - The rows it computes and drops are handed out in a ghost out-parameter.
  - `ConvertOutcome` states exactly when it panics.
- `Unfilter`: scanline reconstruction as section 9 of the PNG specification (ISO/IEC 15948:2003) defines it.
  - It fails on exactly the inputs `convert_to_rows` fails on.
  - It is proved to invert a scanline filter encoder.
- `Findings`: concrete inputs on which `convert_to_rows` departs from that
  reconstruction.
- `Pipeline`: `process_png` and the corrected decoder `DecodePng`.
  - An end-to-end lemma goes from file bytes to the image.

## Model

| member | source | states |
|---|---|---|
| Bytes.EatU32 | src/lib.rs:11-19 | the word is the four bytes at the cursor, most significant first; encoding it gives those four bytes back; the cursor moves by 4 |
| Bytes.U32BytesDecode | src/lib.rs:11-19 | reading the four big-endian bytes of any word gives the word back |
| Bytes.BigEndian32Injective | src/lib.rs:11-19 | the word read determines the four bytes it came from |
| Bytes.BigEndian32OfBytes | src/lib.rs:11-19 | a word is read back from wherever its encoding is placed |
| Chunks.ReadChunks | src/lib.rs:21-35 | the loop from offset 8 yields `ChunksFrom(contents, 8)`, the records in file order, or the first record cut off by the end of the file |
| Chunks.ChunksFromErrors | src/lib.rs:24-30 | a failure names an offset at or after the cursor where the length/type words or the payload really run past the end |
| Chunks.ChunksFromStep | src/lib.rs:25-31 | one loop turn: a record whose payload fits becomes a chunk of its type and payload, and reading resumes after its 4-byte CRC |
| Chunks.ChunksFromLayout | src/lib.rs:24-33 | after a successful read, record k starts at the sum of the framed sizes before it; its length word, type word and payload are those of chunk k |
| Chunks.ChunksFromCoverage | src/lib.rs:24-33 | the records read cover the rest of the file, and each starts before its end |
| Chunks.EncodedChunkAt | src/lib.rs:25-28 | an encoded record's length word, type word and payload are read back wherever it is placed |
| Chunks.ChunksFromRecord | src/lib.rs:24-31 | an encoded record at the cursor is read as its chunk, in front of what follows |
| Chunks.ChunksFromEncoded | src/lib.rs:21-35 | framing round trip: records laid out by `EncodeChunks` are read back as exactly those chunks, whatever the CRCs |
| Chunks.ReadChunksOfFile | src/lib.rs:21-35 | an 8-byte signature followed by encoded records is read as those records |
| Header.ProcessIhdr | src/lib.rs:59-71 | it succeeds exactly on 13-byte payloads, fails with the payload's length otherwise, and encoding the decoded header gives the payload back |
| Header.ProcessIhdrEncoded | src/lib.rs:59-71 | header round trip: the payload written for any header, in a chunk of any type, decodes to that header |
| Filter.WrappingAdd | src/lib.rs:123-126 | `u8::wrapping_add`: the sum, or the sum less 256 |
| Filter.PaethPredictor | src/lib.rs:135-147 | the result is one of a, b, c; none of them is nearer to a + b - c; with b and c zero it is a, with a and c zero it is b |
| Filter.NearestIsNearest | src/lib.rs:140-146 | the first-nearest choice is a candidate and no candidate is nearer |
| Filter.PaethIsNearest | src/lib.rs:135-147 | the predictor is the first of a, b, c nearest to a + b - c: ties go to a, then b |
| Filter.FilterRoundTrip | src/lib.rs:118-131 | for every filter type 0 to 4, filtering and `filter_pixel`'s unfiltering with the same neighbours invert each other |
| Filter.FilterPixel | src/lib.rs:118-131 | it fails exactly on filter types above 4, with that type; otherwise channels 0 to 2 are the stored byte plus the type's predictor mod 256 and alpha is 0 |
| Rows.ConvertOutcome | src/lib.rs:79-116 | a successful `convert_to_rows` returns no rows |
| Rows.ScanlineStartIsProduct | src/lib.rs:84-88 | scanline `rownum` starts at `rownum * row_width`, with `row_width` three bytes per pixel plus the filter byte |
| Rows.ScanlineOffsets | src/lib.rs:84-88 | every scanline below the height ends no later than where scanline `height` would start |
| Rows.FirstRowFailureNone | src/lib.rs:87-113 | no scanline from `from` on panics exactly when the data holds all the remaining scanlines and, for a non-empty width, each of their filter bytes is at most 4 |
| Rows.ConvertOutcomeOk | src/lib.rs:79-116 | `convert_to_rows` returns exactly when the header says 8-bit truecolour, the data holds height scanlines, and, for a non-empty width, every filter byte is at most 4 |
| Rows.UnfilterScanline | src/lib.rs:92-113 | the column loop panics exactly as `RowFailure` says; otherwise `build` holds each stored pixel unfiltered against the previous stored pixel and a zero row above |
| Rows.ConvertScanline | src/lib.rs:87-113 | one row pass: the filter byte, then the column loop; failure exactly as `RowFailure` says, otherwise the scanline's pixels |
| Rows.ConvertToRows | src/lib.rs:79-116 | the outcome is `ConvertOutcome`; on success the dropped rows were computed for all height scanlines |
| Unfilter.DecodeRowsFailsLikeConvert | src/lib.rs:87-113 | reconstruction fails exactly on the first scanline the original panics on, with the same error; otherwise one row of width pixels per remaining scanline |
| Unfilter.DecodeImageFailsLikeConvert | src/lib.rs:79-116 | the corrected decoder fails exactly where `convert_to_rows` does, with the same error; on success it yields height rows of width pixels |
| Unfilter.RawPixelOfFiltered | src/lib.rs:98-102 | the stored pixel read back from an encoded scanline is the filtered pixel |
| Unfilter.UnfilterPrefixStep | src/lib.rs:97-111 | when the stored pixel of a column is the original filtered against the original neighbours, reconstruction extends a correct prefix of the row by that column's original pixel |
| Unfilter.UnfilterPrefixOfFiltered | src/lib.rs:97-113 | a scanline filtered against the row above reconstructs to the row, column by column |
| Unfilter.EncodeRowsSplit | src/lib.rs:87-90 | encoded scanlines lie one stride apart |
| Unfilter.DecodeRowsEncoded | src/lib.rs:87-114 | the scanlines of an image reconstruct to its rows, each carried forward as the next one's `up` |
| Unfilter.DecodeImageEncoded | src/lib.rs:79-116 | image round trip: an 8-bit truecolour image filtered with any filter types 0 to 4 decodes back to itself |
| Findings.RowsDiscarded | src/lib.rs:115 | a valid 1x1 image yields no rows, while its reconstruction is the one pixel |
| Findings.LeftIsStoredPixel | src/lib.rs:105-111 | under Sub the third of three stored (1,1,1) pixels comes out (2,2,2); reconstruction gives (3,3,3) |
| Findings.UpIsAlwaysZero | src/lib.rs:103-112 | under Up a stored (1,1,1) below (5,5,5) comes out (1,1,1); reconstruction gives (6,6,6) |
| Pipeline.CountBlackPixels | src/lib.rs:171-178 | the nested loop counts the pixels whose three colour samples are 0 |
| Pipeline.ProcessPng | src/lib.rs:149-181 | header, method assertions, IDAT gathering from index 1 to the one before last, IEND checks, inflate, `convert_to_rows`, count; the count of a successful run is always 0 |
| Pipeline.CheckedHeaderOk | src/lib.rs:150-165 | the checks before inflation pass exactly when there is a chunk, the first has 13 payload bytes with bytes 10 to 12 zero, and the last is IEND with an empty payload |
| Pipeline.PngOutcomeOk | src/lib.rs:149-178 | `process_png` reaches the count exactly when those checks pass, the header is 8-bit truecolour, the inflated data holds every scanline and every filter byte is at most 4 |
| Pipeline.BlackInRowBounds | src/lib.rs:173-177 | a row has at most as many black pixels as pixels: none exactly when no pixel is black, all exactly when every pixel is |
| Pipeline.BlackPixelsNone | src/lib.rs:171-178 | the count is 0 exactly when no pixel of any row is black |
| Pipeline.DecodePngFailsLikeProcess | src/lib.rs:149-169 | the corrected decoder fails exactly where `process_png` does, with the same error; otherwise it yields height rows of width pixels |
| Pipeline.DecodeEncodedPng | src/lib.rs:149-178 | end to end: a file of signature, header, one IDAT and an empty IEND is read as those chunks. If the IDAT inflates to a filtered image, the corrected decoder yields the image and `process_png` reports 0 |

## Left out

- File I/O (`read_png`) is not modelled. The model starts from the file's bytes.
- The body of `inflate_bytes` (zlib through `flate2`) is not modelled. It is a total function parameter.
- Console output (`println!` in every function, `printbytes`) is not modelled.
- The unit test is not modelled.
- The black-pixel count, which the original only prints, is the result of `ProcessPng`.
- CRC values are never checked by the original and are not modelled. The encoder takes them as arbitrary words.
- Other bit depths, colour types and interlacing are not modelled. The original asserts them away.
- Bytes.EatU32: the original ORs shifted bytes into a `u32`. Each byte lands in its own 8-bit lane, so the model adds the lane values with unbounded integers.
- Chunks.ReadChunks: `usize` arithmetic on the cursor is unbounded in the model. Overflowing it would need a file of nearly 2^64 bytes.
- Rows.ConvertToRows: `rownum * row_width` is unbounded in the model. It is only reached when the earlier scanlines are present, so it stays below the data's length plus one stride.
- Filter.PaethPredictor: it is stated for the byte values `filter_pixel` passes. The `i32` parameters are never given anything else.
- Chunks.ChunksFromEncoded: it is stated for payloads shorter than 2^32 bytes, the only ones a length word can describe.
- Pipeline.ProcessPng: the checks run in the code's order:
  - the IEND checks come before inflation;
  - only chunks 1 to n-2 are searched for IDAT;
  - a failure of the decompressor is not an error, since the original ignores `read_to_end`'s result.

## Findings

| source | as written | input that shows it | evidently intended | confidence | as-written member | corrected member |
|---|---|---|---|---|---|---|
| src/lib.rs:115 | `convert_to_rows` unfilters every scanline into `build`, drops it, and returns `Vec::new()`, so `process_png` always counts 0 black pixels | 1x1 truecolour, data `[0, 7, 7, 7]` | return the reconstructed rows | not executed | Findings.RowsDiscarded | Unfilter.DecodeImageEncoded |
| src/lib.rs:111 | `prev = pix` hands the next column the STORED pixel as `left` | 3x1, Sub, data `[1, 1,1,1, 1,1,1, 1,1,1]`: third pixel (2,2,2) | `left` is the reconstructed pixel, giving (3,3,3) | not executed | Findings.LeftIsStoredPixel | Unfilter.UnfilterPrefixOfFiltered |
| src/lib.rs:85 | `prev_scan_line` stays all zero, so `up` and `upleft` are always 0 | 1x2, data `[0, 5,5,5, 2, 1,1,1]`: second row (1,1,1) | `up`/`upleft` come from the previous reconstructed row, giving (6,6,6) | not executed | Findings.UpIsAlwaysZero | Unfilter.DecodeRowsEncoded |
