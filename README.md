# A verified model of a small Go PNG decoder

This project models the container layer of a partial PNG decoder written in Go
(ISO/IEC 15948, Portable Network Graphics, second edition) and proves properties
of the model. The modelled decoder has these parts:

- it checks the eight-byte signature (section 5.2);
- it reads chunks one at a time as length, type, data and CRC, and checks CRC-32
  over type and data (sections 5.3 and 5.5);
- it looks the type up in a closed registry of eighteen tags;
- it loops over the chunks:
  - IHDR sets the header;
  - IDAT payloads are appended to one buffer;
  - gAMA is parsed;
  - IEND stops the loop;
- after the loop it inflates the IDAT buffer and keeps the last IDAT chunk's
  length of bytes;
- it gamma-corrects those samples and builds a greyscale image by copying the
  samples into a grid.

Modules, one per concern:

- `Wrappers`, `Errors`, `Bytes` (common.dfy): Option and Result, the decoder's
  error kinds, and bytes with big-endian 32-bit codecs and their round trips.
  Go's `uint32` is the subset type `uint32` of `int`.
- `Crc` (crc32.dfy): CRC-32 bit by bit, polynomial 0xEDB88320, with the proof
  that changing any one byte changes the checksum.
- `Chunks` (chunks.dfy): the tag registry, the chunk and header records, the
  IHDR and gAMA payload parsers, the IDAT append into a growing buffer, and
  in-place gamma correction.
- `Images` (images.dfy): the colour-type dispatch and the greyscale copy loops
  over a two-dimensional array.
- `Decoder` (decoder.dfy):
  - a `File` class with a read cursor that mirrors `os.File.Read` and
    `binary.Read`;
  - the signature check;
  - the four stages of `readChunk` as functions on the file's bytes;
  - the chunk loop as a function, with reference definitions that prove
    the loop's facts;
  - the `PngDecoder` class, whose `ReadChunk`, `ChunkLoop` (the loop of
    `ParseChunkStream`) and `ParseChunkStream` methods are proved to compute
    those functions.

The model follows the code where the code departs from the PNG standard:

- every tag outside the registry is an error, ancillary or not;
- chunk order, repeated headers, an empty IEND payload and the IHDR field
  values are never checked;
- no defiltering or bit-depth unpacking is done: the samples are the tail of
  the inflated bytes, as long as the last IDAT chunk;
- gamma correction is not optional. Without a gAMA chunk the decoder
  calls a method on a nil receiver (`Errors.NilGammaPanic`);
- a zero-length data read succeeds, since `os.File.Read` into an empty slice
  reports nothing;
- a type read of one to three bytes is not a read error; it leaves zero bytes
  in the tag, so the lookup fails with `UnknownChunkType`.

Go run-time panics are error values in this model; they abort the decode just
as surely: a negative slice start, a nil receiver.

## Model

| member | source | states |
|---|---|---|
| Bytes.Zeros | cmd/decoder/main.go:178 | a fresh Go byte slice of length n holds n zero bytes |
| Bytes.BytesToString | cmd/decoder/main.go:183 | string(b) has one character per byte, with the same code |
| Bytes.BytesToStringInjective | cmd/decoder/main.go:183-186 | distinct tag bytes give distinct strings, so the lookup sees the exact bytes read |
| Bytes.BigEndianDigits | internal/chunk/chunks.go:36-37 | the big-endian reading of four bytes is the base-256 number with the first byte most significant |
| Bytes.BigEndianUint32Value | internal/chunk/chunks.go:65 | binary.BigEndian.Uint32 of four bytes is b0 * 2^24 + b1 * 2^16 + b2 * 2^8 + b3, the first byte most significant |
| Bytes.BigEndianRoundTrip | internal/chunk/chunks.go:36-37 | decoding the four encoded bytes of any uint32 gives it back |
| Bytes.BigEndianBytesRoundTrip | internal/chunk/chunks.go:65 | encoding the decoded value of any four bytes gives the bytes back |
| Bytes.WordRoundTrip | cmd/decoder/main.go:204-205 | a stored CRC written as four bytes reads back as the same 32-bit pattern |
| Bytes.WordBytesRoundTrip | cmd/decoder/main.go:204-205 | four CRC bytes are the encoding of the pattern they read as |
| Crc.RegisterAppend | cmd/decoder/main.go:215-220 | the CRC register over a concatenation is the register over the first part continued over the second |
| Crc.RegisterInjective | cmd/decoder/main.go:215-220 | two different register values fed the same bytes never coincide |
| Crc.Crc32 | cmd/decoder/main.go:218-220 | the CRC-32 of the empty message is 0: the all-ones preset and the final complement cancel |
| Crc.SingleByteErrorDetected | cmd/decoder/main.go:214-225 | changing any one byte of type ++ data, a single flipped bit included, changes its CRC-32 |
| Crc.CheckValue | cmd/decoder/main.go:218-220 | the model's CRC-32 of "123456789" is the standard check value 0xCBF43926 |
| Crc.IendChecksum | cmd/decoder/main.go:218-220 | the CRC-32 of the tag IEND is 0xAE426082 |
| Chunks.ChunkType.String | internal/chunk/chunks.go:115-117 | a type's tag is empty exactly for Unknown, and four ASCII letters otherwise |
| Chunks.FromString | internal/chunk/chunks.go:119-160 | a found type is a registered type whose tag is the input; a miss is (Unknown, UnknownChunkType) |
| Chunks.FromStringOfString | internal/chunk/chunks.go:119-160 | looking up any registered type's tag finds that type, with no error |
| Chunks.FromStringKnown | internal/chunk/etc.go:37-78 | every registered tag is found by the lookup |
| Chunks.FromStringUnknown | internal/chunk/chunks.go:159 | the lookup fails only on a string that is no registered type's tag |
| Chunks.SlugsInjective | internal/chunk/chunks.go:162-186 | no two types, Unknown included, share a tag |
| Chunks.KnownTagsDistinct | internal/chunk/etc.go:80-104 | the registry holds eighteen pairwise-distinct tags |
| Chunks.KnownTypesComplete | internal/chunk/chunks.go:162-186 | every type but Unknown is in the registry, at its own position |
| Chunks.TagBytes | internal/chunk/chunks.go:166-185 | each registered type's four tag bytes spell its tag |
| Chunks.CriticalCensus | internal/chunk/chunks.go:107-109 | IHDR, PLTE, IDAT and IEND are critical and the other fourteen registered types are ancillary |
| Chunks.IsCritical | internal/chunk/chunks.go:107-109 | a tag starting with an upper-case letter marks a critical chunk, and the registered chunks it marks are exactly IHDR, PLTE, IDAT and IEND |
| Chunks.KnownTagLetters | internal/chunk/chunks.go:166-185 | four bytes that the lookup accepts are ASCII letters, so none is zero |
| Chunks.KnownTagBytes | cmd/decoder/main.go:183-186 | the bytes a type was found from are that type's tag bytes |
| Chunks.HandleIHDR | internal/chunk/chunks.go:32-34 | the parser fails if and only if the payload is not 13 bytes long, and reports that length |
| Chunks.HandleIHDRInverse | internal/chunk/chunks.go:35-43 | the parser returns header h if and only if the payload is h's 13-byte encoding: width, height, then the five one-byte fields |
| Chunks.HandleIHDREncoded | internal/chunk/chunks.go:35-43 | the encoding of any header parses back to that header |
| Chunks.HandleIHDRDecoded | internal/chunk/chunks.go:35-43 | an accepted payload is the encoding of the header it parses to |
| Chunks.ParseGAMA | internal/chunk/chunks.go:59-61 | the parser fails if and only if the payload is not 4 bytes long, and reports that length |
| Chunks.ParseGAMAInverse | internal/chunk/chunks.go:58-68 | the parser returns gamma g if and only if the payload is g's big-endian encoding |
| Chunks.GammaCorrected | internal/chunk/chunks.go:91-102 | every sample is corrected on its own; the length is kept |
| Chunks.GammaCorrectedTail | internal/chunk/chunks.go:91-102 | correcting the tail of a buffer gives the tail of the corrected buffer |
| Chunks.GammaCorrectedIdentity | internal/chunk/chunks.go:91-102 | a transfer that fixes every sample leaves the buffer unchanged |
| Chunks.HandleGAMA | internal/chunk/chunks.go:83-104 | with a gamma value the buffer becomes its corrected self in place; without one (nil receiver) it panics and leaves the buffer alone |
| Chunks.ByteBuffer.constructor | cmd/decoder/main.go:92 | the IDAT buffer starts empty |
| Chunks.ByteBuffer.Write | internal/chunk/chunks.go:47 | a write appends exactly the bytes given and reports their count |
| Chunks.HandleIDAT | internal/chunk/chunks.go:46-52 | the destination gains exactly the chunk's data at its end, and nothing else changes |
| Images.AsWrittenCell | internal/images/images.go:49-59 | under the as-written copy, cell (x, y) holds the byte at offset x*width + y when x < height, y < width and that offset is inside the buffer, and zero otherwise |
| Images.RowMajorCell | internal/images/images.go:53-57 | under the row-major copy, cell (x, y) holds the byte at offset y*width + x, or zero past the end of the buffer |
| Images.SetGray | internal/images/images.go:59 | a write at (x, y) sets that cell when it lies in the grid, and no other cell changes |
| Images.HandleGreyscaleAsWritten | internal/images/images.go:40-63 | the coordinate-swapping loops return a height-by-width grid whose every cell is AsWrittenCell |
| Images.HandleGreyscale | internal/images/images.go:40-63 | the corrected loops return a height-by-width grid filled row by row from the buffer, zero past its end |
| Images.ColorTypeKind | internal/images/images.go:19-34 | colour type 0 yields an image, types 2, 3, 4 and 6 yield none, and any other value is InvalidColorType |
| Images.CreateImage | internal/images/images.go:14-38 | the corrected dispatch: an invalid colour type is an error; types 2, 3, 4 and 6 give no image and no error; type 0 gives a fresh greyscale grid of the header's size filled row by row |
| Images.CreateImageAsWritten | internal/images/images.go:14-38 | the dispatch as written: the same error and no-image cases, and for type 0 a fresh grid of the header's size whose every cell is AsWrittenCell, the transposed copy |
| Images.RowMajorReadsBack | internal/images/images.go:53-58 | reading the row-major grid back in row-major order gives each buffer byte that lies inside the grid |
| Images.RowMajorFull | internal/images/images.go:54-58 | with at least width*height samples every cell comes from the buffer |
| Images.AsWrittenIsTranspose | internal/images/images.go:59 | on a square grid the as-written copy is the transpose of the row-major copy |
| Images.AsWrittenDropsSample | internal/images/images.go:59 | on a 2-by-1 grid holding [1, 2] the as-written copy leaves cell (1, 0) zero, while the row-major copy holds 2 there |
| Decoder.FileRead | cmd/decoder/main.go:179 | a read into an n-byte slice gets min(n, bytes left) bytes and leaves the rest of the slice zero; end of file is an error only when nothing was read into a non-empty slice |
| Decoder.FileReadFull | cmd/decoder/main.go:171 | binary.Read of n bytes is an error exactly when fewer than n are left, and it consumes what is there |
| Decoder.ReadUint32At | cmd/decoder/main.go:170-174 | the length is read when four bytes are left, as their big-endian value; otherwise the read fails at end of file |
| Decoder.ReadWordAt | cmd/decoder/main.go:204-208 | the stored CRC is read when four bytes are left, as their big-endian pattern; otherwise the read fails at end of file |
| Decoder.File.constructor | cmd/decoder/main.go:38 | a file just opened by os.Open is read from its start |
| Decoder.File.Read | cmd/decoder/main.go:179 | the method's buffer, count, error and new cursor are those of FileRead |
| Decoder.File.ReadFull | cmd/decoder/main.go:171 | the loop of reads until n bytes arrive or end of file ends in exactly FileReadFull's outcome |
| Decoder.File.ReadUint32 | cmd/decoder/main.go:170-174 | the method's value or error, and new cursor, are those of ReadUint32At |
| Decoder.File.ReadWord | cmd/decoder/main.go:204-208 | the method's pattern or error, and new cursor, are those of ReadWordAt |
| Decoder.CheckSignature | cmd/decoder/main.go:251-265 | no error if and only if the next eight bytes are 89 50 4E 47 0D 0A 1A 0A; at end of file a read error; with one to seven bytes left a short-signature error |
| Decoder.SignatureByteDiffers | cmd/decoder/main.go:263-264 | any differing byte among the eight gives a mismatch error carrying the eight bytes read |
| Decoder.ReadChunkAt | cmd/decoder/main.go:169-174 | reading never moves the cursor back or past the end, and a chunk read always moves it forward |
| Decoder.ReadTypeAt | cmd/decoder/main.go:177-189 | the type step keeps the cursor within the file |
| Decoder.ReadDataAt | cmd/decoder/main.go:192-201 | the data step keeps the cursor within the file |
| Decoder.ReadCrcAt | cmd/decoder/main.go:203-226 | the CRC step keeps the cursor within the file |
| Decoder.ReadChunkStages | cmd/decoder/main.go:163-226 | a successful read found a registered tag and a full data field after the length |
| Decoder.EncodeChunk | cmd/decoder/main.go:164-167 | a chunk's bytes number 12 plus its data length |
| Decoder.EncodingFields | cmd/decoder/main.go:164-167 | bytes are a chunk's encoding if and only if its four fields hold the length, tag bytes, data and CRC |
| Decoder.ReadChunkDecodes | cmd/decoder/main.go:163-248 | a chunk that was read is well formed, and the 12 + length bytes it came from are its encoding, CRC included |
| Decoder.ReadChunkFromFields | cmd/decoder/main.go:170-247 | fields holding a well-formed chunk read as that chunk, with the cursor just past its CRC |
| Decoder.ReadChunkEncoded | cmd/decoder/main.go:163-248 | the bytes of a well-formed chunk read back as that chunk, whatever follows them |
| Decoder.ReadChunkIff | cmd/decoder/main.go:163-248 | the read returns chunk c with cursor n if and only if c is well formed, n = pos + 12 + length, and the bytes in between encode c |
| Decoder.ReadChunkIgnoresSuffix | cmd/decoder/main.go:170-208 | appending bytes to the file leaves a successful read unchanged |
| Decoder.ReadChunkLocal | cmd/decoder/main.go:163-248 | a successful read gives the same result on any byte sequence that agrees with the file over the chunk's own bytes |
| Decoder.ReadChunkPrefix | cmd/decoder/main.go:170-208 | cutting the file anywhere after a successfully read chunk leaves the read unchanged: no byte past the chunk is needed |
| Decoder.CorruptedChunkRejected | cmd/decoder/main.go:214-226 | changing any one byte of a chunk's type or data makes the read fail |
| Decoder.CorruptedEncodingMalformed | cmd/decoder/main.go:220-226 | no well-formed chunk is encoded by a chunk's bytes with one byte of type or data changed |
| Decoder.CorruptedLength | cmd/decoder/main.go:170-171 | a change past the length field leaves the length a reader sees unchanged |
| Decoder.CorruptedCrc | cmd/decoder/main.go:204-205 | with data fields of one length, a change before the CRC field leaves the stored CRC unchanged |
| Decoder.CorruptedPayload | cmd/decoder/main.go:215 | with data fields of one length, the type and data bytes are the original ones with the one byte changed |
| Decoder.PayloadFromEncoded | cmd/decoder/main.go:215 | the bytes the CRC covers are the type and data fields side by side |
| Decoder.IendEncoding | internal/chunk/chunks.go:169 | the empty IEND chunk with CRC 0xAE426082 is well formed, and is the twelve bytes 00 00 00 00 49 45 4E 44 AE 42 60 82 |
| Decoder.IendRead | cmd/decoder/main.go:163-248 | wherever those twelve bytes stand, the read returns the IEND chunk and moves past it |
| Decoder.Step | cmd/decoder/main.go:102-125 | the step fails exactly on an IHDR payload other than 13 bytes or a gAMA payload other than 4; types other than IHDR, IDAT and gAMA change nothing |
| Decoder.RunLoop | cmd/decoder/main.go:96-126 | a finished loop leaves the cursor inside the file and past where it started |
| Decoder.Frames | cmd/decoder/main.go:96-126 | the chunks framed before the first IEND include no IEND |
| Decoder.RunLoopIsFold | cmd/decoder/main.go:96-126 | the loop reads the chunks up to the first IEND and handles them in order; a read error anywhere is the loop's failure |
| Decoder.FoldCollects | cmd/decoder/main.go:103-121 | handling the chunks leaves the header of the last IHDR, every IDAT payload appended in order, idatLen at the last IDAT length, and the value of the last gAMA, present exactly when a gAMA chunk came by |
| Decoder.StepCollects | cmd/decoder/main.go:103-121 | one step replaces the header on IHDR, appends the payload and sets the length on IDAT, sets the gamma value on gAMA, and leaves every other part of the state alone |
| Decoder.RunLoopIgnoresSuffix | cmd/decoder/main.go:122-124 | appending bytes to a file the loop gets through leaves its outcome unchanged |
| Decoder.RunLoopPrefix | cmd/decoder/main.go:122-124 | cutting the file anywhere after the cursor a finished loop ends at leaves its outcome unchanged: no byte past the first IEND is read |
| Decoder.RunLoopEndsAtIend | cmd/decoder/main.go:97-124 | for a finished loop, a read at some position from its start on gives an IEND chunk ending at the loop's cursor |
| Decoder.IendStreamStops | cmd/decoder/main.go:122-124 | an IEND chunk at the cursor ends the loop at once, with the state unchanged |
| Decoder.TailPixels | cmd/decoder/main.go:128-144 | an inflate failure is an error; an inflated stream shorter than idatLen is the slice panic at the negative start; an inflated stream of at least idatLen bytes gives Success with exactly its last idatLen bytes |
| Decoder.DecodeStreamSuccess | cmd/decoder/main.go:89-151 | a decoded stream had a gAMA chunk before IEND and its IDAT payloads inflated; its header is the last IHDR's, and its samples are the last IDAT length of inflated bytes from the end, corrected with the last gAMA value |
| Decoder.DecodeStream | cmd/decoder/main.go:89-151 | the decode succeeds if and only if the loop succeeds, saw a gAMA chunk, and the IDAT data inflates to at least the last IDAT length; a decoded stream has exactly that many samples |
| Decoder.DecodeStreamState | cmd/decoder/main.go:128-150 | a decoded stream holds the loop's final header and the gamma-corrected tail of the inflated IDAT bytes |
| Decoder.NoGammaNoImage | cmd/decoder/main.go:147 | without a gAMA chunk before IEND no image is ever produced |
| Decoder.LengthStage | cmd/decoder/main.go:170-174 | a failed length read fails the chunk at end of file; a successful one passes the length to the type step |
| Decoder.TypeStage | cmd/decoder/main.go:177-189 | the type read fails at end of file, a short or unregistered tag is UnknownChunkType, and a registered tag passes to the data step |
| Decoder.TypeShort | cmd/decoder/main.go:179-189 | a type read of one to three bytes ends in UnknownChunkType at end of file |
| Decoder.TypeUnknown | cmd/decoder/main.go:186-189 | four bytes outside the registry end the read with UnknownChunkType just after them |
| Decoder.ZeroTagUnknown | cmd/decoder/main.go:178-189 | a zero-padded tag is never registered |
| Decoder.DataStage | cmd/decoder/main.go:192-201 | fewer than length data bytes is ShortChunkData with the count read; a full read passes to the CRC step |
| Decoder.CrcStage | cmd/decoder/main.go:203-226 | a failed CRC read, or a stored CRC other than CRC-32 of type ++ data, fails the chunk; a match returns it with the computed CRC |
| Decoder.PngDecoder.constructor | cmd/decoder/main.go:80-84 | a new decoder holds no chunks |
| Decoder.PngDecoder.IsPng | cmd/decoder/main.go:251-270 | the method's error is CheckSignature's, it succeeds exactly when there is none, and it consumes one eight-byte read |
| Decoder.PngDecoder.ReadChunk | cmd/decoder/main.go:163-248 | the method's result and new cursor are ReadChunkAt's for the bytes at the old cursor |
| Decoder.PngDecoder.ChunkLoop | cmd/decoder/main.go:96-126 | the loop ends with RunLoop's error, or with RunLoop's final header, IDAT bytes, gamma value and last IDAT length, and the cursor just past IEND |
| Decoder.PngDecoder.ParseChunkStream | cmd/decoder/main.go:89-160 | the method fails with DecodeStream's error when that fails; when the loop gets through, the cursor ends just past IEND; otherwise an invalid colour type is an error, types 2, 3, 4 and 6 give no image, and type 0 gives a fresh grid of the header's size filled row by row with the gamma-corrected samples, the corrected copy |

## Left out

- `main`, at cmd/decoder/main.go:21-71: flag parsing, opening the file and writing the output image are I/O. The `File` class takes the file's contents as a byte sequence instead.
- Logging and the text of error messages: each error is a constructor of `Errors.Error`.
- zlib inflation and `io.Copy`, at cmd/decoder/main.go:128-141: a foreign library, passed to `ParseChunkStream` as the function `inflate`. Either of its errors is `InflateFailed`.
- The CRC library call, at cmd/decoder/main.go:218-220, is replaced by CRC-32 defined in `Crc`.
- Floating-point gamma (`ConvertGamma`, `normalizePixel`, `math.Pow`, rounding), at internal/chunk/chunks.go:70-102: the per-sample formula is the parameter `transfer`. `HandleGAMA` keeps the loop over the samples, the in-place update and the nil receiver.
- Go's `image.Gray` and `color.Gray` are a two-dimensional byte array.
- `PngDecoder.chunks` is never appended to by the source, so it stays the empty sequence the constructor sets.
- The write-error branch of `HandleIDAT` is kept. Writes to the in-memory buffer never fail, so the branch is never taken.
- Allocation failures are not modelled: `make([]byte, length)` for lengths up to 4 GiB, `bytes.Buffer` growth, and `image.NewGray` on huge sizes.
- The Linux limit of one gigabyte on a single `os.File.Read` is not modelled. Neither are short reads from a regular file before its end.
- Decoder.ReadChunkAt: the four step functions work on slices of the file's bytes rather than through the cursor. Only the `File` methods mirror Go's reads; `PngDecoder.ReadChunk` is proved to agree with the functions.
- Decoder.ReadCrcAt: the stored CRC is compared as its 32-bit pattern, not as a `uint32` number. The two comparisons agree.
- The final `switch` in `readChunk`, at cmd/decoder/main.go:229-240, only logs.
- Chunks.IsCritical: its `requires` that the tag is not empty stands in for the index-out-of-range panic Go raises on `Unknown`'s empty tag at internal/chunk/chunks.go:108. The source never calls `isCritical`, so no decode reaches that panic.
- Images.CreateImage: for colour type 0 it builds the corrected, row-by-row grid (`HandleGreyscale`), not the transposed one the source builds at internal/images/images.go:59; `Images.CreateImageAsWritten` is the dispatch as written.
- Decoder.PngDecoder.ParseChunkStream: it hands its samples to the corrected `Images.CreateImage`, so for colour type 0 it returns the row-by-row grid rather than the source's transposed one. From the decoded samples on, the two differ only as `Images.AsWrittenCell` and `Images.RowMajorCell` do.

## Findings

| source | as written | input that shows it | evidently intended | confidence | as-written member | corrected member |
|---|---|---|---|---|---|---|
| internal/images/images.go:59 | `img.SetGray(r, c, ...)` passes the row index as x and the column as y. The grid is filled transposed, and samples whose swapped point falls outside a non-square grid are dropped. | width 2, height 1, pixels [1, 2]: the second sample is written at (x=0, y=1), outside the 2-by-1 grid, so cell (1, 0) stays 0 | `img.SetGray(c, r, ...)`: the buffer copied row by row, left to right and top to bottom, as the loop's own offset `r*scanline + c` reads it | high, not executed | Images.HandleGreyscaleAsWritten, Images.CreateImageAsWritten, Images.AsWrittenDropsSample | Images.HandleGreyscale, Images.CreateImage, Images.RowMajorReadsBack |
