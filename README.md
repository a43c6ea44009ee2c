# pyfuck's PNG decoder and Braincopter colour remap, in Dafny

pyfuck reads Braincopter programs, which are PNG images. Its decoder `PNG._parse` (pyfuck/png.py)
works as follows:

- It checks the 8-byte PNG signature.
- It reads the file chunk by chunk (length, type, data, CRC) through a generator that hands out
  up to `n` bytes per request.
- It validates every chunk before IEND with CRC-32, keeps the IHDR header and collects the other
  chunks until IEND.
- It then checks that the header describes a "simplified" image (8-bit RGB, no interlace),
  inflates the joined chunk data and slices it into a matrix of RGB triples, one scanline per row
  with a leading filter byte.

`Braincopter.eval` (pyfuck/braincopter.py) replaces every pixel `(r, g, b)` of the decoded matrix
by the command colour `COMMANDS[(-2r + 3g + b) % 11]` before it hands the image to the Brainloller
interpreter.

The model works on the file's bytes in memory. `zlib.decompress` is a function parameter
`inflate: seq<byte> -> Option<seq<byte>>` (None where zlib raises). CRC-32 is a bitwise reference
definition of zlib's `crc32`.

## Layout

- `wrappers.dfy` (`Wrappers`): Option and Result.
- `bytes.dfy` (`Bytes`): bytes as `bv8` and Python slicing.
  - `int.from_bytes(…, "big")` and `Chunk._parseInt`.
  - A 4-byte big-endian encoder used to state round trips.
- `crc32.dfy` (`Crc`): CRC-32 over a 32-bit register modelled bit by bit.
  - Its linearity.
  - The fact that it detects every single-bit error.
- `png.dfy` (`Png`): the decoder.
  - A pure reading of one pass: `Take` is one generator request, `ReadFrame` reads one chunk's
    fields, `Absorb` is one pass of the `while True` loop, `ChunkLoop` is the loop, `Finish` is
    everything after it, `Decode` is `_parse`.
  - The imperative reading that follows the source:
    - class `Reader` is the generator, a cursor that keeps its position;
    - class `Png` has methods `Accept`, `ReadChunks`, `Complete` and `Parse`, which update the
      fields `header`, `chunks`, `decompressed` and `pixels` as `_parse` does;
    - `Load` is the `PNG(filename)` constructor.
  - Each method is proved to leave exactly what the pure functions compute, and its frame names
    only the fields it changes.
- `pngfacts.dfy` (`PngFacts`): properties of reading and of the chunk loop.
  - It compares the loop with `Scan`, a plain reading of the frames up to IEND that checks no CRC.
- `decodefacts.dfy` (`DecodeFacts`): properties of a whole decoding pass.
- `encodefacts.dfy` (`EncodeFacts`): an encoder and what the decoder makes of files it writes.
  - Round trips.
  - The IHDR example from the class docstring.
  - Rejection of a corrupted chunk.
- `pixelfacts.dfy` (`PixelFacts`): the shape of the pixel matrix.
- `braincopter.dfy` (`Braincopter`): the command table, the remap and `eval`'s write-back.
- `findings.dfy` (`Findings`): the exception an invalid IHDR chunk raises as the code is written.

## Model

| member | source | states |
|---|---|---|
| `Bytes.Slice` | pyfuck/png.py:205 | Python's clipped slice `s[start:stop]`: its length, and each element is the source element at the same offset |
| `Bytes.ParseInt` | pyfuck/png.py:189-205 | `_parseInt(bytes, start, len)` reads at most `len` bytes, so the value is below 256^len |
| `Bytes.BigEndian4` | pyfuck/png.py:79 | a 4-byte length field is read most significant byte first |
| `Bytes.BE4RoundTrip` | pyfuck/png.py:79 | every 32-bit length is read back from its 4-byte big-endian encoding |
| `Bytes.ParseIntExamples` | pyfuck/png.py:199-204 | the two documented examples: `a6` gives 166, the first two bytes of `a6 ff 75` give 42751 |
| `Crc.SingleBitFlipDetected` | pyfuck/png.py:186 | inverting any single bit of type and data changes the CRC, so the CRC check catches it |
| `Png.Take` | pyfuck/png.py:132-139 | one generator request: ends the stream exactly when nothing is left; otherwise returns min(n, available) bytes, short only at the end of the file |
| `Png.Reader.Read` | pyfuck/png.py:132-139 | `send(n)` on the cursor: the result and the new position are those of `Take` on the unread bytes; nothing is consumed when the stream ends |
| `Png.ReadData` | pyfuck/png.py:86-90 | a zero length reads nothing and consumes nothing; a positive length ends the stream exactly when no byte is left, and otherwise reads min(len, available) bytes, the full length unless the file ends inside it |
| `Png.ReadCrc` | pyfuck/png.py:92-93 | the CRC read takes 1 to 4 bytes and is short only at the end of the file; running out is the uncaught StopIteration |
| `Png.ReadTail` | pyfuck/png.py:86-93 | data and CRC together split the remaining bytes; every failure is StopIteration |
| `Png.ReadBody` | pyfuck/png.py:83-93 | type, data and CRC after the length: the fields concatenate back to the bytes read, the type has 4 bytes, the data has the declared length |
| `Png.ReadFrame` | pyfuck/png.py:77-93 | one chunk read: "Unexpected file end" exactly when no byte is left where a length is due, StopIteration for a cut at any later field, and otherwise the frame and the bytes after it |
| `Png.Reader.NextFrame` | pyfuck/png.py:77-93 | the four `send` calls of a loop pass return exactly what `ReadFrame` reads, and the cursor moves past it |
| `Png.NewChunk` | pyfuck/png.py:162-176 | `Chunk(len, type, data, crc)` succeeds exactly when the type has 4 bytes and the stored CRC equals CRC-32 of type and data; it then keeps the fields and is valid; otherwise the validation error |
| `Png.NewHeader` | pyfuck/png.py:254-264 | `IHDR(data, crc)` succeeds exactly when the stored CRC equals CRC-32 of "IHDR" and data; the chunk then has type IHDR, length 13 and that data, is valid, and the seven fields are those decoded at their offsets (`HeaderFrom`, whose values `EncodeFacts.HeaderRoundTrip` gives); otherwise the validation error, as intended |
| `Findings.NewHeaderAsWritten` | pyfuck/png.py:175-176 | `IHDR(data, crc)` as written: the same header on success, but AttributeError on failure, because `IHDR.__str__` (lines 275-283) reads `width` before it is set |
| `Findings.BadHeaderRaisesAttributeError` | pyfuck/png.py:255 | data `01` with the stored CRC of "IHDR" followed by `00` raises AttributeError as written, where the intended constructor reports the validation error |
| `Png.HeaderStep` | pyfuck/png.py:96-97 | an IHDR chunk fails exactly on a CRC mismatch and otherwise replaces the header, keeping the chunks |
| `Png.ChunkStep` | pyfuck/png.py:100-101 | any other chunk fails exactly on a CRC mismatch and otherwise is appended after the earlier ones |
| `Png.Absorb` | pyfuck/png.py:95-101 | one loop pass: stops exactly at IEND without any check, fails exactly when another chunk's CRC mismatches, otherwise replaces the header or appends the chunk |
| `Png.Png.Accept` | pyfuck/png.py:95-101 | the loop body on the object's fields: stop, failure and new header and chunks are those of `Absorb`; only `header` and `chunks` may change |
| `Png.Png.ReadChunks` | pyfuck/png.py:74-101 | the `while True` loop over the reader ends with the error or the header and chunks that `ChunkLoop` gives for the unread bytes; only `header`, `chunks` and the reader may change |
| `Png.Png.Complete` | pyfuck/png.py:103-120 | after the loop: fails as `Finish` does, otherwise stores the inflated data and the pixel matrix; header and chunks are left as they were |
| `Png.Png.Parse` | pyfuck/png.py:55-120 | `_parse`: fails exactly when `Decode` fails, with its error; otherwise header, chunks, decompressed data and pixels are those of `Decode` |
| `Png.Load` | pyfuck/png.py:45-52 | `PNG(filename)`: a fresh object with that filename holding the decoded image, or the error `_parse` raises |
| `PngFacts.TakeExtend` | pyfuck/png.py:132-139 | a full read is unaffected by bytes later in the file |
| `PngFacts.ReadFrameBytes` | pyfuck/png.py:77-93 | reading the bytes of any frame with full fields gives that frame back and leaves what follows |
| `PngFacts.ReadFrameCharacterised` | pyfuck/png.py:77-93 | `ReadFrame` returns a frame and rest exactly when the bytes are that frame's bytes followed by the rest, with the shape a read guarantees |
| `PngFacts.LoopIgnoresTrailing` | pyfuck/png.py:98-99 | once the loop succeeds, bytes after the IEND chunk are never read |
| `PngFacts.LoopMatchesScan` | pyfuck/png.py:74-101 | the loop succeeds exactly when every frame up to IEND reads and passes its CRC; it then holds the last IHDR header and the other chunks in file order; no chunk is skipped, and any error other than a CRC failure comes from the frame read |
| `PngFacts.HeaderAfterIsLast` | pyfuck/png.py:96-97 | the header left behind is the one decoded from the last IHDR frame: a later IHDR replaces an earlier one |
| `PngFacts.HeaderAfterNone` | pyfuck/png.py:96-97 | without an IHDR frame the header stays as it was |
| `PngFacts.AbsorbKeepsValid` | pyfuck/png.py:95-101 | a loop pass keeps a valid IHDR header and valid chunks that are neither IHDR nor IEND |
| `PngFacts.LoopKeepsValid` | pyfuck/png.py:174-176 | every chunk and header a successful loop collects passed the Chunk constructor's check |
| `PngFacts.LoopErrors` | pyfuck/png.py:78-101 | the loop fails only with "Unexpected file end", StopIteration or an invalid chunk |
| `DecodeFacts.DecodeNeedsSignature` | pyfuck/png.py:71-72 | an empty file ends the stream at once; otherwise parsing fails with the signature error unless the first bytes are the PNG signature |
| `DecodeFacts.DecodeBadSignature` | pyfuck/png.py:67-72 | without the signature the only outcomes are StopIteration and the signature error |
| `DecodeFacts.DecodeLoopOk` | pyfuck/png.py:71-120 | an accepted file has the signature, a successful chunk loop, and is what the end checks make of the loop's result |
| `DecodeFacts.DecodeSuccess` | pyfuck/png.py:74-101 | an accepted file's chunks up to IEND all pass their CRC; its header is the last IHDR's; its chunks are the other frames' chunks in order |
| `DecodeFacts.DecodeImage` | pyfuck/png.py:103-120 | an accepted image is simplified, holds only valid chunks, and its pixels are sliced from the inflated joined data |
| `DecodeFacts.DecodeIgnoresTrailing` | pyfuck/png.py:98-99 | bytes appended after the IEND chunk of an accepted file change nothing |
| `DecodeFacts.HeaderAfterIsNone` | pyfuck/png.py:96-97 | the loop ends without a header exactly when no frame before IEND is IHDR |
| `DecodeFacts.LoopMissingHeader` | pyfuck/png.py:103 | after the signature, the AttributeError on the missing header happens exactly when the loop succeeds and no frame before IEND is IHDR |
| `DecodeFacts.DecodeMissingHeader` | pyfuck/png.py:103 | a file fails with the missing-header AttributeError exactly when it has the signature, its frames up to IEND all read and pass the CRC, and none is IHDR |
| `DecodeFacts.LoopAfterScan` | pyfuck/png.py:74-101 | frames that all pass the CRC leave the last IHDR header and the other chunks |
| `DecodeFacts.DecodeAfterScan` | pyfuck/png.py:103-120 | once all frames pass, the outcome is decided by the end checks on that header and those chunks |
| `DecodeFacts.DecodeNotSimplified` | pyfuck/png.py:103-105 | a well-formed file whose header is not simplified fails with the validation error |
| `DecodeFacts.DecodeInflateFails` | pyfuck/png.py:107-110 | a well-formed simplified file whose joined data does not inflate fails with the validation error |
| `DecodeFacts.DecodeAccepts` | pyfuck/png.py:107-120 | a well-formed simplified file whose joined data inflates is accepted with that header, those chunks and the pixels of the inflated data |
| `EncodeFacts.AbsorbWritten` | pyfuck/png.py:100-101 | a written data chunk reads back whole and is appended as the chunk it describes |
| `EncodeFacts.LoopAtEnd` | pyfuck/png.py:98-99 | a written IEND chunk ends the loop, whatever follows |
| `EncodeFacts.LoopAfterItem` | pyfuck/png.py:100-101 | after a written data chunk the loop goes on with that chunk collected |
| `EncodeFacts.LoopOverWritten` | pyfuck/png.py:75-101 | the loop over written data chunks and IEND collects exactly those chunks in order, whatever follows |
| `EncodeFacts.LoopWithoutEnd` | pyfuck/png.py:78-81 | written chunks without IEND end in "Unexpected file end" |
| `EncodeFacts.PayloadWritten` | pyfuck/png.py:108 | the joined payload of the read chunks is the joined data that was written |
| `EncodeFacts.OneByteField` | pyfuck/png.py:256-257 | a one-byte field reads back as the byte written |
| `EncodeFacts.HeaderRoundTrip` | pyfuck/png.py:254-264 | the IHDR constructor reads back every field written: width and height at offsets 0-3 and 4-7, the five one-byte fields at 8 to 12 |
| `EncodeFacts.ExampleHeader` | pyfuck/png.py:238-250 | the documented header decodes to width 3, height 3, bit depth 8 and colour type 2, and is simplified |
| `EncodeFacts.AbsorbWrittenHeader` | pyfuck/png.py:96-97 | a written IHDR chunk reads back whole and records the header decoded from its data |
| `EncodeFacts.LoopAfterHeader` | pyfuck/png.py:96-97 | after a written IHDR chunk the loop goes on from that header |
| `EncodeFacts.LoopOverFile` | pyfuck/png.py:75-101 | the loop over a written IHDR, data chunks and IEND collects that header and those chunks |
| `EncodeFacts.WrittenHeaderFields` | pyfuck/png.py:258-272 | the written simplified header has the written width and height and passes `isSimplified` |
| `EncodeFacts.DecodeWritten` | pyfuck/png.py:55-120 | a file written as signature, IHDR, data chunks and IEND decodes to that header, those chunks, and the pixels of the inflated joined data; it fails only when that data does not inflate |
| `EncodeFacts.CorruptFailsCrc` | pyfuck/png.py:186 | a chunk whose data had one bit inverted after its CRC was computed fails the CRC check |
| `EncodeFacts.CorruptTypeFailsCrc` | pyfuck/png.py:186 | a chunk whose type had one bit inverted after its CRC was computed fails the CRC check |
| `EncodeFacts.CorruptTypeRejected` | pyfuck/png.py:96-101 | such a chunk stops the whole parse with the validation error, whatever follows, unless the inverted type is IEND; a type turned into IHDR is rejected too |
| `EncodeFacts.CorruptChunkRejected` | pyfuck/png.py:174-176 | a chunk with one data bit inverted, unless it is IEND, stops the whole parse with the validation error, whatever follows |
| `PixelFacts.RangeShape` | pyfuck/png.py:118 | `range(start, start + step*n, step)` has n elements, the k-th being start + step*k |
| `PixelFacts.PixelOffsets` | pyfuck/png.py:113-118 | the pixel offsets in a scanline are 1, 4, ..., 3*width - 2 |
| `PixelFacts.PixelRowsShape` | pyfuck/png.py:112-120 | the matrix has `height` rows of `width` pixels; pixel (y, x) is the clipped slice of three bytes from y*(1 + 3*width) + 1 + 3x |
| `PixelFacts.PixelInsideLine` | pyfuck/png.py:114-118 | each pixel lies inside its scanline, after the filter byte |
| `PixelFacts.FullPixels` | pyfuck/png.py:116-120 | when the data covers every scanline, each pixel is a full triple taken straight from the data |
| `PixelFacts.FilterByteIgnored` | pyfuck/png.py:112-120 | changing the first (filter-type) byte of any scanline leaves the matrix unchanged |
| `Braincopter.CommandIndex` | pyfuck/braincopter.py:65 | the index `(-2r + 3g + b) % 11` is a position of the 11-entry table and is congruent to the weight modulo 11 |
| `Braincopter.RedIndex` | pyfuck/braincopter.py:65 | a negative weight uses Python's non-negative remainder: red (weight -510) becomes entry 7, dark yellow |
| `Braincopter.RemapDefined` | pyfuck/braincopter.py:65 | the comprehension succeeds exactly when every pixel unpacks into r, g, b |
| `Braincopter.RemapPointwise` | pyfuck/braincopter.py:65 | same number of rows, each row keeping its length; each pixel is `COMMANDS[(-2r + 3g + b) % 11]` of the pixel at the same row and column |
| `Braincopter.RemapInCommands` | pyfuck/braincopter.py:24-36 | every remapped pixel is one of the eleven command colours |
| `Braincopter.RemapAgain` | pyfuck/braincopter.py:24-36 | the command colours are triples, so a remapped matrix can be remapped again |
| `Braincopter.RemapDecoded` | pyfuck/png.py:116-120 | on a decoded matrix the remap succeeds exactly when the matrix is empty or the inflated data covers every scanline |
| `Braincopter.Eval` | pyfuck/braincopter.py:65-66 | `image.pixels` becomes the remapped matrix; header, chunks and decompressed data are unchanged; when a pixel is not a triple it fails and the image is untouched |

## Findings

| source | as written | input that shows it | evidently intended | confidence | as-written member | corrected member |
|---|---|---|---|---|---|---|
| pyfuck/png.py:175-176 | For an invalid IHDR, the ValidationException message is built with `str(self)`, i.e. `IHDR.__str__`. That method reads `self.width`, which `IHDR.__init__` sets only after the Chunk constructor returns. An AttributeError escapes instead. | IHDR data `01` with the stored CRC of "IHDR" followed by `00` | ValidationException "The chunk is not valid" | high, not executed | `Findings.NewHeaderAsWritten`, `Findings.BadHeaderRaisesAttributeError` | `Png.NewHeader` |

The rest of the model uses `Png.NewHeader`. So in `Png.Absorb` and the chunk loop, an IHDR chunk with
a bad CRC stops the pass with the validation error `InvalidChunk`.

## Where the code differs from its own documentation and from the PNG standard

The model follows the code in each of these cases.

- The IHDR docstring (pyfuck/png.py:222) calls the chunk "first and exclusive". The loop accepts
  an IHDR chunk anywhere and keeps the last one (`PngFacts.HeaderAfterIsLast`).
- Section 5.3 of the PNG specification (W3C, Second Edition) gives every chunk a CRC. The code
  never checks the CRC of IEND (`Png.Absorb` stops before any check).
- Only running out of bytes exactly where a length is due is the "Unexpected file end" validation
  error. All of these escape as the generator's `StopIteration` (`StreamEnded`):
  - an empty file;
  - a length field cut short;
  - a cut at the type, data or CRC.
- The header chunk is built with length 13 whatever its length field says (pyfuck/png.py:255). A
  header field past the end of short IHDR data reads as 0.
- A CRC field cut short by the end of the file is compared as the integer of the bytes present.
  If it matches, the next length read reports "Unexpected file end".

## Left out

- File I/O: `open`, the `with` block and the generator protocol of `_reader` are replaced by a
  cursor over the file's bytes (`Png.Reader`). A missing file (FileNotFoundError) is not modelled.
- `zlib.decompress` is the parameter `inflate`, and DEFLATE is not modelled.
- `zlib.crc32` is a reference definition. The 28-byte chunk example of the Chunk docstring
  (pyfuck/png.py:153-158) is not evaluated.
- EncodeFacts.ExampleHeader: states the documented field values and `isSimplified()` but not
  `isValid()`, because evaluating CRC-32 over the 17 concrete bytes is left out.
- Png.Reader.Read: requires n > 0, because the parser never asks for zero bytes (line 87 guards
  the data read). The generator's replacement of a zero request by 1 (pyfuck/png.py:137-138) is
  therefore not modelled.
- Png.Take: requires n > 0 for the same reason.
- The `__str__` methods are only diagnostic text. `PNG.__str__` returns None.
- `ValidationException`: its class and error messages are replaced by the `Png.Error` datatype.
- `float(self.len).is_integer()` (pyfuck/png.py:186) is always true for a Python int, so
  `IsValid` omits it.
- Braincopter: the `isinstance` check is enforced by the parameter's type. `Brainloller.eval`, the
  constructor's interpreter, `main` and logging are not part of this model. Brainloller is not
  among the source files.
- test/test_png.py calls an API that png.py does not have (`PNG()`, `.load`). It also expects
  filter reconstruction and palettes, which png.py does not implement. None of it is stated as a
  property.
