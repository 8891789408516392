# Amiga IFF ILBM encoder, modelled in Dafny

This project models the encoding core of AmigaIFFConverter. The converter
writes an image as an Amiga IFF ILBM file. The file is a `FORM` container of
type `ILBM` that holds three chunks: a 20-byte `BMHD` bitmap header, a `CMAP`
colour map and a `BODY`.

The modelled core has these parts:

- **Chunky-to-planar packer.** Bit `p` of every pixel's palette index goes to
  plane `p`, at bit `7 - x % 8` of byte `x / 8` of the pixel's row. A row holds
  `ceil(width / 8)` bytes, rounded up to an even count.
- **Hold-And-Modify encoder.** It writes six planes. Each pixel modifies the
  channel of the colour carried along the scanline that is furthest from the
  pixel's 4-bit colour.
- **ByteRun1 row compressor.** It emits literal runs of 1..127 bytes and
  repeats of 3..127 copies.
- **Chunk writers.** They stream the FORM header and the chunks into a file,
  then patch the BODY and FORM lengths in once they are known.

Each of the repository's two writers is modelled in its own form:

- `FileWriter` is the stand-alone writer. It takes the planes, the palette and
  the options as arguments.
- `AmigaConverter.Converter` is the converter class. It keeps the size, the
  plane count, the palette and the planes in its fields, packs the planes in
  place, and streams each compressed row straight into the file.

The files are:

- `bits.dfy`: bytes and bit arithmetic, plus the rows-back-to-back helper `Concat`.
- `wrappers.dfy`: `Option` and `Result`.
- `raster.dfy`: the indexed or 24-bit raster the image library hands over, and the palette colour.
- `byterun1.dfy`: ByteRun1 blocks, the decoder, the compressor's plan of blocks, and the round trip.
- `bitplanes.dfy`: plane layout, the packer, and reading a pixel back from the planes.
- `ham.dfy`: the HAM encoder.
- `filebuffer.dfy`: the output file as bytes plus a position, with `fwrite`, `ftell` and `fseek`.
- `iff.dfy`:
  - the big-endian fields;
  - the chunk and FORM layout, with a reader that proves what the writers put down can be read back;
  - the BMHD, CMAP and BODY payloads.
- `filewriter.dfy`: the stand-alone writer and its compressor.
- `converter.dfy`: the converter class, its progress arithmetic, and end-to-end facts about the file it writes.

Every writer is proved against a specification function:

- `Ilbm.IlbmFile`, `Ilbm.BmhdPayload`, `Ilbm.CmapPayload` and `Ilbm.BodyRows`
  for the files and chunks;
- `ByteRun1.Compressed` for compressed rows;
- `Bitplanes.Packed` for packed planes.

Lemmas then state the properties the format promises about those functions.

## Model

| member | source | states |
|---|---|---|
| ByteRun1.Front | AmigaIFFConverter.php:473-476 | A control byte and its operands take at least one byte and never more than the input holds. |
| ByteRun1.Decode | AmigaIFFConverter.php:473-476 | The reader of a ByteRun1 stream: one control byte and its operands after another, `None` for a block cut short. `CompressRoundTrip`, `DecodeConcat` and `BodyDecodes` state what it gives for the compressor's output. |
| ByteRun1.DecodeBlock | AmigaIFFConverter.php:473-476 | Control `n` in 0..127 copies the next `n + 1` bytes. Control `257 - n` repeats the next byte `n` times. Decoding then continues after the block. |
| ByteRun1.DecodeConcat | AmigaIFFConverter.php:473-476 | Two streams that decode, placed back to back, decode to the two results back to back. |
| ByteRun1.RunLength | src/FileWriter.php:132-136 | The run measured from `row[i]` is at least as long as its start and at most 127. It stops at 127, at the end of the row, or at the first byte that differs. |
| ByteRun1.RunLengthEqual | src/FileWriter.php:132-136 | Every byte of the measured run equals its first byte. |
| ByteRun1.LiteralLength | src/FileWriter.php:145-156 | The literal run is at most 127 bytes. It stops at 127, at the end of the row, or where a run of three equal bytes (or an equal pair ending the row) begins. |
| ByteRun1.Head | src/FileWriter.php:125-160 | The block at the cursor is a literal of 1..127 bytes or a repeat of 3..127 copies. It lies within the row. |
| ByteRun1.HeadExpands | src/FileWriter.php:125-160 | The block at the cursor stands for exactly the row bytes it covers. |
| ByteRun1.RepeatHead | src/FileWriter.php:138-142 | A run of three or more bytes, away from the last byte, is written as `257 - run` and then the byte. It covers `run` bytes. |
| ByteRun1.LiteralHead | src/FileWriter.php:145-160 | Otherwise a literal is written: `different - 1`, then `different` row bytes. It covers `different` bytes. |
| ByteRun1.LastByteLiteral | src/FileWriter.php:126-129 | A cursor on the last byte emits exactly `0, row[len - 1]`. |
| ByteRun1.Plan | src/FileWriter.php:125-161 | The blocks the compression loop emits from cursor `i`: the block at the cursor, then the plan after it. `PlanEmitted` and `PlanExpands` state that every block is one the format allows and that together they stand for the rest of the row. |
| ByteRun1.Compressed | src/FileWriter.php:119-164 | The bytes the compression loop returns: the plan from the first byte, serialized. `CompressRoundTrip` proves that they decode back to the row. |
| ByteRun1.PlanUnfold | src/FileWriter.php:125-161 | The plan from the cursor is the block there followed by the plan from just past it. |
| ByteRun1.PlanStep | src/FileWriter.php:125-161 | The compressed rest of the row is the block at the cursor followed by the compressed rest after that block. |
| ByteRun1.Advance | src/FileWriter.php:125-161 | This is the compressor's loop invariant. Writing the block at the cursor and moving past it keeps "written output + plan of the rest = compressed row". |
| ByteRun1.PlanEmitted | src/FileWriter.php:125-161 | Every block of a compressed row is a literal of 1..127 bytes or a repeat of 3..127 copies. |
| ByteRun1.EmittedControl | src/FileWriter.php:139-159 | Emitted control bytes are 0..126 for a literal (length less one) and 130..254 for a repeat (`257 - run`). 128 never appears. |
| ByteRun1.PlanExpands | src/FileWriter.php:125-161 | The blocks of the plan stand for exactly the rest of the row. |
| ByteRun1.DecodeSerialized | AmigaIFFConverter.php:473-476 | A stream of encodable blocks decodes to the bytes those blocks stand for. |
| ByteRun1.CompressRoundTrip | src/FileWriter.php:119-164 | `Decode(Compressed(row)) == Some(row)` for every row. An empty row compresses to nothing. |
| ByteRun1.ConcatDecodes | AmigaIFFConverter.php:420-438 | Rows compressed one by one and written back to back decode, as one stream, to the rows back to back. |
| FileWriter.CompressRowByteRun1 | src/FileWriter.php:119-164 | The loop returns exactly `Compressed(row)`, and that output decodes back to `row`. |
| FileWriter.MeasureRun | src/FileWriter.php:132-136 | The first inner loop computes `RunLength(row, i, 1)`. |
| FileWriter.MeasureLiteral | src/FileWriter.php:145-156 | The second inner loop, with its condition as written, computes `LiteralLength(row, i, 1)`. |
| AmigaConverter.Converter.WriteCompressedRow | AmigaIFFConverter.php:486-528 | Streaming the blocks into the file appends exactly `Compressed(row)`. |
| AmigaConverter.Converter.WriteBlock | AmigaIFFConverter.php:497-526 | From a cursor before the last byte, the loop body writes exactly the block at the cursor and reports how many row bytes it covers. |
| AmigaConverter.Converter.WriteLiteral | AmigaIFFConverter.php:523-525 | The two writes of a literal append its control byte and then its bytes. |
| Bitplanes.RowBytes | src/BitplaneConverter.php:11-12 | A row's byte count is even and holds `width` pixels. The smallest even count does this. |
| Bitplanes.PlaneCount | src/BitplaneConverter.php:29 | `n = ceil(log2(colors))`: `colors <= 2^n`, and `2^(n-1) < colors` when `n > 0`. |
| Bitplanes.InitializeBitplanes | src/BitplaneConverter.php:9-23 | Gives `count` planes of `height` rows. Each row is `RowBytes(width)` zero bytes. |
| Bitplanes.SetPixelBits | src/BitplaneConverter.php:38-46 | Or-ing a pixel's bit sets that pixel's bit when the bit is 1, and leaves every other pixel's bit alone. |
| Bitplanes.PartialRowBits | src/BitplaneConverter.php:36-48 | After `x` pixels, a row holds exactly their bits, and zero beyond. |
| Bitplanes.PackStep | src/BitplaneConverter.php:42-46 | One pass of the plane loop keeps the packer's invariant: every row is the partial row of the pixels done so far. |
| Bitplanes.OrPixelFrame | src/BitplaneConverter.php:45 | `|=` on one byte changes only that row of that plane. |
| Bitplanes.OrBit | src/BitplaneConverter.php:45 | `$bitplaneData[$plane][$y][$byteOffset] |= (1 << $bitOffset)` on the planes. `OrPixelFrame` and `SetPixelBits` state what it changes. |
| Bits.SetBit | src/BitplaneConverter.php:45 | `b | (1 << k)` on one byte. With `SetBitBit` it turns bit `k` on and leaves the seven other bits alone. |
| Bits.SetBitBit | src/BitplaneConverter.php:45 | After `|=` with `1 << k`, bit `k` is one and every other bit is what it was. |
| Bits.CeilLog2 | src/BitplaneConverter.php:29 | `ceil(log(n, 2))` on integers: `n <= 2^k`, and `2^(k-1) < n` when `k > 0`. |
| Bitplanes.ProgressPacked | src/BitplaneConverter.php:35-54 | When every row is done, the planes hold the image exactly. Padding columns stay zero. |
| Bitplanes.ConvertToBitplanes | src/BitplaneConverter.php:25-57 | The planes are `Packed` with `ceil(log2(|palette|))` planes. Bit `q` of each pixel's index is in plane `q`, and every padding column is zero. |
| Bitplanes.PackPixel | src/BitplaneConverter.php:36-47 | The plane loop for one pixel moves the invariant on by one column. |
| Bitplanes.ReadBack | src/BitplaneConverter.php:42-46 | Reading any `m` of the packed planes back gives the pixel's index modulo `2^m`. |
| Bitplanes.ReadBackExact | src/BitplaneConverter.php:29-46 | An index below the palette size is read back exactly from all the planes. |
| Bitplanes.RowBytesExamples | src/BitplaneConverter.php:11-12 | 320 pixels take 40 bytes, 321 take 42, one pixel takes 2. |
| Ham.Quantize | src/HAMConverter.php:63-65 | `min(15, (int)(c / 16))` is the largest level of at most 15 whose 16-fold does not exceed `c`. |
| Ham.GetRGB | src/HAMConverter.php:58-67 | Every channel of the result is a 4-bit level. |
| Ham.HamStep | src/HAMConverter.php:29-48 | A pixel's value is 16..63 and the carried colour stays 4-bit. |
| Ham.HamStepChoice | src/HAMConverter.php:29-48 | Red is modified (mode 2) iff its difference is a largest one. Green (mode 3) iff it beats red and ties or beats blue. Blue (mode 1) otherwise. The chosen channel alone takes the target level. |
| Ham.ModifyInvertsStep | src/HAMConverter.php:36-48 | Reading the emitted value as the hardware does (mode 1 blue 16+b, mode 2 red 32+r, mode 3 green 48+g) gives the encoder's carried colour. |
| Ham.HamStepExact | src/HAMConverter.php:29-48 | A target one channel away from the carried colour is reached in one pixel. |
| Ham.QuantizeLevel | src/HAMConverter.php:61-65 | The conversion "to 4-bit (0-15) range" keeps a colour already on that range: level `v`, shown by the hardware as the 8-bit channel `17 * v`, converts back to `v`. |
| Ham.QuantizeMonotone | src/HAMConverter.php:61-65 | The 4-bit conversion keeps the order of brightness: a brighter channel never gets a lower level. |
| Ham.AccAt | src/HAMConverter.php:19-48 | The carried colour starts black on every scanline and stays 4-bit. |
| Ham.ValueAt | src/HAMConverter.php:36-48 | Every emitted value is 16..63. |
| Ham.ControlPixel | src/HAMConverter.php:18-52 | Each pixel of the value raster is what the encoder emits there. |
| Ham.DisplayedIsCarried | src/HAMConverter.php:18-52 | Replaying a scanline's values from black reproduces the encoder's carried colour at every pixel. |
| Ham.RedAfterBlack | src/HAMConverter.php:36-39 | Pure red after black emits value 47 and carries `(15, 0, 0)`. |
| Ham.ConvertToHAM | src/HAMConverter.php:9-56 | Six planes hold the six bits of every pixel's HAM value, with padding columns zero. |
| Ham.ConvertScanline | src/HAMConverter.php:18-53 | One scanline, starting black, leaves every row so far holding its values. |
| Ham.EncodePixel | src/HAMConverter.php:25-48 | From the colour carried before pixel `x`, one pixel emits the encoder's value for `x` and carries the colour after it. |
| Ham.ModifyChannel | src/HAMConverter.php:29-48 | The differences, their maximum and the branch chain give exactly the step's value and new colour. |
| Ham.SetHAMBits | src/HAMConverter.php:69-81 | Bits 0..5 of the value are or-ed into planes 0..5 at the pixel, and nothing else changes. |
| Ilbm.U16BE | AmigaIFFConverter.php:340-352 | `pack("n")` is two bytes. |
| Ilbm.U32BE | src/FileWriter.php:33 | `pack("N")` is four bytes. `U32RoundTrip` states that reading them back gives the value modulo `2^32`. |
| Bits.ToByte | src/FileWriter.php:55-61 | `pack("C")` and `chr` keep the value modulo 256. `U16RoundTrip` and `U32RoundTrip` rely on it for each byte of a field. |
| Ilbm.U16RoundTrip | AmigaIFFConverter.php:340-352 | Reading a packed 16-bit field gives the number modulo `2^16`. |
| Ilbm.U32RoundTrip | src/FileWriter.php:31-33 | Reading a packed 32-bit field gives the number modulo `2^32`. |
| Ilbm.Pad | src/FileWriter.php:80-83 | The pad is one zero byte exactly when the length is odd. The padded length is even. |
| Ilbm.ParseChunkBytes | src/FileWriter.php:68-84 | A written chunk reads back as that chunk, followed by whatever comes after it. |
| Ilbm.ParseChunksBytes | src/FileWriter.php:15-36 | A run of written chunks reads back as those chunks, in order. |
| Ilbm.FormParts | src/FileWriter.php:38-43 | The FORM header is 12 bytes: `FORM`, the length, `ILBM`. The chunks start at offset 12. |
| Ilbm.FormLengthField | src/FileWriter.php:30-33 | The field at offset 4 holds the file length less 8, modulo `2^32`. |
| Ilbm.IlbmFileParses | src/FileWriter.php:15-36 | A file under 4 GiB reads back as a FORM of type ILBM that holds exactly BMHD, CMAP and BODY, in that order, with their payloads. |
| Ilbm.BmhdPayload | src/FileWriter.php:45-66 | The BMHD payload is 20 bytes. |
| Ilbm.BmhdFields | src/FileWriter.php:45-66 | w, h, x=0, y=0, nPlanes, masking 0, compression 1 or 0, pad 0, transparent colour 0, aspect 1:1, page w and h, each at its offset. |
| Ilbm.CmapPayload | src/FileWriter.php:72-78 | The colour map is `3 * count` bytes: red, green, blue of each entry, in palette order. |
| Ilbm.CmapChunkLength | src/FileWriter.php:68-84 | The CMAP chunk is `8 + 3 * count` bytes, plus one pad byte iff the count is odd. |
| Ilbm.PlaneRows | src/FileWriter.php:99-106 | The inner BODY loop emits one row per plane. |
| Ilbm.EncodeRow | src/FileWriter.php:101-105 | One BODY row: ByteRun1-compressed when compression is on, the plane row's bytes otherwise. |
| Ilbm.RowList | src/FileWriter.php:98-107 | The BODY holds `height * planes` rows. |
| Ilbm.RowListAt | src/FileWriter.php:98-107 | Row `yy * planes + q` of the BODY is row `yy` of plane `q`: y-major, plane-minor. |
| Ilbm.BodyRowsAt | src/FileWriter.php:98-107 | Uncompressed, the BODY is `height * planes * rowBytes` bytes, and byte `k` of row `yy` of plane `q` is at `BodyOffset`. |
| Ilbm.RowLengths | src/FileWriter.php:98-107 | Uncompressed, every BODY row is one plane row long. |
| Ilbm.BodyDecodes | src/FileWriter.php:100-102 | The compressed BODY decodes, as one ByteRun1 stream, to the uncompressed BODY. |
| FileWriter.WriteIFFFile | src/FileWriter.php:15-36 | Fails with `CannotCreate` when the file cannot be opened. Fails with `MissingRow` when there are no planes, or when a plane is shorter than plane 0. Otherwise it writes exactly `IlbmFile` of the BMHD (with `ceil(log2(colors))` planes), the CMAP and the BODY. |
| FileWriter.FileLayout | src/FileWriter.php:25-28 | The header plus the three chunks as written is `FORM`, a zero length, `ILBM` and the three chunks, 12 bytes longer than the chunks. |
| FileWriter.PatchFormLength | src/FileWriter.php:30-33 | `ftell - 8`, written at offset 4, turns the file into `Form(ILBM, chunks)`. |
| FileWriter.WriteFORMHeader | src/FileWriter.php:38-43 | Appends `FORM`, four zero bytes and `ILBM`. |
| FileWriter.WriteBMHDChunk | src/FileWriter.php:45-66 | Appends `BMHD`, the length 20 and the 20-byte header. |
| FileWriter.FixedLengthChunk | src/FileWriter.php:47-65 | A 20-byte payload behind the constant length 20 is a well-formed chunk with no pad. |
| FileWriter.WriteCMAPChunk | src/FileWriter.php:68-84 | Appends the CMAP chunk of the palette, padded iff its length is odd. |
| FileWriter.CmapChunkParts | src/FileWriter.php:70-83 | Tag, `count * 3`, the colours and the conditional pad form the CMAP chunk. |
| FileWriter.WriteBODYChunk | src/FileWriter.php:86-117 | Appends the BODY chunk. Its length field excludes the pad, and the pad is written iff the length is odd. |
| FileWriter.WriteBodyRows | src/FileWriter.php:98-107 | The row loop appends the BODY's rows, y-major, plane-minor. |
| FileWriter.WriteRowGroup | src/FileWriter.php:99-106 | The plane loop appends row `y` of every plane, each compressed or verbatim. |
| FileWriter.PatchBodyLength | src/FileWriter.php:109-116 | Patching `ftell - bodyStart` at the length's position and padding an odd body gives a well-formed BODY chunk. |
| FileWriter.NextBodyRow | src/FileWriter.php:98-107 | One more row group extends the BODY by one image row. |
| FileWriter.NextPlaneRow | src/FileWriter.php:99-106 | One more plane's row, written after the rows of the planes before it, extends the row group by that row. |
| AmigaConverter.ProgressStep | AmigaIFFConverter.php:433 | The progress step is `floor(total / 20)`, kept at one or more. |
| AmigaConverter.ProgressDueAsWritten | AmigaIFFConverter.php:251 | The progress test as written with the truncated modulus. It has no answer, because `%` throws, exactly when the image has fewer than 20 pixels. |
| AmigaConverter.ProgressDue | AmigaIFFConverter.php:251 | The same test with the step kept at one or more, as at line 433. `ProgressDueAgrees` states that it agrees with the test as written where that has an answer. |
| AmigaConverter.SmallImagePixels | AmigaIFFConverter.php:231-251 | An image with a pixel whose truncated twentieth is zero has 1..19 pixels. |
| AmigaConverter.NoPixels | AmigaIFFConverter.php:231-251 | When the loops finish with the step zero only if no row or no column exists, the image does not have 1..19 pixels. |
| AmigaConverter.SmallImageThrows | AmigaIFFConverter.php:251 | With 1..19 pixels, the test as written is a modulo by zero on the first pixel. |
| AmigaConverter.ProgressDueAgrees | AmigaIFFConverter.php:251 | The test as written has an answer iff the image has at least 20 pixels. There, the corrected test gives the same answer. |
| AmigaConverter.ReportsAreSteps | AmigaIFFConverter.php:250-254 | With the corrected step, the reports over `k` pixels number `k / step`. |
| AmigaConverter.ReportCount | AmigaIFFConverter.php:250-254 | An image of 20 pixels or more gets 20 to 39 reports. A smaller image gets one report per pixel. |
| AmigaConverter.OutputParses | AmigaIFFConverter.php:272-305 | The converter's file reads back as exactly its BMHD, CMAP and BODY chunks. |
| AmigaConverter.BodyPixel | AmigaIFFConverter.php:218-258 | From packed planes, the compressed BODY decodes to the uncompressed one. There, bit `7 - x % 8` of the byte at `BodyOffset` for pixel `(x, y)` in plane `q` is bit `q` of the pixel's index. |
| AmigaConverter.Converter.constructor | AmigaIFFConverter.php:68-70 | A new converter has five planes. |
| AmigaConverter.Converter.SetUp | AmigaIFFConverter.php:126-141 | Sets the target size, `ceil(log2(colors))` planes and the palette, and leaves the planes alone. |
| AmigaConverter.Converter.ConvertToBitplanes | AmigaIFFConverter.php:218-258 | It fails with `ModuloByZero` exactly when the image has 1..19 pixels. The progress test then throws on the first pixel, which is the only pixel packed. Otherwise the planes field becomes `Packed` for the image with `bitplanes` planes. Size, plane count and palette are unchanged either way. |
| AmigaConverter.Converter.PackRows | AmigaIFFConverter.php:235-256 | The row loop packs every row. It stops after the first pixel exactly when the step is zero and the image has a pixel. |
| AmigaConverter.Converter.PackRow | AmigaIFFConverter.php:236-255 | The column loop packs, counts and tests every pixel of row `y`. The test throws exactly when the step is zero and the row has a pixel, and then on the row's first pixel. |
| AmigaConverter.Converter.PackPixel | AmigaIFFConverter.php:239-248 | The plane loop for one pixel moves the packer's invariant on by one column. |
| AmigaConverter.Converter.WriteIFFFile | AmigaIFFConverter.php:272-306 | Fails with `CannotCreate` when the file cannot be opened. Otherwise it writes exactly `IlbmFile` of the fields. The FORM length is `ftell - formSizePos - 4`. |
| AmigaConverter.Converter.WriteBMHDChunk | AmigaIFFConverter.php:334-355 | Appends the BMHD chunk of the fields. |
| AmigaConverter.Converter.WriteCMAPChunk | AmigaIFFConverter.php:366-381 | Appends the CMAP chunk of the palette field. |
| AmigaConverter.Converter.WriteBODYChunk | AmigaIFFConverter.php:399-465 | Appends the BODY chunk of `height` rows of each of the `bitplanes` planes, with the length patched in and padded iff odd. |
| AmigaConverter.Converter.WriteBodyRows | AmigaIFFConverter.php:420-438 | The row loop appends `BodyRows` of the planes field. |
| AmigaConverter.Converter.WriteRowGroup | AmigaIFFConverter.php:421-437 | The plane loop appends row `y` of every plane, each compressed or verbatim. |
| Sink.Overwrite | src/FileWriter.php:110-112 | `fwrite` at a position replaces bytes there and extends the file past its end. |
| Sink.OverwriteField | src/FileWriter.php:110-111 | Writing over a field replaces that field alone. |
| Sink.OverwriteAtEnd | src/FileWriter.php:112-115 | Writing at the end of the file appends. |
| Sink.FileBuffer.Write | src/FileWriter.php:31-33 | `fwrite` replaces the bytes from the position on, extends the file past its end, and moves the position past what it wrote. |
| Sink.FileBuffer.Append | src/FileWriter.php:40-42 | `fwrite` at the end of the file appends and stays at the end. |
| Sink.FileBuffer.Tell | src/FileWriter.php:90-92 | `ftell` is the position. |
| Sink.FileBuffer.Seek | src/FileWriter.php:110-112 | `fseek` moves the position and leaves the bytes alone. |

## Left out

- Image loading, resizing and colour reduction are left out. This covers GD,
  `AmigaIFFConverter.php:104-207`, and `src/ImageProcessor.php`. The packer
  receives the indexed raster and the palette that GD would produce.
  `Converter.SetUp` receives the palette instead of extracting it at
  `AmigaIFFConverter.php:195-202`.
- The orchestrator `src/AmigaIFFConverter.php`, the command-line script and
  `src/DitheringHandler.php` are not part of this model.
- Progress messages, `echo`, `flush` and the closing summary are not modelled.
  Only the progress arithmetic at `AmigaIFFConverter.php:251` is kept, for the
  finding below. The same goes for `gc_collect_cycles` and `fclose`.
- The BODY writer's `try`/`catch`, which only reports and rethrows, is not
  modelled. So are the unused `$rowBytes` and `$padding` in the converter's
  BODY writer.
- Files become a byte buffer with a position (`Sink.FileBuffer`). The value
  that `fopen` returns becomes the `canCreate` parameter.
- FileWriter.WriteIFFFile: with no planes, or with a plane shorter than plane
  0, PHP fails at or during the BODY and leaves a partial file behind. The
  model returns `MissingRow` and no file contents.
- Bitplanes.PlaneCount: the float expression `ceil(log(colors, 2))` is replaced
  by the integer `CeilLog2`.
  - The two agree for every colour count an ILBM palette can hold, and far
    beyond.
  - PHP computes `log($n, 2)` with C's `log2`, which is exact at every power
    of two. The float can part from the integer only just past very large
    powers of two (from about `2^49`), where `log2(2^k + 1)` rounds down to
    `k`. That is far beyond any palette.
  - For 0 colours the float is minus infinity, so no plane loop runs. The
    model gives 0 planes.
- Ham.ConvertToHAM: the `palette` argument is accepted and not consulted, as
  in the source.
  - The image's 24-bit colours arrive as an `Rgb` raster in place of
    `imagecolorsforindex`.
  - HAM's `initializeBitplanes` is the same code as BitplaneConverter's, and
    both are modelled by `Bitplanes.InitializeBitplanes`.
- Converter.WriteBMHDChunk and Converter.WriteCMAPChunk produce the same bytes
  as the stand-alone writer. They call its methods with the class's fields.
- These loop bodies are split out as methods, so that each proof stays small:
  - `PackPixel`, `PackRows`, `PackRow`, `ConvertScanline`, `EncodePixel`,
    `ModifyChannel`, `MeasureRun`, `MeasureLiteral`, `WriteBodyRows`,
    `WriteRowGroup`, `WriteBlock` and `WriteLiteral`;
  - in `WriteBlock`, the source's `continue` becomes an early return.
- 16- and 32-bit fields keep the low bits of their value (`pack` truncation),
  so a file of 4 GiB or more has a wrapped FORM length. The read-back lemmas
  assume a smaller file.

## Findings

| source | as written | input that shows it | evidently intended | confidence | as-written member | corrected member |
|---|---|---|---|---|---|---|
| AmigaIFFConverter.php:251 | The progress test is `$pixelCount % ($totalPixels / 20)`. The modulus truncates `$totalPixels / 20` to an integer, which is 0 for images of fewer than 20 pixels, so `%` throws a modulo-by-zero error on the first pixel. | A 4 x 4 image (16 pixels): on pixel 1 the test is `1 % 0`. | A step of at least one, as the BODY writer computes at AmigaIFFConverter.php:433 (`max(1, floor(total / 20))`), giving a report about every twentieth of the image. | not executed | AmigaConverter.ProgressDueAsWritten, AmigaConverter.SmallImageThrows | AmigaConverter.ProgressDue, AmigaConverter.ReportCount |

The converter's packer, `AmigaConverter.Converter.ConvertToBitplanes`, keeps
the test as written, so a small image ends in `ModuloByZero` as the source
does. The progress reports (`Reports`, `ReportCount`) are counted with the
corrected test.
