/** The single-class converter: it keeps the image size, the plane count, the
    palette and the packed planes in its fields, fills the planes in place,
    and streams the FORM, BMHD, CMAP and BODY chunks into the output file,
    compressing each BODY row as it writes it. */
module AmigaConverter {
  import opened Bits
  import opened Wrappers
  import opened Raster
  import opened Bitplanes
  import opened Ilbm
  import opened Sink
  import ByteRun1
  import FileWriter

  // ---------------------------------------------------------------------------
  // Progress reports of the packer

  /** The packer's progress test as written: `pixelCount % (totalPixels / 20)`.
      The modulus drops the fraction of the quotient, and a zero modulus
      throws (`None`). */
  function ProgressDueAsWritten(pixelCount: nat, totalPixels: nat): (r: Option<bool>)
    ensures r.None? <==> totalPixels < 20
  {
    var step := totalPixels / 20;
    if step == 0 then None else Some(pixelCount % step == 0)
  }

  /** An image of one to 19 pixels makes the packer throw on its first
      pixel. */
  lemma {:induction false} SmallImageThrows(totalPixels: nat)
    requires 1 <= totalPixels < 20
    ensures ProgressDueAsWritten(1, totalPixels) == None
  {
  }

  /** Pixels between two progress reports: a twentieth of the image, and at
      least one, as the BODY writer computes its own step. */
  function ProgressStep(totalPixels: nat): (s: nat)
    ensures s >= 1 && (totalPixels >= 20 ==> s == totalPixels / 20)
  {
    if totalPixels / 20 < 1 then 1 else totalPixels / 20
  }

  /** The packer's progress test with the step kept at one or more. */
  function ProgressDue(pixelCount: nat, totalPixels: nat): bool
  {
    pixelCount % ProgressStep(totalPixels) == 0
  }

  /** Where the test as written gives an answer, the corrected test gives the
      same one, and it gives one for every image. */
  lemma {:induction false} ProgressDueAgrees(pixelCount: nat, totalPixels: nat)
    ensures ProgressDueAsWritten(pixelCount, totalPixels).Some? <==> totalPixels >= 20
    ensures totalPixels >= 20 ==> ProgressDueAsWritten(pixelCount, totalPixels) == Some(ProgressDue(pixelCount, totalPixels))
  {
  }

  /** Reports made over the first `k` pixels of an image of `totalPixels`. */
  function Reports(k: nat, totalPixels: nat): nat
  {
    if k == 0 then 0 else Reports(k - 1, totalPixels) + (if ProgressDue(k, totalPixels) then 1 else 0)
  }

  /** One more pixel adds one report exactly when it ends a step. */
  lemma {:induction false} DivNext(k: nat, s: nat)
    requires k >= 1 && s >= 1
    ensures k / s == (k - 1) / s + (if k % s == 0 then 1 else 0)
  {
    var q, r := (k - 1) / s, (k - 1) % s;
    if r + 1 < s {
      DivModUnique(k, s, q, r + 1);
    } else {
      DivModUnique(k, s, q + 1, 0);
    }
  }

  /** The reports over `k` pixels are the whole steps in `k`. */
  lemma {:induction false} ReportsAreSteps(k: nat, totalPixels: nat)
    ensures Reports(k, totalPixels) == k / ProgressStep(totalPixels)
  {
    if k > 0 {
      ReportsAreSteps(k - 1, totalPixels);
      DivNext(k, ProgressStep(totalPixels));
    }
  }

  /** With the step corrected, an image of 20 pixels or more gets between 20
      and 39 reports, one about every twentieth of it, and a smaller image one
      report per pixel. */
  lemma {:induction false} ReportCount(totalPixels: nat)
    ensures totalPixels < 20 ==> Reports(totalPixels, totalPixels) == totalPixels
    ensures totalPixels >= 20 ==> 20 <= Reports(totalPixels, totalPixels) <= 39
  {
    ReportsAreSteps(totalPixels, totalPixels);
    if totalPixels >= 20 {
      StepsInImage(totalPixels, totalPixels / 20);
    } else {
      DivModUnique(totalPixels, 1, totalPixels, 0);
    }
  }

  /** A twentieth of `t`, rounded down, goes into `t` between 20 and 39
      times. */
  lemma {:induction false} StepsInImage(t: nat, s: nat)
    requires t >= 20 && s == t / 20
    ensures s >= 1 && 20 <= t / s <= 39
  {
    var m := t % 20;
    assert t == s * 20 + m && m < 20;
    var q, r := t / s, t % s;
    assert t == q * s + r && r < s;
    if q >= 40 {
      MulAtLeast2(q, 40, s);
      assert false;
    }
    if q <= 19 {
      MulAtLeast2(19, q, s);
      assert false;
    }
  }

  // ---------------------------------------------------------------------------
  // The file the converter writes

  /** The converter's file: a BMHD of the image size, the plane count and the
      compression flag; the palette; and `height` rows of each of the planes,
      uncompressed or ByteRun1-compressed. */
  function Output(width: nat, height: nat, bitplanes: nat, palette: seq<Rgb>, imageData: Planes, compress: bool): seq<byte>
    requires Tall(imageData, height)
  {
    IlbmFile(BmhdPayload(width, height, bitplanes, compress), CmapPayload(palette), BodyRows(imageData, height, compress))
  }

  /** Read back, the file holds exactly the three chunks that were written. */
  lemma {:induction false} OutputParses(width: nat, height: nat, bitplanes: nat, palette: seq<Rgb>,
                                        imageData: Planes, compress: bool)
    requires Tall(imageData, height)
    requires |Output(width, height, bitplanes, palette, imageData, compress)| - 8 < Limit32
    ensures ParseForm(Output(width, height, bitplanes, palette, imageData, compress)) ==
      Some((IlbmTag, [Chunk(BmhdTag, BmhdPayload(width, height, bitplanes, compress)),
                      Chunk(CmapTag, CmapPayload(palette)),
                      Chunk(BodyTag, BodyRows(imageData, height, compress))]))
  {
    IlbmFileParses(BmhdPayload(width, height, bitplanes, compress), CmapPayload(palette), BodyRows(imageData, height, compress));
  }

  /** From packed planes, the BODY decodes to the uncompressed rows, and bit
      `7 - x % 8` of the byte at `BodyOffset` for column `x` of row `y` in
      plane `q` is bit `q` of that pixel's index. */
  lemma {:induction false} BodyPixel(planes: Planes, img: Image<nat>, n: nat, y: nat, q: nat, x: nat)
    requires Packed(planes, img, n) && y < img.height && q < n && x < img.width
    ensures ByteRun1.Decode(BodyRows(planes, img.height, true)) == Some(BodyRows(planes, img.height, false))
    ensures var k := BodyOffset(n, RowBytes(img.width), y, q, x / 8);
      k < |BodyRows(planes, img.height, false)| &&
      Bit(BodyRows(planes, img.height, false)[k], 7 - x % 8) == Bit(img.pixels[y][x], q)
  {
    var r := RowBytes(img.width);
    assert Rectangular(planes, img.height, r);
    BodyRowsAt(planes, img.height, r, y, q, x / 8);
    assert PixelBit(planes[q][y], x) == Bit(img.pixels[y][x], q);
    BodyDecodes(planes, img.height);
  }

  /** An image whose progress step is zero and that has a pixel has one to
      19 pixels. */
  lemma {:induction false} SmallImagePixels(width: nat, height: nat)
    requires width > 0 && height > 0 && (height * width) / 20 == 0
    ensures 1 <= width * height < 20
  {
    MulAtLeast2(height, 1, width);
  }

  /** An image with no row or no column has no pixels. */
  lemma {:induction false} NoPixels(width: nat, height: nat, totalPixels: nat)
    requires totalPixels == height * width && !(totalPixels / 20 == 0 && width > 0 && height > 0)
    ensures !(1 <= width * height < 20)
  {
  }

  // ---------------------------------------------------------------------------
  // The converter

  /** Why packing stops: the progress test's modulus is zero. */
  datatype ConvertError = ModuloByZero

  class Converter {
    var width: nat
    var height: nat
    var bitplanes: nat
    var palette: seq<Rgb>
    var imageData: Planes

    /** A new converter defaults to five planes, 32 colours; the other fields
        are unset, here empty. */
    constructor ()
      ensures bitplanes == 5 && width == 0 && height == 0 && palette == [] && imageData == []
    {
      bitplanes := 5;
      width := 0;
      height := 0;
      palette := [];
      imageData := [];
    }

    /** Ready to write: the planes hold a row for every image row and exist for
        every plane the writer walks. This is a phase of the converter, not an
        invariant of it: it holds once `ConvertToBitplanes` succeeds, and the
        constructor and `SetUp` do not establish it. */
    predicate Ready()
      reads this
    {
      |imageData| == bitplanes && Tall(imageData, height)
    }

    /** The target size, `ceil(log2(colors))` planes and the palette the
        reduced image uses. */
    method SetUp(targetWidth: nat, targetHeight: nat, colors: nat, reduced: seq<Rgb>)
      modifies this
      ensures width == targetWidth && height == targetHeight
      ensures bitplanes == PlaneCount(colors) && palette == reduced && imageData == old(imageData)
    {
      width := targetWidth;
      height := targetHeight;
      bitplanes := PlaneCount(colors);
      palette := reduced;
    }

    /** Packs the indexed image into the planes field: zeroed planes of
        `RowBytes(width)`-byte rows, then each pixel's low bits or-ed in, one
        per plane. After each pixel the progress test runs as written; on an
        image of one to 19 pixels its modulus is zero and the first pixel
        throws, leaving only that pixel packed. */
    method ConvertToBitplanes(img: Image<nat>) returns (r: Result<(), ConvertError>)
      requires img.Valid() && img.width == width && img.height == height
      modifies this
      ensures r.Failure? <==> 1 <= width * height < 20
      ensures r.Success? ==> Packed(imageData, img, bitplanes) && Ready()
      ensures r.Failure? ==> r.error == ModuloByZero && Progress(imageData, img, bitplanes, 0, 1, 0)
      ensures width == old(width) && height == old(height) && bitplanes == old(bitplanes) && palette == old(palette)
    {
      imageData := InitializeBitplanes(width, height, bitplanes);
      StartProgress(imageData, img, bitplanes);
      var totalPixels := height * width;
      var failed := PackRows(img, totalPixels);
      if failed {
        SmallImagePixels(width, height);
        r := Failure(ModuloByZero);
      } else {
        ProgressPacked(imageData, img, bitplanes);
        NoPixels(width, height, totalPixels);
        r := Success(());
      }
    }

    /** The row loop: every row packed in turn, unless the progress test
        throws on the first pixel. */
    method PackRows(img: Image<nat>, totalPixels: nat) returns (failed: bool)
      requires img.width == width && img.height == height
      requires Progress(imageData, img, bitplanes, 0, 0, 0)
      modifies this
      ensures failed <==> totalPixels / 20 == 0 && width > 0 && height > 0
      ensures !failed ==> Progress(imageData, img, bitplanes, height, 0, 0)
      ensures failed ==> Progress(imageData, img, bitplanes, 0, 1, 0)
      ensures width == old(width) && height == old(height) && bitplanes == old(bitplanes) && palette == old(palette)
    {
      failed := false;
      var pixelCount: nat := 0;
      var y := 0;
      while y < height
        invariant !failed && y <= height && Progress(imageData, img, bitplanes, y, 0, 0)
        invariant totalPixels / 20 == 0 ==> y == 0 || width == 0
        invariant width == old(width) && height == old(height) && bitplanes == old(bitplanes) && palette == old(palette)
      {
        pixelCount, failed := PackRow(img, y, pixelCount, totalPixels);
        if failed {
          return;
        }
        NextRow(imageData, img, bitplanes, y);
        y := y + 1;
      }
    }

    /** The column loop for row `y`: each pixel packed, counted and given the
        progress test as written. The test fails exactly when the step is zero
        and the row has a pixel, and then on the row's first pixel. */
    method PackRow(img: Image<nat>, y: nat, pixelCount: nat, totalPixels: nat) returns (count: nat, failed: bool)
      requires img.width == width && img.height == height && y < height
      requires Progress(imageData, img, bitplanes, y, 0, 0)
      requires totalPixels / 20 == 0 ==> y == 0 || width == 0
      modifies this
      ensures failed <==> totalPixels / 20 == 0 && width > 0
      ensures !failed ==> Progress(imageData, img, bitplanes, y, width, 0)
      ensures failed ==> y == 0 && Progress(imageData, img, bitplanes, 0, 1, 0)
      ensures width == old(width) && height == old(height) && bitplanes == old(bitplanes) && palette == old(palette)
    {
      count, failed := pixelCount, false;
      var x := 0;
      while x < width
        invariant x <= width && Progress(imageData, img, bitplanes, y, x, 0)
        invariant totalPixels / 20 == 0 ==> x == 0
        invariant width == old(width) && height == old(height) && bitplanes == old(bitplanes) && palette == old(palette)
      {
        PackPixel(img, y, x);
        count := count + 1;
        // whether a progress line is printed here; the line is not modelled
        var due := ProgressDueAsWritten(count, totalPixels);
        if due == None {
          failed := true;
          return;
        }
        x := x + 1;
      }
    }

    /** The plane loop for one pixel: bit `plane` of its index or-ed into bit
        `7 - x % 8` of byte `x / 8` of row `y` of that plane. */
    method PackPixel(img: Image<nat>, y: nat, x: nat)
      requires Progress(imageData, img, bitplanes, y, x, 0) && y < img.height && x < img.width
      modifies this
      ensures Progress(imageData, img, bitplanes, y, x + 1, 0)
      ensures width == old(width) && height == old(height) && bitplanes == old(bitplanes) && palette == old(palette)
    {
      var colorIndex := img.pixels[y][x];
      var plane := 0;
      while plane < bitplanes
        invariant plane <= bitplanes && Progress(imageData, img, bitplanes, y, x, plane)
        invariant width == old(width) && height == old(height) && bitplanes == old(bitplanes) && palette == old(palette)
      {
        var bit := Bit(colorIndex, plane);
        var byteOffset := x / 8;
        var bitOffset := 7 - x % 8;
        ghost var before, from := imageData, plane;
        if bit == 1 {
          imageData := OrBit(imageData, plane, y, byteOffset, bitOffset);
        }
        plane := plane + 1;
        PackStep(before, img, bitplanes, y, x, from, bit, imageData, plane);
      }
      NextColumn(imageData, img, bitplanes, y, x);
    }

    /** Writes the file: `FORM`, a zero length, `ILBM`, the three chunks, and
        then the FORM length, measured from just past its own field. */
    method WriteIFFFile(canCreate: bool, compress: bool) returns (r: Result<seq<byte>, FileWriter.WriteError>)
      requires Ready()
      ensures !canCreate ==> r == Failure(FileWriter.CannotCreate)
      ensures canCreate ==> r == Success(Output(width, height, bitplanes, palette, imageData, compress))
    {
      if !canCreate {
        return Failure(FileWriter.CannotCreate);
      }
      var f := new FileBuffer();
      ghost var a := Chunk(BmhdTag, BmhdPayload(width, height, bitplanes, compress));
      ghost var b := Chunk(CmapTag, CmapPayload(palette));
      ghost var c := Chunk(BodyTag, BodyRows(imageData, height, compress));
      f.Append(FormTag);
      var formSizePos := f.Tell();
      f.Append(U32BE(0));
      f.Append(IlbmTag);
      ghost var header := f.bytes;
      WriteBMHDChunk(f, compress);
      ghost var withBmhd := f.bytes;
      WriteCMAPChunk(f);
      ghost var withCmap := f.bytes;
      WriteBODYChunk(f, compress);
      ghost var all := f.bytes;
      FileWriter.FileLayout(header, withBmhd, withCmap, all, a, b, c);
      var end := f.Tell();
      var formSize := end - formSizePos - 4;
      f.Seek(formSizePos);
      f.Write(U32BE(formSize));
      FileWriter.PatchFormLength(all, formSize, f.bytes, ChunksBytes([a, b, c]));
      r := Success(f.bytes);
    }

    /** The BMHD chunk of the converter's size, plane count and compression
        flag; its bytes are those of the stand-alone writer's. */
    method WriteBMHDChunk(f: FileBuffer, compress: bool)
      requires f.AtEnd()
      modifies f
      ensures f.bytes == old(f.bytes) + ChunkBytes(Chunk(BmhdTag, BmhdPayload(width, height, bitplanes, compress)))
      ensures f.AtEnd()
    {
      FileWriter.WriteBMHDChunk(f, width, height, bitplanes, compress);
    }

    /** The CMAP chunk of the converter's palette; its bytes are those of the
        stand-alone writer's. */
    method WriteCMAPChunk(f: FileBuffer)
      requires f.AtEnd()
      modifies f
      ensures f.bytes == old(f.bytes) + ChunkBytes(Chunk(CmapTag, CmapPayload(palette)))
      ensures f.AtEnd()
    {
      FileWriter.WriteCMAPChunk(f, palette);
    }

    /** The BODY chunk: its tag, a zero length, row `y` of every plane for each
        image row, the length patched in, and a pad byte when it is odd. */
    method WriteBODYChunk(f: FileBuffer, compress: bool)
      requires f.AtEnd() && Ready()
      modifies f
      ensures f.bytes == old(f.bytes) + ChunkBytes(Chunk(BodyTag, BodyRows(imageData, height, compress)))
      ensures f.AtEnd()
    {
      f.Append(BodyTag);
      var bodySizePos := f.Tell();
      f.Append(U32BE(0));
      var bodyStart := f.Tell();
      WriteBodyRows(f, compress);
      ghost var before := f.bytes;
      var bodySize := f.Tell();
      bodySize := bodySize - bodyStart;
      f.Seek(bodySizePos);
      f.Write(U32BE(bodySize));
      ghost var patched := f.bytes;
      f.Seek(bodyStart + bodySize);
      if bodySize % 2 == 1 {
        f.Write([0]);
      }
      FileWriter.PatchBodyLength(old(f.bytes), BodyRows(imageData, height, compress), before, bodySizePos, bodySize,
                                 patched, bodyStart + bodySize, f.bytes);
    }

    /** The row loop of the BODY writer. */
    method WriteBodyRows(f: FileBuffer, compress: bool)
      requires f.AtEnd() && Ready()
      modifies f
      ensures f.bytes == old(f.bytes) + BodyRows(imageData, height, compress) && f.AtEnd()
    {
      var y := 0;
      while y < height
        invariant y <= height && f.AtEnd()
        invariant f.bytes == old(f.bytes) + BodyRows(imageData, y, compress)
      {
        WriteRowGroup(f, y, compress);
        FileWriter.NextBodyRow(imageData, y, compress);
        AppendAssoc(old(f.bytes), BodyRows(imageData, y, compress), Concat(PlaneRows(imageData, y, bitplanes, compress)));
        y := y + 1;
      }
    }

    /** The plane loop of the BODY writer: row `y` of each plane in turn,
        compressed or as it is. */
    method WriteRowGroup(f: FileBuffer, y: nat, compress: bool)
      requires f.AtEnd() && Ready() && y < height
      modifies f
      ensures f.bytes == old(f.bytes) + Concat(PlaneRows(imageData, y, bitplanes, compress)) && f.AtEnd()
    {
      var plane := 0;
      while plane < bitplanes
        invariant plane <= bitplanes && f.AtEnd()
        invariant f.bytes == old(f.bytes) + Concat(PlaneRows(imageData, y, plane, compress))
      {
        var row := imageData[plane][y];
        ghost var before := f.bytes;
        if compress {
          WriteCompressedRow(f, row);
        } else {
          f.Append(row);
        }
        ghost var from := plane;
        plane := plane + 1;
        FileWriter.NextPlaneRow(imageData, y, from, plane, compress, old(f.bytes), before, EncodeRow(row, compress), f.bytes);
      }
    }

    /** ByteRun1-compresses one row straight into the file, one block at a
        time, a cursor on the last byte emitting it as a literal of one. */
    method WriteCompressedRow(f: FileBuffer, row: seq<byte>)
      requires f.AtEnd()
      modifies f
      ensures f.bytes == old(f.bytes) + ByteRun1.Compressed(row) && f.AtEnd()
    {
      var i := 0;
      var len := |row|;
      ghost var written: seq<byte> := [];
      while i < len
        invariant i <= len && f.AtEnd() && f.bytes == old(f.bytes) + written
        invariant written + ByteRun1.Serialize(ByteRun1.Plan(row, i)) == ByteRun1.Compressed(row)
      {
        if i == len - 1 {
          ByteRun1.LastByteLiteral(row);
          f.Append([0, row[i]]);
          AppendAssoc(old(f.bytes), written, [0, row[i]]);
          written := written + [0, row[i]];
          assert written == ByteRun1.Compressed(row);
          break;
        }
        var size := WriteBlock(f, row, i);
        ghost var block := ByteRun1.BlockBytes(ByteRun1.Head(row, i));
        AppendAssoc(old(f.bytes), written, block);
        ghost var from, before := i, written;
        written := written + block;
        i := i + size;
        ByteRun1.Advance(row, from, before, block, size, i, written);
      }
      assert written == ByteRun1.Compressed(row);
    }

    /** One block from a cursor before the last byte: a run of three to 127
        equal bytes as a repeat, and otherwise a literal run; `size` is the
        number of row bytes it covers. */
    method WriteBlock(f: FileBuffer, row: seq<byte>, i: nat) returns (size: nat)
      requires f.AtEnd() && i < |row| - 1
      modifies f
      ensures f.bytes == old(f.bytes) + ByteRun1.BlockBytes(ByteRun1.Head(row, i)) && f.AtEnd()
      ensures size == ByteRun1.Size(ByteRun1.Head(row, i))
    {
      var run := FileWriter.MeasureRun(row, i);
      if run >= 3 {
        ByteRun1.RepeatHead(row, i, run);
        f.Append([ToByte(257 - run), row[i]]);
        return run;
      }
      var different := FileWriter.MeasureLiteral(row, i);
      var startPos := i;
      ByteRun1.LiteralHead(row, i, run, different);
      WriteLiteral(f, row, startPos, different);
      size := different;
    }

    /** A literal run as the compressor writes it: the control byte
        `different - 1`, then the `different` bytes from `startPos` on. */
    method WriteLiteral(f: FileBuffer, row: seq<byte>, startPos: nat, different: nat)
      requires f.AtEnd() && 1 <= different && startPos + different <= |row|
      modifies f
      ensures f.bytes == old(f.bytes) + ([ToByte(different - 1)] + row[startPos..startPos + different]) && f.AtEnd()
    {
      f.Append([ToByte(different - 1)]);
      f.Append(row[startPos..startPos + different]);
      AppendAssoc(old(f.bytes), [ToByte(different - 1)], row[startPos..startPos + different]);
    }
  }
}
