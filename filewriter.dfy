/** The stand-alone IFF writer: a FORM header, then the BMHD, CMAP and BODY
    chunks, each written in place into the output file, with the BODY and
    FORM lengths patched in once their contents are known. */
module FileWriter {
  import opened Bits
  import opened Wrappers
  import opened Raster
  import opened Bitplanes
  import opened Ilbm
  import opened Sink
  import ByteRun1

  /** The writer's options: the image size, the colour count the BMHD plane
      count comes from, and whether the BODY is ByteRun1-compressed. */
  datatype Options = Options(width: int, height: int, colors: nat, compress: bool)

  /** Why no file comes out: it could not be created, or the BODY loop reads a
      plane row that does not exist (no planes at all, or a plane shorter
      than plane 0). */
  datatype WriteError = CannotCreate | MissingRow

  /** The BODY loop can read every row it asks for: row `y` of every plane
      for every `y` below the height of plane 0. */
  predicate Readable(bitplanes: Planes)
  {
    |bitplanes| > 0 && Tall(bitplanes, |bitplanes[0]|)
  }

  /** The file the writer produces from readable planes. */
  function Written(bitplanes: Planes, palette: seq<Rgb>, options: Options): seq<byte>
    requires Readable(bitplanes)
  {
    IlbmFile(BmhdPayload(options.width, options.height, PlaneCount(options.colors), options.compress),
             CmapPayload(palette),
             BodyRows(bitplanes, |bitplanes[0]|, options.compress))
  }

  /** Writes the whole file. The result is the file's contents, or why it was
      not written. */
  method WriteIFFFile(canCreate: bool, bitplanes: Planes, palette: seq<Rgb>, options: Options)
    returns (r: Result<seq<byte>, WriteError>)
    ensures !canCreate ==> r == Failure(CannotCreate)
    ensures canCreate && !Readable(bitplanes) ==> r == Failure(MissingRow)
    ensures canCreate && Readable(bitplanes) ==> r == Success(Written(bitplanes, palette, options))
  {
    if !canCreate {
      return Failure(CannotCreate);
    }
    if !Readable(bitplanes) {
      return Failure(MissingRow);
    }
    var f := new FileBuffer();
    var numBitplanes := PlaneCount(options.colors);
    ghost var a := Chunk(BmhdTag, BmhdPayload(options.width, options.height, numBitplanes, options.compress));
    ghost var b := Chunk(CmapTag, CmapPayload(palette));
    ghost var c := Chunk(BodyTag, BodyRows(bitplanes, |bitplanes[0]|, options.compress));
    WriteFORMHeader(f);
    ghost var header := f.bytes;
    WriteBMHDChunk(f, options.width, options.height, numBitplanes, options.compress);
    ghost var withBmhd := f.bytes;
    WriteCMAPChunk(f, palette);
    ghost var withCmap := f.bytes;
    WriteBODYChunk(f, bitplanes, options.compress);
    ghost var all := f.bytes;
    FileLayout(header, withBmhd, withCmap, all, a, b, c);
    var end := f.Tell();
    var formSize := end - 8;
    f.Seek(4);
    f.Write(U32BE(formSize));
    PatchFormLength(all, formSize, f.bytes, ChunksBytes([a, b, c]));
    assert f.bytes == Written(bitplanes, palette, options);
    r := Success(f.bytes);
  }

  /** The file as the four writers leave it, before the FORM length is
      patched. */
  lemma {:induction false} FileLayout(header: seq<byte>, withBmhd: seq<byte>, withCmap: seq<byte>, all: seq<byte>,
                                      a: Chunk, b: Chunk, c: Chunk)
    requires header == [] + FormTag + U32BE(0) + IlbmTag
    requires withBmhd == header + ChunkBytes(a)
    requires withCmap == withBmhd + ChunkBytes(b)
    requires all == withCmap + ChunkBytes(c)
    ensures all == FormTag + U32BE(0) + IlbmTag + ChunksBytes([a, b, c])
    ensures |all| == 12 + |ChunksBytes([a, b, c])|
  {
    var h := FormTag + U32BE(0) + IlbmTag;
    assert [] + FormTag == FormTag;
    ThreeChunks(a, b, c);
    AppendAssoc(h + ChunkBytes(a), ChunkBytes(b), ChunkBytes(c));
    AppendAssoc(h, ChunkBytes(a), ChunkBytes(b) + ChunkBytes(c));
    AppendAssoc(ChunkBytes(a), ChunkBytes(b), ChunkBytes(c));
  }

  /** The file before and after the FORM length is patched in. */
  lemma {:induction false} PatchFormLength(all: seq<byte>, size: int, patched: seq<byte>, chunks: seq<byte>)
    requires all == FormTag + U32BE(0) + IlbmTag + chunks && |all| == 12 + |chunks|
    requires size == |all| - 8
    requires patched == Overwrite(all, 4, U32BE(size))
    ensures patched == Form(IlbmTag, chunks)
  {
    var field := U32BE(size);
    OverwriteField(FormTag, U32BE(0), IlbmTag + chunks, field);
    AppendAssoc(FormTag + U32BE(0), IlbmTag, chunks);
    AppendAssoc(FormTag + field, IlbmTag, chunks);
  }

  /** `FORM`, a zero length to be patched, `ILBM`. */
  method WriteFORMHeader(f: FileBuffer)
    requires f.AtEnd()
    modifies f
    ensures f.bytes == old(f.bytes) + FormTag + U32BE(0) + IlbmTag && f.AtEnd()
  {
    f.Append(FormTag);
    f.Append(U32BE(0));
    f.Append(IlbmTag);
  }

  /** The BMHD chunk: its tag, the fixed length 20 and the header. */
  method WriteBMHDChunk(f: FileBuffer, width: int, height: int, numBitplanes: nat, compress: bool)
    requires f.AtEnd()
    modifies f
    ensures f.bytes == old(f.bytes) + ChunkBytes(Chunk(BmhdTag, BmhdPayload(width, height, numBitplanes, compress)))
    ensures f.AtEnd()
  {
    f.Append(BmhdTag);
    f.Append(U32BE(20));
    var data := U16BE(width) + U16BE(height) + U16BE(0) + U16BE(0) +
      [ToByte(numBitplanes), 0, if compress then 1 else 0, 0] +
      U16BE(0) + [1, 1] + U16BE(width) + U16BE(height);
    f.Append(data);
    FixedLengthChunk(old(f.bytes), BmhdTag, data, f.bytes);
  }

  /** A chunk whose length is written as the constant 20. */
  lemma {:induction false} FixedLengthChunk(start: seq<byte>, id: seq<byte>, data: seq<byte>, bytes: seq<byte>)
    requires |data| == 20 && bytes == start + id + U32BE(20) + data
    ensures bytes == start + ChunkBytes(Chunk(id, data))
  {
    assert Pad(|data|) == [];
    AppendAssoc(start, id + U32BE(20), data);
  }

  /** The CMAP chunk: its tag, `3 * count`, the palette's bytes in RGB order
      and a pad byte when the length is odd. */
  method WriteCMAPChunk(f: FileBuffer, palette: seq<Rgb>)
    requires f.AtEnd()
    modifies f
    ensures f.bytes == old(f.bytes) + ChunkBytes(Chunk(CmapTag, CmapPayload(palette))) && f.AtEnd()
  {
    f.Append(CmapTag);
    var cmapSize := |palette| * 3;
    f.Append(U32BE(cmapSize));
    ghost var head := f.bytes;
    var i := 0;
    while i < |palette|
      invariant i <= |palette| && f.AtEnd()
      invariant f.bytes == head + CmapPayload(palette[..i])
    {
      var color := palette[i];
      f.Append([ToByte(color.r), ToByte(color.g), ToByte(color.b)]);
      assert palette[..i + 1][..i] == palette[..i];
      AppendAssoc(head, CmapPayload(palette[..i]), [ToByte(color.r), ToByte(color.g), ToByte(color.b)]);
      i := i + 1;
    }
    assert palette[..i] == palette;
    if cmapSize % 2 == 1 {
      f.Append([0]);
    }
    CmapChunkParts(old(f.bytes), palette, f.bytes);
  }

  lemma {:induction false} CmapChunkParts(start: seq<byte>, palette: seq<Rgb>, bytes: seq<byte>)
    requires bytes == start + CmapTag + U32BE(|palette| * 3) + CmapPayload(palette) +
      (if (|palette| * 3) % 2 == 1 then [0] else [])
    ensures bytes == start + ChunkBytes(Chunk(CmapTag, CmapPayload(palette)))
  {
    var c := Chunk(CmapTag, CmapPayload(palette));
    assert |c.data| == |palette| * 3;
    assert Pad(|c.data|) == if (|palette| * 3) % 2 == 1 then [0] else [];
  }

  /** The BODY chunk: its tag, a zero length, every row of every plane, row by
      row and plane by plane within a row, then the length patched in and a
      pad byte when it is odd. */
  method WriteBODYChunk(f: FileBuffer, bitplanes: Planes, compress: bool)
    requires f.AtEnd() && Readable(bitplanes)
    modifies f
    ensures f.bytes == old(f.bytes) + ChunkBytes(Chunk(BodyTag, BodyRows(bitplanes, |bitplanes[0]|, compress)))
    ensures f.AtEnd()
  {
    f.Append(BodyTag);
    var bodySizePos := f.Tell();
    f.Append(U32BE(0));
    var bodyStart := f.Tell();
    var height := |bitplanes[0]|;
    WriteBodyRows(f, bitplanes, compress);
    ghost var before := f.bytes;
    var bodyEnd := f.Tell();
    var bodySize := bodyEnd - bodyStart;
    f.Seek(bodySizePos);
    f.Write(U32BE(bodySize));
    ghost var patched := f.bytes;
    f.Seek(bodyStart + bodySize);
    if bodySize % 2 == 1 {
      f.Write([0]);
    }
    PatchBodyLength(old(f.bytes), BodyRows(bitplanes, height, compress), before, bodySizePos, bodySize, patched,
                    bodyStart + bodySize, f.bytes);
  }

  /** The outer loop of the BODY writer: every image row in turn. */
  method WriteBodyRows(f: FileBuffer, bitplanes: Planes, compress: bool)
    requires f.AtEnd() && Readable(bitplanes)
    modifies f
    ensures f.bytes == old(f.bytes) + BodyRows(bitplanes, |bitplanes[0]|, compress) && f.AtEnd()
  {
    var height := |bitplanes[0]|;
    var y := 0;
    while y < height
      invariant y <= height && f.AtEnd()
      invariant f.bytes == old(f.bytes) + BodyRows(bitplanes, y, compress)
    {
      WriteRowGroup(f, bitplanes, y, compress);
      NextBodyRow(bitplanes, y, compress);
      AppendAssoc(old(f.bytes), BodyRows(bitplanes, y, compress), Concat(PlaneRows(bitplanes, y, |bitplanes|, compress)));
      y := y + 1;
    }
  }

  /** The inner loop of the BODY writer: row `y` of every plane, in plane
      order. */
  method WriteRowGroup(f: FileBuffer, bitplanes: Planes, y: nat, compress: bool)
    requires f.AtEnd() && Tall(bitplanes, y + 1)
    modifies f
    ensures f.bytes == old(f.bytes) + Concat(PlaneRows(bitplanes, y, |bitplanes|, compress)) && f.AtEnd()
  {
    var planeCount := |bitplanes|;
    var plane := 0;
    while plane < planeCount
      invariant plane <= planeCount && f.AtEnd()
      invariant f.bytes == old(f.bytes) + Concat(PlaneRows(bitplanes, y, plane, compress))
    {
      var row := bitplanes[plane][y];
      var out;
      if compress {
        out := CompressRowByteRun1(row);
      } else {
        out := row;
      }
      ghost var before := f.bytes;
      f.Append(out);
      ghost var from := plane;
      plane := plane + 1;
      NextPlaneRow(bitplanes, y, from, plane, compress, old(f.bytes), before, out, f.bytes);
    }
  }

  /** What the length patch and the pad byte make of the BODY as written. */
  lemma {:induction false} PatchBodyLength(start: seq<byte>, body: seq<byte>, before: seq<byte>,
                                           pos: nat, size: int, patched: seq<byte>, end: nat, bytes: seq<byte>)
    requires before == start + BodyTag + U32BE(0) + body
    requires pos == |start| + 4 && size == |body| && end == |before|
    requires patched == Overwrite(before, pos, U32BE(size))
    requires bytes == if size % 2 == 1 then Overwrite(patched, end, [0]) else patched
    ensures bytes == start + ChunkBytes(Chunk(BodyTag, body))
  {
    var field := U32BE(size);
    OverwriteField(start + BodyTag, U32BE(0), body, field);
    var chunk := BodyTag + field + body;
    assert patched == start + BodyTag + field + body;
    assert start + BodyTag + field + body == start + chunk;
    if size % 2 == 1 {
      OverwriteAtEnd(patched, [0]);
      AppendAssoc(start, chunk, [0]);
    } else {
      assert bytes == start + chunk + [];
      AppendAssoc(start, chunk, []);
    }
  }

  /** One more plane's row, written after the rows of the planes before it,
      extends the row group by that row. */
  lemma {:induction false} NextPlaneRow(bitplanes: Planes, y: nat, plane: nat, next: nat, compress: bool,
                                        start: seq<byte>, before: seq<byte>, out: seq<byte>, after: seq<byte>)
    requires Tall(bitplanes, y + 1) && plane < |bitplanes| && next == plane + 1
    requires out == EncodeRow(bitplanes[plane][y], compress)
    requires before == start + Concat(PlaneRows(bitplanes, y, plane, compress)) && after == before + out
    ensures after == start + Concat(PlaneRows(bitplanes, y, next, compress))
  {
    assert PlaneRows(bitplanes, y, next, compress) == PlaneRows(bitplanes, y, plane, compress) + [out];
    ConcatSnoc(PlaneRows(bitplanes, y, plane, compress), out);
    AppendAssoc(start, Concat(PlaneRows(bitplanes, y, plane, compress)), out);
  }

  /** A complete row group extends the BODY by one image row. */
  lemma {:induction false} NextBodyRow(bitplanes: Planes, y: nat, compress: bool)
    requires Tall(bitplanes, y + 1)
    ensures BodyRows(bitplanes, y + 1, compress) ==
      BodyRows(bitplanes, y, compress) + Concat(PlaneRows(bitplanes, y, |bitplanes|, compress))
  {
    ConcatAppend(RowList(bitplanes, y, compress), PlaneRows(bitplanes, y, |bitplanes|, compress));
  }

  /** ByteRun1-compresses one row, block by block: a cursor on the last byte
      emits it as a literal of one, a run of three to 127 equal bytes a
      repeat, and anything else a literal run of up to 127 bytes. */
  method CompressRowByteRun1(row: seq<byte>) returns (output: seq<byte>)
    ensures output == ByteRun1.Compressed(row)
    ensures ByteRun1.Decode(output) == Some(row)
  {
    output := [];
    var len := |row|;
    var i := 0;
    while i < len
      invariant i <= len && output + ByteRun1.Serialize(ByteRun1.Plan(row, i)) == ByteRun1.Compressed(row)
    {
      if i == len - 1 {
        ByteRun1.LastByteLiteral(row);
        output := output + [0, row[i]];
        break;
      }
      var run := MeasureRun(row, i);
      if run >= 3 {
        ByteRun1.RepeatHead(row, i, run);
        ghost var from, before := i, output;
        output := output + [ToByte(257 - run), row[i]];
        i := i + run;
        ByteRun1.Advance(row, from, before, [ToByte(257 - run), row[from]], run, i, output);
        continue;
      }
      var different := MeasureLiteral(row, i);
      var startPos := i;
      ByteRun1.LiteralHead(row, i, run, different);
      ghost var before := output;
      output := output + ([ToByte(different - 1)] + row[startPos..startPos + different]);
      i := i + different;
      ByteRun1.Advance(row, startPos, before, [ToByte(different - 1)] + row[startPos..startPos + different], different, i, output);
    }
    ByteRun1.CompressRoundTrip(row);
  }

  /** The compressor's first inner loop: the run of bytes equal to `row[i]`,
      up to 127 of them. */
  method MeasureRun(row: seq<byte>, i: nat) returns (run: nat)
    requires i < |row|
    ensures run == ByteRun1.RunLength(row, i, 1)
  {
    var len := |row|;
    run := 1;
    while i + run < len && row[i] == row[i + run] && run < 127
      invariant 1 <= run <= 127 && i + run <= len
      invariant ByteRun1.RunLength(row, i, run) == ByteRun1.RunLength(row, i, 1)
    {
      run := run + 1;
    }
  }

  /** The compressor's second inner loop: a literal run grows while the byte
      after it does not start a run of three equal bytes (or an equal pair
      ending the row), up to 127 bytes. */
  method MeasureLiteral(row: seq<byte>, i: nat) returns (different: nat)
    requires i < |row|
    ensures different == ByteRun1.LiteralLength(row, i, 1)
  {
    var len := |row|;
    different := 1;
    while i + different < len &&
          (i + different == len - 1 ||
           row[i + different] != row[i + different + 1] ||
           (i + different + 2 < len && row[i + different + 1] != row[i + different + 2])) &&
          different < 127
      invariant 1 <= different <= 127 && i + different <= len
      invariant ByteRun1.LiteralLength(row, i, different) == ByteRun1.LiteralLength(row, i, 1)
    {
      different := different + 1;
    }
  }
}
