/** The byte layout of an IFF ILBM file as the converter writes it: a FORM
    container of type ILBM holding a BMHD, a CMAP and a BODY chunk, in that
    order. Every chunk is its four-byte tag, its payload length as a 32-bit
    big-endian number, the payload, and one zero byte when the length is odd.
    A chunk reader is given beside the layout, so that what the writers put
    down can be read back. */
module Ilbm {
  import opened Bits
  import opened Wrappers
  import opened Bitplanes
  import opened Raster
  import ByteRun1

  const FormTag: seq<byte> := [0x46, 0x4F, 0x52, 0x4D]  // "FORM"
  const IlbmTag: seq<byte> := [0x49, 0x4C, 0x42, 0x4D]  // "ILBM"
  const BmhdTag: seq<byte> := [0x42, 0x4D, 0x48, 0x44]  // "BMHD"
  const CmapTag: seq<byte> := [0x43, 0x4D, 0x41, 0x50]  // "CMAP"
  const BodyTag: seq<byte> := [0x42, 0x4F, 0x44, 0x59]  // "BODY"

  /** One past the largest length a 32-bit field holds. */
  const Limit32: nat := 0x1_0000_0000

  // ---------------------------------------------------------------------------
  // Big-endian numbers

  /** `pack("n", v)`: the low 16 bits of `v`, high byte first. */
  function U16BE(v: int): (r: seq<byte>)
    ensures |r| == 2
  {
    [ToByte(v / 0x100), ToByte(v)]
  }

  /** `pack("N", v)`: the low 32 bits of `v`, high byte first. */
  function U32BE(v: int): (r: seq<byte>)
    ensures |r| == 4
  {
    [ToByte(v / 0x100_0000), ToByte(v / 0x1_0000), ToByte(v / 0x100), ToByte(v)]
  }

  function ReadU16BE(s: seq<byte>, at: nat): nat
    requires at + 2 <= |s|
  {
    (s[at] as int) * 0x100 + s[at + 1]
  }

  function ReadU32BE(s: seq<byte>, at: nat): nat
    requires at + 4 <= |s|
  {
    (((s[at] as int) * 0x100 + s[at + 1]) * 0x100 + s[at + 2]) * 0x100 + s[at + 3]
  }

  /** Reading a packed 16-bit field gives the number modulo `2^16`. */
  lemma {:induction false} U16RoundTrip(v: int)
    ensures ReadU16BE(U16BE(v), 0) == v % 0x1_0000
  {
    ModMul(v, 0x100, 0x100);
  }

  /** Reading a packed 32-bit field gives the number modulo `2^32`. */
  lemma {:induction false} U32RoundTrip(v: int)
    ensures ReadU32BE(U32BE(v), 0) == v % Limit32
  {
    var q1, q2, q3 := v / 0x100, v / 0x1_0000, v / 0x100_0000;
    ModMul(v, 0x100, 0x100);
    ModMul(v, 0x1_0000, 0x100);
    assert q2 == q1 / 0x100 && q3 == q2 / 0x100;
    ModMul(v, 0x100, 0x100_0000);
    ModMul(q1, 0x100, 0x1_0000);
    ModMul(q2, 0x100, 0x100);
    assert v % Limit32 == (q1 % 0x100_0000) * 0x100 + v % 0x100;
    assert q1 % 0x100_0000 == (q2 % 0x1_0000) * 0x100 + q1 % 0x100;
    assert q2 % 0x1_0000 == (q3 % 0x100) * 0x100 + q2 % 0x100;
  }

  // ---------------------------------------------------------------------------
  // Chunks

  /** The pad byte that brings an odd payload to an even length. */
  function Pad(n: nat): (r: seq<byte>)
    ensures |r| == n % 2 && (n + |r|) % 2 == 0
  {
    if n % 2 == 1 then [0] else []
  }

  datatype Chunk = Chunk(id: seq<byte>, data: seq<byte>)

  /** A chunk as it is written: tag, 32-bit length, payload, pad. */
  function ChunkBytes(c: Chunk): seq<byte>
  {
    c.id + U32BE(|c.data|) + c.data + Pad(|c.data|)
  }

  /** A chunk the reader can take back: a four-byte tag and a length that
      fits its field. */
  predicate Writable(c: Chunk)
  {
    |c.id| == 4 && |c.data| < Limit32
  }

  function ChunksBytes(cs: seq<Chunk>): seq<byte>
  {
    if cs == [] then [] else ChunkBytes(cs[0]) + ChunksBytes(cs[1..])
  }

  /** The chunk reader: a tag, a length `n`, `n` payload bytes and a pad byte
      when `n` is odd, again and again to the end of the input. */
  function ParseChunks(s: seq<byte>): Option<seq<Chunk>>
    decreases |s|
  {
    if s == [] then Some([])
    else if |s| < 8 then None
    else
      var n := ReadU32BE(s, 4);
      var end := 8 + n + n % 2;
      if |s| < end then None
      else match ParseChunks(s[end..])
        case None => None
        case Some(rest) => Some([Chunk(s[..4], s[8..8 + n])] + rest)
  }

  /** Reading one written chunk in front of more input. */
  lemma {:induction false} ParseChunkBytes(c: Chunk, t: seq<byte>)
    requires Writable(c)
    ensures ParseChunks(ChunkBytes(c) + t) ==
      match ParseChunks(t) case None => None case Some(rest) => Some([c] + rest)
  {
    var s := ChunkBytes(c) + t;
    var n := |c.data|;
    ChunkParts(c, t);
    ReadField(s, 4, U32BE(n));
    U32RoundTrip(n);
    DivModUnique(n, Limit32, 0, n);
    ParseOne(s, c, t);
  }

  /** The parts of a written chunk, at their offsets. */
  lemma {:induction false} ChunkParts(c: Chunk, t: seq<byte>)
    requires |c.id| == 4
    ensures var s, n := ChunkBytes(c) + t, |c.data|;
      |s| == 8 + n + n % 2 + |t| && s[..4] == c.id && s[4..8] == U32BE(n) &&
      s[8..8 + n] == c.data && s[8 + n + n % 2..] == t
  {
  }

  /** One step of the chunk reader. */
  lemma {:induction false} ParseOne(s: seq<byte>, c: Chunk, t: seq<byte>)
    requires |s| >= 8 && ReadU32BE(s, 4) == |c.data|
    requires |s| == 8 + |c.data| + |c.data| % 2 + |t|
    requires s[..4] == c.id && s[8..8 + |c.data|] == c.data && s[8 + |c.data| + |c.data| % 2..] == t
    ensures ParseChunks(s) ==
      match ParseChunks(t) case None => None case Some(rest) => Some([c] + rest)
  {
  }

  /** The reader takes back every sequence of writable chunks, in order. */
  lemma {:induction false} ParseChunksBytes(cs: seq<Chunk>)
    requires forall k :: 0 <= k < |cs| ==> Writable(cs[k])
    ensures ParseChunks(ChunksBytes(cs)) == Some(cs)
  {
    if cs != [] {
      ParseChunksBytes(cs[1..]);
      ParseChunkBytes(cs[0], ChunksBytes(cs[1..]));
      assert [cs[0]] + cs[1..] == cs;
    }
  }

  // ---------------------------------------------------------------------------
  // The FORM container

  /** `FORM`, the length of everything after the length field, the form type
      and the chunks. */
  function Form(formType: seq<byte>, chunks: seq<byte>): seq<byte>
  {
    FormTag + U32BE(|chunks| + 4) + formType + chunks
  }

  /** The FORM reader: tag, a length that runs to the end of the input, the
      form type and the chunks. */
  function ParseForm(s: seq<byte>): Option<(seq<byte>, seq<Chunk>)>
  {
    if |s| < 12 || s[..4] != FormTag || ReadU32BE(s, 4) != |s| - 8 then None
    else match ParseChunks(s[12..])
      case None => None
      case Some(cs) => Some((s[8..12], cs))
  }

  /** An ILBM file: the BMHD, CMAP and BODY chunks in a FORM of type ILBM. */
  function IlbmFile(bmhd: seq<byte>, cmap: seq<byte>, body: seq<byte>): seq<byte>
  {
    Form(IlbmTag, ChunksBytes([Chunk(BmhdTag, bmhd), Chunk(CmapTag, cmap), Chunk(BodyTag, body)]))
  }

  lemma {:induction false} ThreeChunks(a: Chunk, b: Chunk, c: Chunk)
    ensures ChunksBytes([a, b, c]) == ChunkBytes(a) + ChunkBytes(b) + ChunkBytes(c)
  {
    assert [a, b, c][1..] == [b, c] && [b, c][1..] == [c] && [c][1..] == [];
    assert ChunksBytes([c]) == ChunkBytes(c);
    assert ChunksBytes([b, c]) == ChunkBytes(b) + ChunkBytes(c);
  }

  /** The parts of a FORM, at their offsets. */
  lemma {:induction false} FormParts(formType: seq<byte>, chunks: seq<byte>)
    requires |formType| == 4
    ensures var f := Form(formType, chunks);
      |f| == 12 + |chunks| && f[..4] == FormTag && f[4..8] == U32BE(|chunks| + 4) &&
      f[8..12] == formType && f[12..] == chunks
  {
  }

  /** The length field at offset 4 holds the file's length less 8, modulo
      `2^32`, and the file is `FORM`, that field, `ILBM` and the chunks. */
  lemma {:induction false} FormLengthField(bmhd: seq<byte>, cmap: seq<byte>, body: seq<byte>)
    ensures var f := IlbmFile(bmhd, cmap, body);
      |f| >= 12 && f[..4] == FormTag && f[8..12] == IlbmTag &&
      ReadU32BE(f, 4) == (|f| - 8) % Limit32
  {
    var chunks := ChunksBytes([Chunk(BmhdTag, bmhd), Chunk(CmapTag, cmap), Chunk(BodyTag, body)]);
    var f := Form(IlbmTag, chunks);
    FormParts(IlbmTag, chunks);
    ReadField(f, 4, U32BE(|chunks| + 4));
    U32RoundTrip(|chunks| + 4);
  }

  /** A 32-bit field is read from where it lies. */
  lemma {:induction false} ReadField(s: seq<byte>, at: nat, field: seq<byte>)
    requires at + 4 <= |s| && s[at..at + 4] == field
    ensures ReadU32BE(s, at) == ReadU32BE(field, 0)
  {
    assert s[at] == field[0] && s[at + 1] == field[1] && s[at + 2] == field[2] && s[at + 3] == field[3];
  }

  /** Read back, an ILBM file short of 4 GiB is a FORM of type ILBM holding
      exactly a BMHD, a CMAP and a BODY chunk, in that order, with the payloads
      that were written. */
  lemma {:induction false} IlbmFileParses(bmhd: seq<byte>, cmap: seq<byte>, body: seq<byte>)
    requires |IlbmFile(bmhd, cmap, body)| - 8 < Limit32
    ensures ParseForm(IlbmFile(bmhd, cmap, body)) ==
      Some((IlbmTag, [Chunk(BmhdTag, bmhd), Chunk(CmapTag, cmap), Chunk(BodyTag, body)]))
  {
    var cs := [Chunk(BmhdTag, bmhd), Chunk(CmapTag, cmap), Chunk(BodyTag, body)];
    FormParts(IlbmTag, ChunksBytes(cs));
    ThreeChunks(cs[0], cs[1], cs[2]);
    assert Writable(cs[0]) && Writable(cs[1]) && Writable(cs[2]);
    ParseChunksBytes(cs);
    FormReads(IlbmFile(bmhd, cmap, body), IlbmTag, ChunksBytes(cs), cs);
  }

  /** The FORM reader takes back a FORM short of 4 GiB whose chunks read back. */
  lemma {:induction false} FormReads(s: seq<byte>, formType: seq<byte>, chunks: seq<byte>, cs: seq<Chunk>)
    requires |formType| == 4 && s == Form(formType, chunks) && |s| - 8 < Limit32
    requires ParseChunks(chunks) == Some(cs)
    ensures ParseForm(s) == Some((formType, cs))
  {
    FormParts(formType, chunks);
    ReadField(s, 4, U32BE(|chunks| + 4));
    U32RoundTrip(|chunks| + 4);
    DivModUnique(|chunks| + 4, Limit32, 0, |chunks| + 4);
  }

  // ---------------------------------------------------------------------------
  // BMHD

  /** The 20-byte bitmap header: width, height, origin (0, 0), plane count,
      no masking, the compression flag, a pad byte, transparent colour 0,
      aspect 1:1 and a page the size of the image. */
  function BmhdPayload(width: int, height: int, nPlanes: int, compress: bool): (r: seq<byte>)
    ensures |r| == 20
  {
    U16BE(width) + U16BE(height) + U16BE(0) + U16BE(0) +
    [ToByte(nPlanes), 0, if compress then 1 else 0, 0] +
    U16BE(0) + [1, 1] + U16BE(width) + U16BE(height)
  }

  /** The header's fields, each at its offset. */
  lemma {:induction false} BmhdFields(width: int, height: int, nPlanes: int, compress: bool)
    ensures var r := BmhdPayload(width, height, nPlanes, compress);
      ReadU16BE(r, 0) == width % 0x1_0000 && ReadU16BE(r, 2) == height % 0x1_0000 &&
      r[4..8] == [0, 0, 0, 0] &&
      r[8] == ToByte(nPlanes) && r[9] == 0 && r[10] == (if compress then 1 else 0) && r[11] == 0 &&
      r[12] == 0 && r[13] == 0 && r[14] == 1 && r[15] == 1 &&
      ReadU16BE(r, 16) == width % 0x1_0000 && ReadU16BE(r, 18) == height % 0x1_0000
  {
    var r := BmhdPayload(width, height, nPlanes, compress);
    U16RoundTrip(width);
    U16RoundTrip(height);
    assert r[0..2] == U16BE(width) && r[16..18] == U16BE(width);
    assert r[2..4] == U16BE(height) && r[18..20] == U16BE(height);
  }

  // ---------------------------------------------------------------------------
  // CMAP

  /** The colour map: three bytes, red, green, blue, for every palette entry,
      in palette order. */
  function CmapPayload(palette: seq<Rgb>): (r: seq<byte>)
    ensures |r| == 3 * |palette|
    ensures forall i :: 0 <= i < |palette| ==>
      r[3 * i] == ToByte(palette[i].r) && r[3 * i + 1] == ToByte(palette[i].g) && r[3 * i + 2] == ToByte(palette[i].b)
  {
    if palette == [] then []
    else
      var c := palette[|palette| - 1];
      CmapPayload(palette[..|palette| - 1]) + [ToByte(c.r), ToByte(c.g), ToByte(c.b)]
  }

  /** The CMAP chunk is `3 * count` bytes long, with a pad byte exactly when the
      palette has an odd number of entries. */
  lemma {:induction false} CmapChunkLength(palette: seq<Rgb>)
    ensures |ChunkBytes(Chunk(CmapTag, CmapPayload(palette)))| ==
      8 + 3 * |palette| + (if |palette| % 2 == 1 then 1 else 0)
  {
  }

  // ---------------------------------------------------------------------------
  // BODY

  /** A row as it goes into the BODY: ByteRun1-compressed, or verbatim. */
  function EncodeRow(row: seq<byte>, compress: bool): seq<byte>
  {
    if compress then ByteRun1.Compressed(row) else row
  }

  /** Every plane has at least `height` rows. */
  predicate Tall(planes: Planes, height: nat)
  {
    forall q :: 0 <= q < |planes| ==> height <= |planes[q]|
  }

  /** Row `y` of planes `0 .. p - 1`, in plane order. */
  function PlaneRows(planes: Planes, y: nat, p: nat, compress: bool): (r: seq<seq<byte>>)
    requires p <= |planes| && Tall(planes, y + 1)
    ensures |r| == p
  {
    if p == 0 then [] else PlaneRows(planes, y, p - 1, compress) + [EncodeRow(planes[p - 1][y], compress)]
  }

  /** The rows of the BODY for the first `y` image rows: row by row, and
      within a row plane by plane. */
  function RowList(planes: Planes, y: nat, compress: bool): (r: seq<seq<byte>>)
    requires Tall(planes, y)
    ensures |r| == y * |planes|
  {
    if y == 0 then [] else RowList(planes, y - 1, compress) + PlaneRows(planes, y - 1, |planes|, compress)
  }

  /** The BODY payload for the first `y` image rows. */
  function BodyRows(planes: Planes, y: nat, compress: bool): seq<byte>
    requires Tall(planes, y)
  {
    Concat(RowList(planes, y, compress))
  }

  lemma {:induction false} PlaneRowsAt(planes: Planes, y: nat, p: nat, compress: bool, q: nat)
    requires p <= |planes| && Tall(planes, y + 1) && q < p
    ensures PlaneRows(planes, y, p, compress)[q] == EncodeRow(planes[q][y], compress)
  {
    if q < p - 1 {
      PlaneRowsAt(planes, y, p - 1, compress, q);
    }
  }

  /** Entry `yy * planes + q` of the BODY's rows is row `yy` of plane `q`. */
  lemma {:induction false} RowListAt(planes: Planes, y: nat, compress: bool, yy: nat, q: nat)
    requires Tall(planes, y) && yy < y && q < |planes|
    ensures yy * |planes| + q < y * |planes|
    ensures RowList(planes, y, compress)[yy * |planes| + q] == EncodeRow(planes[q][yy], compress)
  {
    var n := |planes|;
    MulLess(yy, y - 1, n, q);
    if yy < y - 1 {
      RowListAt(planes, y - 1, compress, yy, q);
    } else {
      PlaneRowsAt(planes, y - 1, n, compress, q);
    }
  }

  /** Every row of every plane is `r` bytes. */
  predicate Rectangular(planes: Planes, height: nat, r: nat)
  {
    Tall(planes, height) &&
    forall q, y :: 0 <= q < |planes| && 0 <= y < height ==> |planes[q][y]| == r
  }

  /** Where byte `k` of row `yy` of plane `q` lies in an uncompressed BODY
      of `n` planes with rows of `r` bytes. */
  function BodyOffset(n: nat, r: nat, yy: nat, q: nat, k: nat): nat
  {
    (yy * n + q) * r + k
  }

  /** Uncompressed, the BODY is `height * planes * r` bytes and holds row `yy`
      of plane `q` at `BodyOffset`: rows in order, planes in
      order within a row. */
  lemma {:induction false} BodyRowsAt(planes: Planes, y: nat, r: nat, yy: nat, q: nat, k: nat)
    requires Rectangular(planes, y, r)
    requires yy < y && q < |planes| && k < r
    ensures |BodyRows(planes, y, false)| == y * |planes| * r
    ensures BodyOffset(|planes|, r, yy, q, k) < |BodyRows(planes, y, false)|
    ensures BodyRows(planes, y, false)[BodyOffset(|planes|, r, yy, q, k)] == planes[q][yy][k]
  {
    var rs := RowList(planes, y, false);
    RowLengths(planes, y, r);
    RowListAt(planes, y, false, yy, q);
    ConcatAt(rs, r, yy * |planes| + q, k);
  }

  /** Uncompressed, every row of the BODY is `r` bytes. */
  lemma {:induction false} RowLengths(planes: Planes, y: nat, r: nat)
    requires Rectangular(planes, y, r)
    ensures forall j :: 0 <= j < |RowList(planes, y, false)| ==> |RowList(planes, y, false)[j]| == r
  {
    var n := |planes|;
    var rs := RowList(planes, y, false);
    forall j | 0 <= j < |rs|
      ensures |rs[j]| == r
    {
      SplitIndex(j, n, y);
      RowListAt(planes, y, false, j / n, j % n);
    }
  }

  /** The compressed BODY decodes, as one ByteRun1 stream, to the
      uncompressed BODY. */
  lemma {:induction false} BodyDecodes(planes: Planes, y: nat)
    requires Tall(planes, y)
    ensures ByteRun1.Decode(BodyRows(planes, y, true)) == Some(BodyRows(planes, y, false))
  {
    var n := |planes|;
    var es, rows := RowList(planes, y, true), RowList(planes, y, false);
    forall j | 0 <= j < |es|
      ensures es[j] == ByteRun1.Compressed(rows[j])
    {
      SplitIndex(j, n, y);
      RowListAt(planes, y, true, j / n, j % n);
      RowListAt(planes, y, false, j / n, j % n);
    }
    ByteRun1.ConcatDecodes(es, rows);
  }
}
